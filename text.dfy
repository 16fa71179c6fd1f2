/**
 * Character classes and string transforms the name normaliser uses:
 * `trim`, the four casings, the replacement of white-space runs by the
 * separator, and normalizeName itself.
 *
 * White space is the set JavaScript's `\s` and `String.prototype.trim`
 * share; letters are changed by the casings only in the ASCII range.
 */
module Text {

  /** The characters `\s` matches and `trim` removes. */
  predicate IsSpace(c: char) {
    || c == '\t' || c == '\n' || c == '\U{000B}' || c == '\U{000C}' || c == '\r' || c == ' '
    || c == '\U{00A0}' || c == '\U{1680}' || ('\U{2000}' <= c <= '\U{200A}')
    || c == '\U{2028}' || c == '\U{2029}' || c == '\U{202F}' || c == '\U{205F}'
    || c == '\U{3000}' || c == '\U{FEFF}'
  }

  /** The characters `\w` matches. */
  predicate IsWordChar(c: char) {
    ('A' <= c <= 'Z') || ('a' <= c <= 'z') || ('0' <= c <= '9') || c == '_'
  }

  predicate IsLowerLetter(c: char) { 'a' <= c <= 'z' }
  predicate IsUpperLetter(c: char) { 'A' <= c <= 'Z' }

  predicate NotSpace(c: char) { !IsSpace(c) }
  predicate NotLower(c: char) { !IsLowerLetter(c) }
  predicate NotUpper(c: char) { !IsUpperLetter(c) }

  /** Every character of `s` satisfies `p`. */
  predicate All(s: string, p: char -> bool) {
    forall i :: 0 <= i < |s| ==> p(s[i])
  }

  /** `s` has no white space at either end. */
  predicate Trimmed(s: string) {
    s == [] || (!IsSpace(s[0]) && !IsSpace(s[|s| - 1]))
  }

  function ToUpper(c: char): (d: char)
    ensures !IsLowerLetter(d)
    ensures IsSpace(d) == IsSpace(c) && IsWordChar(d) == IsWordChar(c)
    ensures !IsLowerLetter(c) ==> d == c
  {
    if IsLowerLetter(c) then (c as int - 32) as char else c
  }

  function ToLower(c: char): (d: char)
    ensures !IsUpperLetter(d)
    ensures IsSpace(d) == IsSpace(c) && IsWordChar(d) == IsWordChar(c)
    ensures !IsUpperLetter(c) ==> d == c
  {
    if IsUpperLetter(c) then (c as int + 32) as char else c
  }

  /** Upper-casing a letter and lower-casing it again gives it back, and the other way round. */
  lemma CaseRoundTrip(c: char)
    ensures IsLowerLetter(c) ==> IsUpperLetter(ToUpper(c)) && ToLower(ToUpper(c)) == c
    ensures IsUpperLetter(c) ==> IsLowerLetter(ToLower(c)) && ToUpper(ToLower(c)) == c
  {
  }

  /**
   * Both casings keep alphabetical order; with the round trip this pins each
   * letter to the letter at the same place in the other case.
   */
  lemma CaseOrder(c1: char, c2: char)
    ensures IsLowerLetter(c1) && IsLowerLetter(c2) && c1 < c2 ==> ToUpper(c1) < ToUpper(c2)
    ensures IsUpperLetter(c1) && IsUpperLetter(c2) && c1 < c2 ==> ToLower(c1) < ToLower(c2)
  {
  }

  /** `toUpperCase`: no lower-case letter is left, and nothing but letters changes. */
  function UpperCase(s: string): (r: string)
    ensures |r| == |s| && All(r, NotLower)
    ensures forall i :: 0 <= i < |s| ==> !IsLowerLetter(s[i]) ==> r[i] == s[i]
  {
    seq(|s|, i requires 0 <= i < |s| => ToUpper(s[i]))
  }

  /** `toLowerCase`: no upper-case letter is left, and nothing but letters changes. */
  function LowerCase(s: string): (r: string)
    ensures |r| == |s| && All(r, NotUpper)
    ensures forall i :: 0 <= i < |s| ==> !IsUpperLetter(s[i]) ==> r[i] == s[i]
  {
    seq(|s|, i requires 0 <= i < |s| => ToLower(s[i]))
  }

  /** Position `i` of `s` is where `\b\w` matches: a word character not preceded by one. */
  predicate StartsWord(s: string, i: nat)
    requires i < |s|
  {
    IsWordChar(s[i]) && (i == 0 || !IsWordChar(s[i - 1]))
  }

  /**
   * `toLowerCase().replace(/\b\w/g, c => c.toUpperCase())`: the first
   * character of every run of word characters is upper-cased, every other
   * letter is lower-case.
   */
  function TitleCase(s: string): (r: string)
    ensures |r| == |s|
  {
    var l := LowerCase(s);
    seq(|l|, i requires 0 <= i < |l| => if StartsWord(l, i) then ToUpper(l[i]) else l[i])
  }

  /**
   * Title casing keeps where the words start; a word's first character is
   * left with no lower-case letter, every other character with no upper-case
   * one, and each character is the original one lower-cased, then
   * upper-cased again at a word start.
   */
  lemma TitleCaseShape(s: string)
    ensures forall i :: 0 <= i < |s| ==> StartsWord(TitleCase(s), i) == StartsWord(s, i)
    ensures forall i :: 0 <= i < |s| ==>
      if StartsWord(s, i) then !IsLowerLetter(TitleCase(s)[i]) else !IsUpperLetter(TitleCase(s)[i])
    ensures forall i :: 0 <= i < |s| ==>
      TitleCase(s)[i] == if StartsWord(s, i) then ToUpper(ToLower(s[i])) else ToLower(s[i])
  {
    var l, r := LowerCase(s), TitleCase(s);
    assert forall i :: 0 <= i < |s| ==> IsWordChar(l[i]) == IsWordChar(s[i]);
    assert forall i :: 0 <= i < |s| ==> IsWordChar(r[i]) == IsWordChar(s[i]);
    forall i | 0 <= i < |s|
      ensures StartsWord(r, i) == StartsWord(s, i)
    {
      assert StartsWord(r, i) == StartsWord(l, i);
    }
    forall i | 0 <= i < |s|
      ensures if StartsWord(s, i) then !IsLowerLetter(r[i]) else !IsUpperLetter(r[i])
      ensures r[i] == if StartsWord(s, i) then ToUpper(ToLower(s[i])) else ToLower(s[i])
    {
      assert StartsWord(l, i) == StartsWord(s, i);
    }
  }

  /** The `casing` option, as the source distinguishes it. */
  datatype Casing = Upper | Lower | Title | AsIs

  /** The select value: "upper", "lower" and "title" are recognised, anything else leaves the case alone. */
  function CasingOf(value: string): Casing {
    if value == "upper" then Upper
    else if value == "lower" then Lower
    else if value == "title" then Title
    else AsIs
  }

  /** A casing changes letters only, so it keeps the length and where the white space is. */
  function ApplyCasing(casing: Casing, s: string): (r: string)
    ensures |r| == |s|
    ensures forall i :: 0 <= i < |s| ==> IsSpace(r[i]) == IsSpace(s[i])
  {
    match casing
    case Upper => UpperCase(s)
    case Lower => LowerCase(s)
    case Title => TitleCase(s)
    case AsIs => s
  }

  /** `trimStart`: white space removed from the front. */
  function TrimStart(s: string): string {
    if s != [] && IsSpace(s[0]) then TrimStart(s[1..]) else s
  }

  /** `trimEnd`: white space removed from the back. */
  function TrimEnd(s: string): string {
    if s != [] && IsSpace(s[|s| - 1]) then TrimEnd(s[..|s| - 1]) else s
  }

  /** `trim`. */
  function Trim(s: string): string {
    TrimEnd(TrimStart(s))
  }

  /** A character that, after a '$' in the separator, forms a replacement pattern. */
  predicate IsPatternChar(c: char) {
    c == '$' || c == '&' || c == '`' || c == '\''
  }

  /**
   * A separator `replace` inserts as written: no '$' in it is followed by
   * '$', '&', '`' or '\''. (The pattern has no capture groups, so "$1" or
   * "$<" stay as written in every separator.)
   */
  predicate Literal(sep: string) {
    forall i :: 0 <= i < |sep| - 1 ==> !(sep[i] == '$' && IsPatternChar(sep[i + 1]))
  }

  /**
   * The text `replace` inserts for the separator at a match: "$$" is one '$',
   * "$&" the matched text, "$`" the text before the match and "$'" the text
   * after it (GetSubstitution in the ECMAScript specification); every other
   * character is copied.
   */
  function Expand(sep: string, matched: string, pre: string, post: string): string
    decreases |sep|
  {
    if sep == [] then []
    else if sep[0] == '$' && |sep| > 1 && IsPatternChar(sep[1]) then
      (if sep[1] == '$' then "$" else if sep[1] == '&' then matched else if sep[1] == '`' then pre else post)
      + Expand(sep[2..], matched, pre, post)
    else [sep[0]] + Expand(sep[1..], matched, pre, post)
  }

  /** Where the run of white space starting at `i` ends. */
  function RunEnd(s: string, i: nat): (j: nat)
    requires i <= |s|
    ensures i <= j <= |s|
    ensures forall k :: i <= k < j ==> IsSpace(s[k])
    ensures j == |s| || !IsSpace(s[j])
    decreases |s| - i
  {
    if i < |s| && IsSpace(s[i]) then RunEnd(s, i + 1) else i
  }

  /**
   * `s.replace(/\s+/g, sep)` from position `i` on: characters outside white
   * space are copied, and every maximal run of white space is replaced by the
   * expansion of `sep` for that match.
   */
  function ReplaceFrom(s: string, sep: string, i: nat): string
    requires i <= |s|
    decreases |s| - i
  {
    if i == |s| then []
    else if !IsSpace(s[i]) then [s[i]] + ReplaceFrom(s, sep, i + 1)
    else
      var j := RunEnd(s, i);
      Expand(sep, s[i..j], s[..i], s[j..]) + ReplaceFrom(s, sep, j)
  }

  /** `s.replace(/\s+/g, sep)`. */
  function Replace(s: string, sep: string): string {
    ReplaceFrom(s, sep, 0)
  }

  /**
   * The replacement with a literal separator, scanning left to right: the
   * first white-space character of a run emits `sep`, the rest of the run
   * emits nothing. `inRun` says whether the previous character was white
   * space. ReplaceLiteral shows it is `replace` for such separators.
   */
  function CollapseFrom(s: string, sep: string, inRun: bool): string {
    if s == [] then []
    else if IsSpace(s[0]) then (if inRun then [] else sep) + CollapseFrom(s[1..], sep, true)
    else [s[0]] + CollapseFrom(s[1..], sep, false)
  }

  /** normalizeName(name, sep, casing): trim, apply the casing, then replace white-space runs by `sep`. */
  function Normalize(name: string, sep: string, casing: Casing): string {
    Replace(ApplyCasing(casing, Trim(name)), sep)
  }

  // ---------------------------------------------------------------------
  // Trim

  /** `trimStart` keeps a suffix of `s`. */
  lemma {:induction false} TrimStartSuffix(s: string)
    ensures |TrimStart(s)| <= |s| && TrimStart(s) == s[|s| - |TrimStart(s)|..]
    decreases |s|
  {
    if s != [] && IsSpace(s[0]) {
      TrimStartSuffix(s[1..]);
      var r := TrimStart(s[1..]);
      assert s[1..][|s| - 1 - |r|..] == s[|s| - |r|..];
    }
  }

  /** What `trimStart` drops is white space. */
  lemma {:induction false} TrimStartDrops(s: string)
    ensures forall k :: 0 <= k < |s| - |TrimStart(s)| ==> IsSpace(s[k])
    decreases |s|
  {
    if s != [] && IsSpace(s[0]) {
      TrimStartDrops(s[1..]);
      forall k | 0 < k < |s| - |TrimStart(s)|
        ensures IsSpace(s[k])
      {
        assert s[k] == s[1..][k - 1];
      }
    }
  }

  /** `trimStart` stops at the first character that is not white space. */
  lemma {:induction false} TrimStartStops(s: string)
    ensures TrimStart(s) == [] || !IsSpace(TrimStart(s)[0])
    decreases |s|
  {
    if s != [] && IsSpace(s[0]) {
      TrimStartStops(s[1..]);
    }
  }

  /** `trimEnd` keeps a prefix of `s`. */
  lemma {:induction false} TrimEndPrefix(s: string)
    ensures |TrimEnd(s)| <= |s| && TrimEnd(s) == s[..|TrimEnd(s)|]
    decreases |s|
  {
    if s != [] && IsSpace(s[|s| - 1]) {
      TrimEndPrefix(s[..|s| - 1]);
      var r := TrimEnd(s[..|s| - 1]);
      assert s[..|s| - 1][..|r|] == s[..|r|];
    }
  }

  /** What `trimEnd` drops is white space. */
  lemma {:induction false} TrimEndDrops(s: string)
    ensures forall k :: |TrimEnd(s)| <= k < |s| ==> IsSpace(s[k])
    decreases |s|
  {
    if s != [] && IsSpace(s[|s| - 1]) {
      TrimEndDrops(s[..|s| - 1]);
      TrimEndPrefix(s[..|s| - 1]);
      forall k | |TrimEnd(s)| <= k < |s| - 1
        ensures IsSpace(s[k])
      {
        assert s[k] == s[..|s| - 1][k];
      }
    }
  }

  /** `trimEnd` stops at the last character that is not white space. */
  lemma {:induction false} TrimEndStops(s: string)
    ensures TrimEnd(s) == [] || !IsSpace(TrimEnd(s)[|TrimEnd(s)| - 1])
    decreases |s|
  {
    if s != [] && IsSpace(s[|s| - 1]) {
      TrimEndStops(s[..|s| - 1]);
    }
  }

  /** `trim` leaves no white space at either end. */
  lemma TrimShape(s: string)
    ensures Trimmed(Trim(s))
  {
    var t := TrimStart(s);
    var r := Trim(s);
    TrimStartStops(s);
    TrimEndPrefix(t);
    TrimEndStops(t);
    if r != [] {
      assert r[0] == t[0];
    }
  }

  /** Trimming a string with no white space at either end changes nothing. */
  lemma TrimTrimmed(s: string)
    requires Trimmed(s)
    ensures Trim(s) == s
  {
    assert TrimStart(s) == s;
  }

  /** `trim` is idempotent. */
  lemma TrimIdempotent(s: string)
    ensures Trim(Trim(s)) == Trim(s)
  {
    TrimShape(s);
    TrimTrimmed(Trim(s));
  }

  // ---------------------------------------------------------------------
  // Replacing white-space runs

  /** A property every non-space character of `s` and every character of `sep` has, every character of the result has. */
  lemma {:induction false} CollapseKeeps(s: string, sep: string, inRun: bool, p: char -> bool)
    requires forall i :: 0 <= i < |s| && !IsSpace(s[i]) ==> p(s[i])
    requires All(sep, p)
    ensures All(CollapseFrom(s, sep, inRun), p)
  {
    if s != [] {
      CollapseKeeps(s[1..], sep, IsSpace(s[0]), p);
    }
  }

  /** With no white space to replace, nothing changes. */
  lemma {:induction false} CollapseSpaceless(w: string, sep: string, inRun: bool)
    requires All(w, NotSpace)
    ensures CollapseFrom(w, sep, inRun) == w
  {
    if w != [] {
      assert NotSpace(w[0]);
      CollapseSpaceless(w[1..], sep, false);
    }
  }

  /** A run of white space met while already in a run emits nothing. */
  lemma {:induction false} CollapseSkipsRun(sp: string, t: string, sep: string)
    requires All(sp, IsSpace)
    ensures CollapseFrom(sp + t, sep, true) == CollapseFrom(t, sep, true)
  {
    if sp != [] {
      assert (sp + t)[0] == sp[0] && (sp + t)[1..] == sp[1..] + t;
      CollapseSkipsRun(sp[1..], t, sep);
    } else {
      assert sp + t == t;
    }
  }

  /** A leading non-space character passes through. */
  lemma CollapseCons(c: char, t: string, sep: string, inRun: bool)
    requires !IsSpace(c)
    ensures CollapseFrom([c] + t, sep, inRun) == [c] + CollapseFrom(t, sep, false)
  {
    assert ([c] + t)[1..] == t;
  }

  /** A trailing non-space character is kept at the end. */
  lemma {:induction false} CollapseLast(s: string, sep: string, inRun: bool)
    requires s != [] && !IsSpace(s[|s| - 1])
    ensures CollapseFrom(s, sep, inRun) != []
    ensures CollapseFrom(s, sep, inRun)[|CollapseFrom(s, sep, inRun)| - 1] == s[|s| - 1]
  {
    if |s| > 1 {
      CollapseLast(s[1..], sep, IsSpace(s[0]));
    }
  }

  /**
   * Replacing white-space runs twice is replacing them once, when `sep` holds
   * no white space or only white space. (With a separator such as " - " it is
   * not: see MixedSeparatorNotIdempotent.)
   */
  lemma {:induction false} CollapseFromIdempotent(s: string, sep: string, inRun: bool)
    requires All(sep, NotSpace) || All(sep, IsSpace)
    ensures CollapseFrom(CollapseFrom(s, sep, inRun), sep, inRun) == CollapseFrom(s, sep, inRun)
  {
    var r := CollapseFrom(s, sep, inRun);
    if All(sep, NotSpace) {
      CollapseKeeps(s, sep, inRun, NotSpace);
      CollapseSpaceless(r, sep, inRun);
    } else if s == [] {
    } else if !IsSpace(s[0]) {
      var x := CollapseFrom(s[1..], sep, false);
      assert r == [s[0]] + x;
      CollapseFromIdempotent(s[1..], sep, false);
      assert CollapseFrom(x, sep, false) == x;
      CollapseCons(s[0], x, sep, inRun);
      assert CollapseFrom(r, sep, inRun) == [s[0]] + CollapseFrom(x, sep, false);
    } else if inRun {
      assert r == [] + CollapseFrom(s[1..], sep, true) == CollapseFrom(s[1..], sep, true);
      CollapseFromIdempotent(s[1..], sep, true);
    } else {
      var y := CollapseFrom(s[1..], sep, true);
      assert r == sep + y;
      assert sep != [];
      assert (sep + y)[0] == sep[0] && (sep + y)[1..] == sep[1..] + y;
      CollapseSkipsRun(sep[1..], y, sep);
      assert CollapseFrom(r, sep, false) == sep + CollapseFrom(y, sep, true);
      CollapseFromIdempotent(s[1..], sep, true);
    }
  }

  /** Two words joined by one space come out joined by the separator. */
  lemma {:induction false} CollapseJoin(w1: string, w2: string, sep: string, inRun: bool)
    requires All(w1, NotSpace) && All(w2, NotSpace)
    requires w1 == [] ==> !inRun
    ensures CollapseFrom(w1 + " " + w2, sep, inRun) == w1 + sep + w2
  {
    var s := w1 + " " + w2;
    if w1 == [] {
      assert s[0] == ' ' && s[1..] == w2;
      CollapseSpaceless(w2, sep, true);
    } else {
      assert NotSpace(w1[0]);
      assert s[0] == w1[0] && s[1..] == w1[1..] + " " + w2;
      CollapseJoin(w1[1..], w2, sep, false);
      assert w1 + sep + w2 == [w1[0]] + (w1[1..] + sep + w2);
    }
  }

  // ---------------------------------------------------------------------
  // The separator's replacement patterns

  /** A literal separator expands to itself. */
  lemma {:induction false} ExpandLiteral(sep: string, matched: string, pre: string, post: string)
    requires Literal(sep)
    ensures Expand(sep, matched, pre, post) == sep
    decreases |sep|
  {
    if sep != [] {
      assert !(sep[0] == '$' && |sep| > 1 && IsPatternChar(sep[1]));
      assert Literal(sep[1..]) by {
        forall i | 0 <= i < |sep[1..]| - 1
          ensures !(sep[1..][i] == '$' && IsPatternChar(sep[1..][i + 1]))
        {
          assert sep[1..][i] == sep[i + 1] && sep[1..][i + 1] == sep[i + 2];
        }
      }
      ExpandLiteral(sep[1..], matched, pre, post);
    }
  }

  /** The expansion holds only characters of the separator, the match and the text around it. */
  lemma {:induction false} ExpandKeeps(sep: string, matched: string, pre: string, post: string, p: char -> bool)
    requires All(sep, p) && All(matched, p) && All(pre, p) && All(post, p)
    ensures All(Expand(sep, matched, pre, post), p)
    decreases |sep|
  {
    if sep != [] {
      assert p(sep[0]);
      assert All(sep[1..], p) by {
        forall i | 0 <= i < |sep[1..]| ensures p(sep[1..][i]) { assert sep[1..][i] == sep[i + 1]; }
      }
      if sep[0] == '$' && |sep| > 1 && IsPatternChar(sep[1]) {
        assert All(sep[2..], p) by {
          forall i | 0 <= i < |sep[2..]| ensures p(sep[2..][i]) { assert sep[2..][i] == sep[i + 2]; }
        }
        ExpandKeeps(sep[2..], matched, pre, post, p);
      } else {
        ExpandKeeps(sep[1..], matched, pre, post, p);
      }
    }
  }

  /** The literal scan starting outside a run does not care whether it came from one, when no white space follows. */
  lemma CollapseOutsideRun(t: string, sep: string)
    requires t == [] || !IsSpace(t[0])
    ensures CollapseFrom(t, sep, true) == CollapseFrom(t, sep, false)
  {
  }

  /** With a literal separator, `replace` is the left-to-right scan CollapseFrom. */
  lemma {:induction false} ReplaceLiteral(s: string, sep: string, i: nat)
    requires Literal(sep) && i <= |s|
    ensures ReplaceFrom(s, sep, i) == CollapseFrom(s[i..], sep, false)
    decreases |s| - i
  {
    if i < |s| {
      var t := s[i..];
      assert t[0] == s[i] && t[1..] == s[i + 1..];
      if !IsSpace(s[i]) {
        ReplaceLiteral(s, sep, i + 1);
      } else {
        var j := RunEnd(s, i);
        ExpandLiteral(sep, s[i..j], s[..i], s[j..]);
        var run := s[i + 1..j];
        assert s[i + 1..] == run + s[j..];
        assert All(run, IsSpace) by {
          forall k | 0 <= k < |run| ensures IsSpace(run[k]) { assert run[k] == s[i + 1 + k]; }
        }
        CollapseSkipsRun(run, s[j..], sep);
        assert s[j..] == [] || s[j..][0] == s[j];
        CollapseOutsideRun(s[j..], sep);
        ReplaceLiteral(s, sep, j);
      }
    }
  }

  /** A property every character of `s` and of `sep` has, every character of the replacement has. */
  lemma {:induction false} ReplaceKeeps(s: string, sep: string, i: nat, p: char -> bool)
    requires i <= |s| && All(s, p) && All(sep, p)
    ensures All(ReplaceFrom(s, sep, i), p)
    decreases |s| - i
  {
    if i < |s| {
      if !IsSpace(s[i]) {
        assert p(s[i]);
        ReplaceKeeps(s, sep, i + 1, p);
      } else {
        var j := RunEnd(s, i);
        assert All(s[i..j], p) by {
          forall k | 0 <= k < |s[i..j]| ensures p(s[i..j][k]) { assert s[i..j][k] == s[i + k]; }
        }
        assert All(s[..i], p) by {
          forall k | 0 <= k < i ensures p(s[..i][k]) { assert s[..i][k] == s[k]; }
        }
        assert All(s[j..], p) by {
          forall k | 0 <= k < |s[j..]| ensures p(s[j..][k]) { assert s[j..][k] == s[j + k]; }
        }
        ExpandKeeps(sep, s[i..j], s[..i], s[j..], p);
        ReplaceKeeps(s, sep, j, p);
      }
    }
  }

  /** A final character outside white space stays final, whatever the separator. */
  lemma {:induction false} ReplaceLast(s: string, sep: string, i: nat)
    requires i < |s| && !IsSpace(s[|s| - 1])
    ensures ReplaceFrom(s, sep, i) != []
    ensures ReplaceFrom(s, sep, i)[|ReplaceFrom(s, sep, i)| - 1] == s[|s| - 1]
    decreases |s| - i
  {
    if !IsSpace(s[i]) {
      if i + 1 < |s| {
        ReplaceLast(s, sep, i + 1);
      }
    } else {
      var j := RunEnd(s, i);
      ReplaceLast(s, sep, j);
    }
  }

  // ---------------------------------------------------------------------
  // normalizeName

  /**
   * A literal separator without white space leaves no white space at all in
   * the name. (A separator holding "$&" re-inserts the white space it
   * replaces, and one holding "$`" or "$'" inserts text around the match,
   * white space included: see MatchSeparatorNotIdempotent,
   * PrefixSeparatorNotIdempotent and SuffixSeparator.)
   */
  lemma NormalizeSpaceless(name: string, sep: string, casing: Casing)
    requires All(sep, NotSpace) && Literal(sep)
    ensures All(Normalize(name, sep, casing), NotSpace)
  {
    var c := ApplyCasing(casing, Trim(name));
    ReplaceLiteral(c, sep, 0);
    assert c[0..] == c;
    CollapseKeeps(c, sep, false, NotSpace);
  }

  /** Whatever the separator, a normalised name has no white space at either end. */
  lemma NormalizeTrimmed(name: string, sep: string, casing: Casing)
    ensures Trimmed(Normalize(name, sep, casing))
  {
    var c := ApplyCasing(casing, Trim(name));
    TrimShape(name);
    if c != [] {
      ReplaceLast(c, sep, 0);
      assert Replace(c, sep)[0] == c[0];
    }
  }

  /** Upper casing leaves no lower-case letter unless the separator brings one. */
  lemma NormalizeUpper(name: string, sep: string)
    requires All(sep, NotLower)
    ensures All(Normalize(name, sep, Upper), NotLower)
  {
    ReplaceKeeps(UpperCase(Trim(name)), sep, 0, NotLower);
  }

  /** Lower casing leaves no upper-case letter unless the separator brings one. */
  lemma NormalizeLower(name: string, sep: string)
    requires All(sep, NotUpper)
    ensures All(Normalize(name, sep, Lower), NotUpper)
  {
    ReplaceKeeps(LowerCase(Trim(name)), sep, 0, NotUpper);
  }

  /** A casing other than title leaves a string it already produced unchanged. */
  lemma CasingFixed(casing: Casing, s: string)
    requires casing != Title
    requires casing == Upper ==> All(s, NotLower)
    requires casing == Lower ==> All(s, NotUpper)
    ensures ApplyCasing(casing, s) == s
  {
    if casing == Upper {
      assert forall i :: 0 <= i < |s| ==> NotLower(s[i]);
    } else if casing == Lower {
      assert forall i :: 0 <= i < |s| ==> NotUpper(s[i]);
    }
  }

  /** The casing leaves its own normalised result alone when it leaves the separator alone. */
  lemma NormalizeCased(name: string, sep: string, casing: Casing)
    requires casing != Title
    requires ApplyCasing(casing, sep) == sep
    ensures ApplyCasing(casing, Normalize(name, sep, casing)) == Normalize(name, sep, casing)
  {
    var y := Normalize(name, sep, casing);
    if casing == Upper {
      assert All(sep, NotLower) by {
        forall i | 0 <= i < |sep| ensures NotLower(sep[i]) {
          assert sep[i] == UpperCase(sep)[i];
        }
      }
      NormalizeUpper(name, sep);
    } else if casing == Lower {
      assert All(sep, NotUpper) by {
        forall i | 0 <= i < |sep| ensures NotUpper(sep[i]) {
          assert sep[i] == LowerCase(sep)[i];
        }
      }
      NormalizeLower(name, sep);
    }
    CasingFixed(casing, y);
  }

  /**
   * normalizeName is idempotent for the upper, lower and unchanged casings,
   * provided the separator is literal, holds no white space or only white
   * space, and the casing leaves it unchanged.
   */
  lemma NormalizeIdempotent(name: string, sep: string, casing: Casing)
    requires casing != Title
    requires Literal(sep)
    requires All(sep, NotSpace) || All(sep, IsSpace)
    requires ApplyCasing(casing, sep) == sep
    ensures Normalize(Normalize(name, sep, casing), sep, casing) == Normalize(name, sep, casing)
  {
    var c := ApplyCasing(casing, Trim(name));
    var y := Normalize(name, sep, casing);
    ReplaceLiteral(c, sep, 0);
    assert c[0..] == c;
    assert y == CollapseFrom(c, sep, false);
    NormalizeTrimmed(name, sep, casing);
    TrimTrimmed(y);
    assert Trim(y) == y;
    NormalizeCased(name, sep, casing);
    assert ApplyCasing(casing, y) == y;
    CollapseFromIdempotent(c, sep, false);
    ReplaceLiteral(y, sep, 0);
    assert y[0..] == y;
    assert Replace(y, sep) == y;
  }

  /** Upper, lower and unchanged casing work character by character, so they distribute over concatenation. */
  lemma CasingConcat(casing: Casing, a: string, b: string)
    requires casing != Title
    ensures ApplyCasing(casing, a + b) == ApplyCasing(casing, a) + ApplyCasing(casing, b)
  {
  }

  /** Two words joined by a space normalise to the cased words joined by a literal separator. */
  lemma NormalizeTwoWords(w1: string, w2: string, sep: string, casing: Casing)
    requires casing != Title && Literal(sep)
    requires w1 != [] && w2 != [] && All(w1, NotSpace) && All(w2, NotSpace)
    ensures Normalize(w1 + " " + w2, sep, casing) == ApplyCasing(casing, w1) + sep + ApplyCasing(casing, w2)
  {
    var s := w1 + " " + w2;
    assert NotSpace(s[0]) && NotSpace(s[|s| - 1]) by {
      assert s[0] == w1[0] && s[|s| - 1] == w2[|w2| - 1];
      assert NotSpace(w1[0]) && NotSpace(w2[|w2| - 1]);
    }
    TrimTrimmed(s);
    var c1, c2 := ApplyCasing(casing, w1), ApplyCasing(casing, w2);
    CasingConcat(casing, w1 + " ", w2);
    CasingConcat(casing, w1, " ");
    assert ApplyCasing(casing, " ") == " ";
    assert All(c1, NotSpace) by {
      forall i | 0 <= i < |c1| ensures NotSpace(c1[i]) { assert NotSpace(w1[i]); }
    }
    assert All(c2, NotSpace) by {
      forall i | 0 <= i < |c2| ensures NotSpace(c2[i]) { assert NotSpace(w2[i]); }
    }
    CollapseJoin(c1, c2, sep, false);
    var c := ApplyCasing(casing, s);
    ReplaceLiteral(c, sep, 0);
    assert c[0..] == c;
  }

  // ---------------------------------------------------------------------
  // Where idempotence fails

  /**
   * Title casing is not idempotent with "_": after the first pass the words
   * are joined by a word character, so `\b\w` sees a single word.
   */
  lemma TitleNotIdempotent()
    ensures Normalize("A B", "_", Title) == "A_B"
    ensures Normalize("A_B", "_", Title) == "A_b"
  {
    TitleFirstPass();
    TitleSecondPass();
  }

  lemma TitleFirstPass()
    ensures Normalize("A B", "_", Title) == "A_B"
  {
    TrimTrimmed("A B");
    var l := LowerCase("A B");
    assert l == "a b";
    assert StartsWord(l, 0) && !StartsWord(l, 1) && StartsWord(l, 2);
    assert TitleCase("A B") == "A B";
    assert "A B" == "A" + " " + "B";
    assert All("A", NotSpace) && All("B", NotSpace);
    CollapseJoin("A", "B", "_", false);
    ReplaceLiteral("A B", "_", 0);
    assert "A B"[0..] == "A B";
  }

  lemma TitleSecondPass()
    ensures Normalize("A_B", "_", Title) == "A_b"
  {
    TrimTrimmed("A_B");
    var l := LowerCase("A_B");
    assert l == "a_b";
    assert StartsWord(l, 0) && !StartsWord(l, 1) && !StartsWord(l, 2);
    assert TitleCase("A_B") == "A_b";
    assert All("A_b", NotSpace);
    CollapseSpaceless("A_b", "_", false);
    ReplaceLiteral("A_b", "_", 0);
    assert "A_b"[0..] == "A_b";
  }

  /**
   * With a separator that is not a word character, such as "-", title casing
   * keeps the word starts: the second pass changes nothing.
   */
  lemma TitleHyphenKept()
    ensures Normalize("A B", "-", Title) == "A-B"
    ensures Normalize("A-B", "-", Title) == "A-B"
  {
    TitleHyphenFirstPass();
    TitleHyphenSecondPass();
  }

  lemma TitleHyphenFirstPass()
    ensures Normalize("A B", "-", Title) == "A-B"
  {
    TrimTrimmed("A B");
    var l := LowerCase("A B");
    assert l == "a b";
    assert StartsWord(l, 0) && !StartsWord(l, 1) && StartsWord(l, 2);
    assert TitleCase("A B") == "A B";
    assert "A B" == "A" + " " + "B";
    assert All("A", NotSpace) && All("B", NotSpace);
    CollapseJoin("A", "B", "-", false);
    ReplaceLiteral("A B", "-", 0);
    assert "A B"[0..] == "A B";
  }

  lemma TitleHyphenSecondPass()
    ensures Normalize("A-B", "-", Title) == "A-B"
  {
    TrimTrimmed("A-B");
    var l := LowerCase("A-B");
    assert l == "a-b";
    assert StartsWord(l, 0) && !StartsWord(l, 1) && StartsWord(l, 2);
    assert TitleCase("A-B") == "A-B";
    assert All("A-B", NotSpace);
    CollapseSpaceless("A-B", "-", false);
    ReplaceLiteral("A-B", "-", 0);
    assert "A-B"[0..] == "A-B";
  }

  /** A separator the casing would change is changed on the second pass. */
  lemma CasedSeparatorNotIdempotent()
    ensures Normalize("A B", "x", Upper) == "AxB"
    ensures Normalize("AxB", "x", Upper) == "AXB"
  {
    CasedSeparatorFirstPass();
    CasedSeparatorSecondPass();
  }

  lemma CasedSeparatorFirstPass()
    ensures Normalize("A B", "x", Upper) == "AxB"
  {
    assert "A B" == "A" + " " + "B";
    assert NotSpace('A') && NotSpace('B');
    NormalizeTwoWords("A", "B", "x", Upper);
    assert All("A", NotLower) && All("B", NotLower);
    CasingFixed(Upper, "A");
    CasingFixed(Upper, "B");
  }

  lemma CasedSeparatorSecondPass()
    ensures Normalize("AxB", "x", Upper) == "AXB"
  {
    TrimTrimmed("AxB");
    assert UpperCase("AxB") == "AXB";
    assert NotSpace('A') && NotSpace('X') && NotSpace('B');
    CollapseSpaceless("AXB", "x", false);
    ReplaceLiteral("AXB", "x", 0);
    assert "AXB"[0..] == "AXB";
  }

  /** A separator mixing white space and other characters has its own white space replaced by itself. */
  lemma MixedSeparatorNotIdempotent()
    ensures Normalize("A B", " - ", AsIs) == "A - B"
    ensures Normalize("A - B", " - ", AsIs) == "A - - - B"
  {
    assert "A B" == "A" + " " + "B";
    assert NotSpace('A') && NotSpace('B');
    NormalizeTwoWords("A", "B", " - ", AsIs);
    MixedSeparatorSecondPass();
  }

  lemma MixedSeparatorSecondPass()
    ensures Normalize("A - B", " - ", AsIs) == "A - - - B"
  {
    TrimTrimmed("A - B");
    MixedReplace();
  }

  lemma MixedReplace()
    ensures Replace("A - B", " - ") == "A - - - B"
  {
    var s, sep := "A - B", " - ";
    MixedReplaceTail();
    assert RunEnd(s, 1) == 2;
    ExpandLiteral(sep, s[1..2], s[..1], s[2..]);
    assert ReplaceFrom(s, sep, 1) == sep + "-" + sep + "B";
  }

  lemma MixedReplaceTail()
    ensures ReplaceFrom("A - B", " - ", 2) == "- - B"
  {
    var s, sep := "A - B", " - ";
    assert ReplaceFrom(s, sep, 4) == "B";
    assert RunEnd(s, 3) == 4;
    ExpandLiteral(sep, s[3..4], s[..3], s[4..]);
    assert ReplaceFrom(s, sep, 3) == sep + "B";
  }

  // ---------------------------------------------------------------------
  // Separators holding replacement patterns

  /** "$$" in the separator inserts a single '$'. */
  lemma DollarSeparator()
    ensures Normalize("A B", "$$", AsIs) == "A$B"
  {
    var s, sep := "A B", "$$";
    TrimTrimmed(s);
    assert ReplaceFrom(s, sep, 2) == "B";
    assert RunEnd(s, 1) == 2;
    assert Expand(sep, s[1..2], s[..1], s[2..]) == "$";
    assert ReplaceFrom(s, sep, 1) == "$B";
  }

  /**
   * "$&" in the separator re-inserts the white space it replaces, so the name
   * keeps white space and a second pass inserts the separator again.
   */
  lemma MatchSeparatorNotIdempotent()
    ensures Normalize("A B", "x$&", AsIs) == "Ax B"
    ensures Normalize("Ax B", "x$&", AsIs) == "Axx B"
  {
    MatchSeparatorFirstPass();
    MatchSeparatorSecondPass();
  }

  lemma MatchSeparatorFirstPass()
    ensures Normalize("A B", "x$&", AsIs) == "Ax B"
  {
    var s, sep := "A B", "x$&";
    TrimTrimmed(s);
    assert ReplaceFrom(s, sep, 2) == "B";
    assert RunEnd(s, 1) == 2;
    assert Expand(sep[1..], s[1..2], s[..1], s[2..]) == " ";
    assert Expand(sep, s[1..2], s[..1], s[2..]) == "x ";
    assert ReplaceFrom(s, sep, 1) == "x B";
  }

  lemma MatchSeparatorSecondPass()
    ensures Normalize("Ax B", "x$&", AsIs) == "Axx B"
  {
    var s, sep := "Ax B", "x$&";
    TrimTrimmed(s);
    assert ReplaceFrom(s, sep, 3) == "B";
    assert RunEnd(s, 2) == 3;
    assert Expand(sep[1..], s[2..3], s[..2], s[3..]) == " ";
    assert Expand(sep, s[2..3], s[..2], s[3..]) == "x ";
    assert ReplaceFrom(s, sep, 2) == "x B";
    assert ReplaceFrom(s, sep, 1) == "xx B";
  }
  /**
   * "$`" in the separator inserts the text before the match, which holds
   * white space once the name has two runs; a second pass changes the name again.
   */
  lemma PrefixSeparatorNotIdempotent()
    ensures Normalize("A B C", "$`", AsIs) == "AABA BC"
    ensures Normalize("AABA BC", "$`", AsIs) == "AABAAABABC"
  {
    PrefixSeparatorFirstPass();
    PrefixSeparatorSecondPass();
  }

  lemma PrefixSeparatorFirstPass()
    ensures Normalize("A B C", "$`", AsIs) == "AABA BC"
  {
    var s, sep := "A B C", "$`";
    TrimTrimmed(s);
    PrefixReplaceTail();
    assert RunEnd(s, 1) == 2;
    assert Expand(sep, s[1..2], s[..1], s[2..]) == "A";
    assert ReplaceFrom(s, sep, 1) == "ABA BC";
  }

  lemma PrefixReplaceTail()
    ensures ReplaceFrom("A B C", "$`", 2) == "BA BC"
  {
    var s, sep := "A B C", "$`";
    assert ReplaceFrom(s, sep, 4) == "C";
    assert RunEnd(s, 3) == 4;
    assert Expand(sep, s[3..4], s[..3], s[4..]) == "A B";
    assert ReplaceFrom(s, sep, 3) == "A BC";
  }

  lemma PrefixSeparatorSecondPass()
    ensures Normalize("AABA BC", "$`", AsIs) == "AABAAABABC"
  {
    var s, sep := "AABA BC", "$`";
    TrimTrimmed(s);
    assert ReplaceFrom(s, sep, 6) == "C";
    assert ReplaceFrom(s, sep, 5) == "BC";
    assert RunEnd(s, 4) == 5;
    assert Expand(sep, s[4..5], s[..4], s[5..]) == "AABA";
    assert ReplaceFrom(s, sep, 4) == "AABABC";
  }

  /** "$'" in the separator inserts the text after the match, white space included. */
  lemma SuffixSeparator()
    ensures Normalize("A B C", "$'", AsIs) == "AB CBCC"
  {
    var s, sep := "A B C", "$'";
    TrimTrimmed(s);
    assert ReplaceFrom(s, sep, 4) == "C";
    assert RunEnd(s, 3) == 4;
    assert Expand(sep, s[3..4], s[..3], s[4..]) == "C";
    assert ReplaceFrom(s, sep, 2) == "BCC";
    assert RunEnd(s, 1) == 2;
    assert Expand(sep, s[1..2], s[..1], s[2..]) == "B C";
    assert ReplaceFrom(s, sep, 1) == "B CBCC";
  }
}
