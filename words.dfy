/**
 * Multi-line text as the generator reads it: the word lists (one entry per
 * line, trimmed, blanks dropped, upper-cased) and the blacklist (one name per
 * line, normalised like a generated name).
 */
module Words {
  import opened Text

  /** Where the first '\n' of `s` is, or |s| when there is none. */
  function NewlineIndex(s: string): (i: nat)
    ensures i <= |s|
    ensures i < |s| ==> s[i] == '\n'
    ensures forall k :: 0 <= k < i ==> s[k] != '\n'
  {
    if s == [] || s[0] == '\n' then 0 else 1 + NewlineIndex(s[1..])
  }

  /** A line ended by "\r\n" loses its '\r'. */
  function DropCR(p: string): string {
    if p != [] && p[|p| - 1] == '\r' then p[..|p| - 1] else p
  }

  /** `text.split(/\r?\n/)`: the pieces between line breaks; there is always at least one. */
  function Lines(text: string): (lines: seq<string>)
    ensures |lines| > 0
    decreases |text|
  {
    var i := NewlineIndex(text);
    if i == |text| then [text] else [DropCR(text[..i])] + Lines(text[i + 1..])
  }

  /** Lines written out again, each followed by `eol` except the last. */
  function Join(lines: seq<string>, eol: string): string {
    if lines == [] then []
    else if |lines| == 1 then lines[0]
    else lines[0] + eol + Join(lines[1..], eol)
  }

  /** What a word list keeps of one line: empty for a blank line, else the trimmed line upper-cased. */
  function Entry(line: string): string {
    UpperCase(Trim(line))
  }

  /**
   * `.map(s => s.trim()).filter(Boolean).map(s => s.toUpperCase())` over the
   * lines: every entry is non-empty, has no white space at either end and no
   * lower-case letter.
   */
  function WordsOf(lines: seq<string>): (words: seq<string>)
    ensures |words| <= |lines|
    ensures forall i :: 0 <= i < |words| ==> IsWord(words[i])
  {
    if lines == [] then []
    else if Trim(lines[0]) == [] then WordsOf(lines[1..])
    else
      var rest := WordsOf(lines[1..]);
      EntryShape(lines[0]);
      [Entry(lines[0])] + rest
  }

  /** What every word-list entry is: non-empty, trimmed and free of lower-case letters. */
  predicate IsWord(w: string) {
    w != [] && Trimmed(w) && All(w, NotLower)
  }

  /** The entry of a non-blank line is a word. */
  lemma EntryShape(line: string)
    requires Trim(line) != []
    ensures IsWord(Entry(line))
  {
    var t := Trim(line);
    var e := Entry(line);
    TrimShape(line);
    assert e[0] == ToUpper(t[0]);
    assert e[|e| - 1] == ToUpper(t[|t| - 1]);
  }

  /** The word list ensureWordlists builds from the text of adjectives.txt or nouns.txt. */
  function ParseWordList(text: string): (words: seq<string>)
    ensures forall i :: 0 <= i < |words| ==> IsWord(words[i])
  {
    WordsOf(Lines(text))
  }

  /** A string a word list can hold as it is. */
  predicate IsEntry(w: string) {
    w != [] && Trimmed(w) && UpperCase(w) == w && '\n' !in w
  }

  /** `norm` of every non-blank line of `lines`, trimmed, collected from the first line on. */
  function NamesOf(lines: seq<string>, norm: string -> string): set<string>
    decreases |lines|
  {
    if lines == [] then {}
    else
      var last := lines[|lines| - 1];
      NamesOf(lines[..|lines| - 1], norm) + (if Trim(last) != [] then {norm(Trim(last))} else {})
  }

  /** The set buildBlacklistSet returns for the text of the blacklist field. */
  function BlacklistOf(text: string, sep: string, casing: Casing): set<string> {
    NamesOf(Lines(text), t => Normalize(t, sep, casing))
  }

  /** buildBlacklistSet(text, sep, casing): nothing for empty text, else the names of its lines. */
  method BuildBlacklistSet(text: string, sep: string, casing: Casing) returns (names: set<string>)
    ensures names == BlacklistOf(text, sep, casing)
  {
    if text == [] {
      BlacklistOfEmpty(sep, casing);
      return {};
    }
    names := CollectNames(Lines(text), sep, casing);
  }

  /** The loop of buildBlacklistSet: trim each line, skip blank ones, add the normal form of the rest. */
  method CollectNames(lines: seq<string>, sep: string, casing: Casing) returns (names: set<string>)
    ensures names == NamesOf(lines, t => Normalize(t, sep, casing))
  {
    names := {};
    ghost var norm := t => Normalize(t, sep, casing);
    var i := 0;
    while i < |lines|
      invariant 0 <= i <= |lines|
      invariant names == NamesOf(lines[..i], norm)
    {
      NamesOfStep(lines, i, norm);
      var t := Trim(lines[i]);
      if t != [] {
        names := names + {Normalize(t, sep, casing)};
      }
      i := i + 1;
    }
    assert lines[..i] == lines;
  }

  /** Collecting one more line adds its name, unless it is blank. */
  lemma NamesOfStep(lines: seq<string>, i: nat, norm: string -> string)
    requires i < |lines|
    ensures NamesOf(lines[..i + 1], norm) ==
      NamesOf(lines[..i], norm) + (if Trim(lines[i]) != [] then {norm(Trim(lines[i]))} else {})
  {
    assert lines[..i + 1][..i] == lines[..i];
  }

  /** A name is collected exactly when it is the normal form of some non-blank line. */
  lemma {:induction false} NamesOfMember(lines: seq<string>, norm: string -> string, name: string)
    ensures name in NamesOf(lines, norm) <==> exists l :: l in lines && Trim(l) != [] && name == norm(Trim(l))
    decreases |lines|
  {
    if lines != [] {
      var init := lines[..|lines| - 1];
      var last := lines[|lines| - 1];
      NamesOfMember(init, norm, name);
      if name in NamesOf(lines, norm) {
        if name in NamesOf(init, norm) {
          var l :| l in init && Trim(l) != [] && name == norm(Trim(l));
          var k :| 0 <= k < |init| && init[k] == l;
          assert lines[k] == l;
        } else {
          assert last in lines;
        }
      }
      if exists l :: l in lines && Trim(l) != [] && name == norm(Trim(l)) {
        var l :| l in lines && Trim(l) != [] && name == norm(Trim(l));
        var k :| 0 <= k < |lines| && lines[k] == l;
        if k < |lines| - 1 {
          assert init[k] == l;
        }
      }
    }
  }

  // ---------------------------------------------------------------------
  // Lines

  /** The first line break of `a + "\n" + b` is the one after `a`, when `a` has none. */
  lemma {:induction false} NewlineAfter(a: string, b: string)
    requires '\n' !in a
    ensures NewlineIndex(a + "\n" + b) == |a|
    decreases |a|
  {
    if a != [] {
      assert (a + "\n" + b)[0] == a[0];
      assert (a + "\n" + b)[1..] == a[1..] + "\n" + b;
      NewlineAfter(a[1..], b);
    }
  }

  /** A string without line breaks has none to find. */
  lemma {:induction false} NoNewline(a: string)
    requires '\n' !in a
    ensures NewlineIndex(a) == |a|
    decreases |a|
  {
    if a != [] {
      NoNewline(a[1..]);
    }
  }

  /** Text whose first line is `head` splits into that line, without a final '\r', and the lines of the rest. */
  lemma LinesCons(head: string, rest: string)
    requires '\n' !in head
    ensures Lines(head + "\n" + rest) == [DropCR(head)] + Lines(rest)
  {
    var text := head + "\n" + rest;
    NewlineAfter(head, rest);
    assert text[..|head|] == head;
    assert text[|head| + 1..] == rest;
  }

  /** Splitting text joined with "\n" or "\r\n" gives the lines back. */
  lemma {:induction false} LinesJoin(lines: seq<string>, eol: string)
    requires |lines| > 0
    requires eol == "\n" || eol == "\r\n"
    requires forall i :: 0 <= i < |lines| ==> '\n' !in lines[i]
    requires eol == "\n" ==> forall i :: 0 <= i < |lines| - 1 ==> lines[i] == [] || lines[i][|lines[i]| - 1] != '\r'
    ensures Lines(Join(lines, eol)) == lines
    decreases |lines|
  {
    if |lines| == 1 {
      NoNewline(lines[0]);
    } else {
      var head := lines[0] + eol[..|eol| - 1];
      var rest := Join(lines[1..], eol);
      JoinCons(lines, eol);
      LinesCons(head, rest);
      DropCRHead(lines[0], eol);
      LinesJoin(lines[1..], eol);
    }
  }

  /** The line ending after the first of several lines is its '\r', if any, then '\n'. */
  lemma JoinCons(lines: seq<string>, eol: string)
    requires |lines| > 1
    requires eol == "\n" || eol == "\r\n"
    ensures Join(lines, eol) == (lines[0] + eol[..|eol| - 1]) + "\n" + Join(lines[1..], eol)
  {
    var x, j := lines[0], Join(lines[1..], eol);
    if eol == "\n" {
      assert eol[..0] == [] && x + [] == x;
    } else {
      assert eol[..1] == "\r" && eol == "\r" + "\n";
      assert x + ("\r" + "\n") == (x + "\r") + "\n";
    }
  }

  /** The '\r' of a "\r\n" ending is dropped again, and a line without its own '\r' is kept. */
  lemma DropCRHead(line: string, eol: string)
    requires eol == "\n" || eol == "\r\n"
    requires eol == "\n" ==> line == [] || line[|line| - 1] != '\r'
    ensures DropCR(line + eol[..|eol| - 1]) == line
  {
    var head := line + eol[..|eol| - 1];
    if eol == "\r\n" {
      assert head[..|head| - 1] == line;
    } else {
      assert head == line;
    }
  }

  /** The last line of `text + "\n" + last` is `last`, whatever `text` is. */
  lemma {:induction false} LastLine(text: string, last: string)
    requires '\n' !in last
    ensures last in Lines(text + "\n" + last)
    decreases |text|
  {
    var s := text + "\n" + last;
    var i := NewlineIndex(s);
    assert s[|text|] == '\n';
    assert i <= |text|;
    if i == |text| {
      assert s[i + 1..] == last;
      NoNewline(last);
    } else {
      assert s[i + 1..] == text[i + 1..] + "\n" + last;
      LastLine(text[i + 1..], last);
    }
  }

  // ---------------------------------------------------------------------
  // Word lists

  /** A list of entries passes through the filter untouched. */
  lemma {:induction false} WordsOfEntries(words: seq<string>)
    requires forall i :: 0 <= i < |words| ==> IsEntry(words[i])
    ensures WordsOf(words) == words
    decreases |words|
  {
    if words != [] {
      assert IsEntry(words[0]);
      TrimTrimmed(words[0]);
      WordsOfEntries(words[1..]);
    }
  }

  /** Word-list parsing keeps line order: the entries of two blocks of lines are those of the first, then those of the second. */
  lemma {:induction false} WordsOfConcat(a: seq<string>, b: seq<string>)
    ensures WordsOf(a + b) == WordsOf(a) + WordsOf(b)
    decreases |a|
  {
    if a == [] {
      assert a + b == b;
    } else {
      assert (a + b)[0] == a[0];
      assert (a + b)[1..] == a[1..] + b;
      WordsOfConcat(a[1..], b);
    }
  }

  /** One line contributes its entry, or nothing when it is blank. */
  lemma WordsOfLine(line: string)
    ensures WordsOf([line]) == if Trim(line) == [] then [] else [Entry(line)]
  {
    assert [line][1..] == [];
  }

  /**
   * Word-list parsing reads back what writing a list of entries one per line
   * produced, in the same order, with either line ending.
   */
  lemma ParseJoin(words: seq<string>, eol: string)
    requires eol == "\n" || eol == "\r\n"
    requires forall i :: 0 <= i < |words| ==> IsEntry(words[i])
    ensures ParseWordList(Join(words, eol)) == words
  {
    if words == [] {
      assert Lines([]) == [[]];
      assert Trim([]) == [];
    } else {
      forall i | 0 <= i < |words| - 1
        ensures words[i] == [] || words[i][|words[i]| - 1] != '\r'
      {
        assert IsEntry(words[i]);
      }
      LinesJoin(words, eol);
      WordsOfEntries(words);
    }
  }

  // ---------------------------------------------------------------------
  // Blacklist

  /** Empty text blacklists nothing. */
  lemma BlacklistOfEmpty(sep: string, casing: Casing)
    ensures BlacklistOf([], sep, casing) == {}
  {
    assert Lines([]) == [[]];
    assert Lines([])[..0] == [];
    assert Trim([]) == [];
  }

  /**
   * A name is blacklisted exactly when it is the normal form of some
   * non-blank line; trimming the line first makes no difference.
   */
  lemma BlacklistMember(text: string, sep: string, casing: Casing, name: string)
    ensures name in BlacklistOf(text, sep, casing) <==>
      exists l :: l in Lines(text) && Trim(l) != [] && name == Normalize(l, sep, casing)
  {
    NamesOfMember(Lines(text), t => Normalize(t, sep, casing), name);
    forall l | l in Lines(text)
      ensures Normalize(Trim(l), sep, casing) == Normalize(l, sep, casing)
    {
      TrimIdempotent(l);
    }
  }

  /** Adding a line holding `raw` to the blacklist text blacklists the normal form of `raw`. */
  lemma BlacklistBlocks(text: string, raw: string, sep: string, casing: Casing)
    requires '\n' !in raw && Trim(raw) != []
    ensures Normalize(raw, sep, casing) in BlacklistOf(text + "\n" + raw, sep, casing)
  {
    LastLine(text, raw);
    BlacklistMember(text + "\n" + raw, sep, casing, Normalize(raw, sep, casing));
  }

  /**
   * When normalisation is idempotent, pasting a generated name into the
   * blacklist blacklists that very name.
   */
  lemma BlacklistBlocksGenerated(text: string, raw: string, sep: string, casing: Casing)
    requires casing != Title && Literal(sep)
    requires All(sep, NotSpace) || All(sep, IsSpace)
    requires ApplyCasing(casing, sep) == sep
    requires Normalize(raw, sep, casing) != [] && '\n' !in Normalize(raw, sep, casing)
    ensures Normalize(raw, sep, casing) in BlacklistOf(text + "\n" + Normalize(raw, sep, casing), sep, casing)
  {
    var name := Normalize(raw, sep, casing);
    NormalizeTrimmed(raw, sep, casing);
    TrimTrimmed(name);
    BlacklistBlocks(text, name, sep, casing);
    NormalizeIdempotent(raw, sep, casing);
  }

  /** Under title casing with "_", the generated name "A_B" pasted into the blacklist does not blacklist it. */
  lemma TitleBlacklistMisses()
    ensures BlacklistOf("A_B", "_", Title) == {"A_b"}
    ensures "A_B" !in BlacklistOf("A_B", "_", Title)
  {
    NoNewline("A_B");
    assert Lines("A_B") == ["A_B"];
    TrimTrimmed("A_B");
    TitleSecondPass();
    assert "A_B" != "A_b" by { assert "A_B"[2] != "A_b"[2]; }
  }
}
