/**
 * The requested count: `parseInt(countEl.value || "1", 10)` clamped to
 * [1, 1000], and the decimal rendering of numbers in the shortfall line.
 * `parseInt` returns NaN when no digit follows the optional sign; NaN is
 * `None` here, and it survives the clamp (`Math.min` and `Math.max` of NaN
 * are NaN).
 */
module Counts {
  import opened Wrappers
  import opened Text

  predicate IsDigit(c: char) { '0' <= c <= '9' }

  function DigitValue(c: char): nat
    requires IsDigit(c)
  {
    c as int - '0' as int
  }

  function DigitChar(d: nat): (c: char)
    requires d < 10
    ensures IsDigit(c) && DigitValue(c) == d
  {
    ('0' as int + d) as char
  }

  /** The length of the run of decimal digits `s` starts with. */
  function DigitRun(s: string): (k: nat)
    ensures k <= |s|
    ensures forall i :: 0 <= i < k ==> IsDigit(s[i])
    ensures k == |s| || !IsDigit(s[k])
  {
    if s != [] && IsDigit(s[0]) then 1 + DigitRun(s[1..]) else 0
  }

  /** The number a string of decimal digits denotes, most significant digit first. */
  function Value(ds: string): nat
    requires forall i :: 0 <= i < |ds| ==> IsDigit(ds[i])
  {
    if ds == [] then 0 else Value(ds[..|ds| - 1]) * 10 + DigitValue(ds[|ds| - 1])
  }

  /** The number the leading digits of `body` denote, or nothing when it does not start with a digit. */
  function LeadingNumber(body: string): (r: Option<nat>)
    ensures r.None? <==> body == [] || !IsDigit(body[0])
  {
    var k := DigitRun(body);
    if k == 0 then None else Some(Value(body[..k]))
  }

  /** An optional sign, then the leading number, negated after a '-'. */
  function Signed(t: string): Option<int> {
    if t != [] && t[0] == '-' then
      match LeadingNumber(t[1..])
      case None => None
      case Some(v) => Some(-(v as int))
    else if t != [] && t[0] == '+' then
      match LeadingNumber(t[1..])
      case None => None
      case Some(v) => Some(v)
    else
      match LeadingNumber(t)
      case None => None
      case Some(v) => Some(v)
  }

  /**
   * `parseInt(s, 10)`: leading white space is skipped, then an optional sign,
   * then the longest run of digits; whatever follows is ignored. No digit
   * means NaN.
   */
  function ParseInt(s: string): Option<int> {
    Signed(TrimStart(s))
  }

  /** `Math.max(1, Math.min(1000, n))`. */
  function Clamp(n: int): (r: int)
    ensures 1 <= r <= 1000
    ensures 1 <= n <= 1000 ==> r == n
    ensures n < 1 ==> r == 1
    ensures n > 1000 ==> r == 1000
  {
    if n < 1 then 1 else if n > 1000 then 1000 else n
  }

  /** The count the generate handler works with, from the text of the count field; `None` is NaN. */
  function CountOf(field: string): (r: Option<nat>)
    ensures r.Some? ==> 1 <= r.value <= 1000
  {
    match ParseInt(if field == [] then "1" else field)
    case None => None
    case Some(n) => Some(Clamp(n))
  }

  /** How a JavaScript number prints when it is a non-negative integer. */
  function Decimal(n: nat): (s: string)
    ensures s != [] && forall i :: 0 <= i < |s| ==> IsDigit(s[i])
  {
    if n < 10 then [DigitChar(n)] else Decimal(n / 10) + [DigitChar(n % 10)]
  }

  /** The line appended when fewer than `count` names were accepted. */
  function ShortfallLine(got: nat, count: nat): string {
    "// Only generated " + Decimal(got) + "/" + Decimal(count) + " before exhausting unique combos or hitting blacklist."
  }

  // ---------------------------------------------------------------------
  // Reading back what was printed

  /** The digits of `n` denote `n`. */
  lemma {:induction false} ValueDecimal(n: nat)
    ensures Value(Decimal(n)) == n
    decreases n
  {
    var s := Decimal(n);
    if n >= 10 {
      ValueDecimal(n / 10);
      assert s[..|s| - 1] == Decimal(n / 10);
    }
  }

  /** A run of digits followed by a non-digit is counted in full. */
  lemma {:induction false} DigitRunPrefix(ds: string, rest: string)
    requires forall i :: 0 <= i < |ds| ==> IsDigit(ds[i])
    requires rest == [] || !IsDigit(rest[0])
    ensures DigitRun(ds + rest) == |ds|
    decreases |ds|
  {
    if ds != [] {
      assert (ds + rest)[0] == ds[0];
      assert (ds + rest)[1..] == ds[1..] + rest;
      DigitRunPrefix(ds[1..], rest);
    } else {
      assert ds + rest == rest;
    }
  }

  /** Skipping leading white space stops at the first other character. */
  lemma {:induction false} TrimStartSkips(pre: string, t: string)
    requires All(pre, IsSpace)
    requires t == [] || !IsSpace(t[0])
    ensures TrimStart(pre + t) == t
    decreases |pre|
  {
    if pre == [] {
      assert pre + t == t;
    } else {
      assert (pre + t)[0] == pre[0];
      assert (pre + t)[1..] == pre[1..] + t;
      TrimStartSkips(pre[1..], t);
    }
  }

  /** The leading number of digits followed by a non-digit is the number they denote. */
  lemma LeadingDecimal(n: nat, post: string)
    requires post == [] || !IsDigit(post[0])
    ensures LeadingNumber(Decimal(n) + post) == Some(n)
  {
    var d := Decimal(n);
    DigitRunPrefix(d, post);
    assert (d + post)[..|d|] == d;
    ValueDecimal(n);
  }

  /** After a sign, or none, the leading number is read with that sign. */
  lemma SignedDecimal(sign: string, n: nat, post: string)
    requires sign == [] || sign == "+" || sign == "-"
    requires post == [] || !IsDigit(post[0])
    ensures Signed(sign + (Decimal(n) + post)) == Some(if sign == "-" then -(n as int) else n as int)
  {
    var t := sign + (Decimal(n) + post);
    LeadingDecimal(n, post);
    if sign == [] {
      assert t == Decimal(n) + post;
      assert IsDigit(t[0]);
    } else {
      assert t[1..] == Decimal(n) + post;
    }
  }

  /** `parseInt` skips leading white space. */
  lemma ParseIntSkips(pre: string, t: string)
    requires All(pre, IsSpace)
    requires t == [] || !IsSpace(t[0])
    ensures ParseInt(pre + t) == Signed(t)
  {
    TrimStartSkips(pre, t);
  }

  /**
   * `parseInt` reads back the decimal rendering of any natural number, after
   * any leading white space, with or without a sign, and whatever
   * non-digit text follows it.
   */
  lemma ParseIntDecimal(pre: string, sign: string, n: nat, post: string)
    requires All(pre, IsSpace)
    requires sign == [] || sign == "+" || sign == "-"
    requires post == [] || !IsDigit(post[0])
    ensures ParseInt(pre + sign + Decimal(n) + post) == Some(if sign == "-" then -(n as int) else n as int)
  {
    var d := Decimal(n);
    var t := sign + (d + post);
    assert pre + sign + d + post == pre + t;
    assert t[0] == (if sign == [] then d[0] else sign[0]);
    ParseIntSkips(pre, t);
    SignedDecimal(sign, n, post);
  }

  /** Text with no digit after the optional sign is NaN. */
  lemma ParseIntNaN(pre: string, sign: string, post: string)
    requires All(pre, IsSpace)
    requires sign == [] || sign == "+" || sign == "-"
    requires post == [] || (!IsDigit(post[0]) && (sign == [] ==> !IsSpace(post[0]) && post[0] != '+' && post[0] != '-'))
    ensures ParseInt(pre + sign + post) == None
  {
    var t := sign + post;
    assert pre + sign + post == pre + t;
    assert t == [] || !IsSpace(t[0]) by {
      if sign != [] {
        assert t[0] == sign[0];
      }
    }
    ParseIntSkips(pre, t);
    if sign != [] {
      assert t[1..] == post;
    } else {
      assert t == post;
    }
  }

  /** An empty count field counts as 1. */
  lemma CountOfEmpty()
    ensures CountOf([]) == Some(1)
  {
    assert Decimal(1) == "1";
    SignedDecimal([], 1, []);
    ParseIntSkips([], "1");
  }

  /** A count field holding a number from 1 to 1000 gives that number. */
  lemma CountOfInRange(n: nat)
    requires 1 <= n <= 1000
    ensures CountOf(Decimal(n)) == Some(n)
  {
    CountOfNumber(n);
  }

  /** A count field holding a larger number gives 1000. */
  lemma CountOfAbove(n: nat)
    requires n > 1000
    ensures CountOf(Decimal(n)) == Some(1000)
  {
    CountOfNumber(n);
  }

  lemma CountOfNumber(n: nat)
    ensures CountOf(Decimal(n)) == Some(Clamp(n))
  {
    SignedDecimal([], n, []);
    assert [] + (Decimal(n) + []) == Decimal(n);
    ParseIntSkips([], Decimal(n));
    assert [] + Decimal(n) == Decimal(n);
  }

  /** A count field holding a negative number gives 1. */
  lemma CountOfNegative(n: nat)
    ensures CountOf("-" + Decimal(n)) == Some(1)
  {
    SignedDecimal("-", n, []);
    assert "-" + (Decimal(n) + []) == "-" + Decimal(n);
    ParseIntSkips([], "-" + Decimal(n));
    assert [] + ("-" + Decimal(n)) == "-" + Decimal(n);
  }
}
