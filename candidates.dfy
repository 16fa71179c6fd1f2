/**
 * Choosing one raw candidate name: `pick` reads one element of a word list
 * at a random index, `generateOne` joins an adjective and a second word with
 * a space. A random value is the integer `u < 2^32` that stands for the
 * float `u / 2^32` (see module Prng).
 */
module Candidates {
  import opened Wrappers
  import opened Prng

  /** A value of `rng()`, scaled by 2^32. */
  type Draw = u: int | 0 <= u < 0x1_0000_0000

  /** The value `rng()` stands for, from its 32-bit pattern. */
  function ToDraw(u: bv32): Draw {
    u as int
  }

  /**
   * `Math.floor(r * len)` for `r = u / 2^32`: a valid index of a list of
   * length `len`.
   */
  function PickIndex(u: Draw, len: nat): (i: nat)
    requires len > 0
    ensures i < len
  {
    MulLess(u, 0x1_0000_0000, len);
    DivLess(u * len, 0x1_0000_0000, len);
    (u * len) / 0x1_0000_0000
  }

  /**
   * `pick(arr, rng)` given the value `rng()` returned: an element of `arr`,
   * or nothing (`undefined` in the source) when `arr` is empty.
   */
  function Pick(arr: seq<string>, u: Draw): (r: Option<string>)
    ensures r.None? <==> arr == []
    ensures r.Some? ==> r.value in arr
  {
    if arr == [] then None else Some(arr[PickIndex(u, |arr|)])
  }

  /** How a template literal renders a picked value: `undefined` prints as "undefined". */
  function Show(w: Option<string>): string {
    match w
    case None => "undefined"
    case Some(s) => s
  }

  /** The two generation modes; every value of the mode field except "adj-bee" picks a noun. */
  datatype Mode = AdjNoun | AdjBee

  function ModeOf(value: string): Mode {
    if value == "adj-bee" then AdjBee else AdjNoun
  }

  /** How many random values one candidate consumes. */
  function Draws(mode: Mode): nat {
    if mode == AdjBee then 1 else 2
  }

  /** Everything `pick(arr, ...)` can render: the elements of `arr`, or "undefined" when it is empty. */
  function Shown(arr: seq<string>): set<string> {
    if arr == [] then {"undefined"} else set w | w in arr
  }

  /** The words that can follow the adjective. */
  function Seconds(mode: Mode, nouns: seq<string>): set<string> {
    if mode == AdjBee then {"BEE"} else Shown(nouns)
  }

  /** Every raw candidate generateOne can return: an adjective, a space, a second word. */
  function Space(mode: Mode, adjs: seq<string>, nouns: seq<string>): set<string> {
    set a, s | a in Shown(adjs) && s in Seconds(mode, nouns) :: a + " " + s
  }

  /**
   * generateOne(mode, sep, casing, rng) given the values of its calls of
   * `rng()`: `u1` picks the adjective, `u2` the noun (unused in "adj-bee"
   * mode, where the second word is "BEE").
   */
  function Candidate(mode: Mode, adjs: seq<string>, nouns: seq<string>, u1: Draw, u2: Draw): (raw: string)
    ensures raw in Space(mode, adjs, nouns)
    ensures mode == AdjBee ==> raw == Show(Pick(adjs, u1)) + " BEE"
  {
    var adj := Show(Pick(adjs, u1));
    var second := if mode == AdjBee then "BEE" else Show(Pick(nouns, u2));
    assert adj in Shown(adjs) && second in Seconds(mode, nouns);
    adj + " " + second
  }

  /**
   * Every element of a list that fits the 32-bit resolution is picked by
   * some random value: `u = ceil(i * 2^32 / len)` picks index `i`.
   */
  lemma PickIndexReaches(len: nat, i: nat)
    requires 0 < len <= 0x1_0000_0000 && i < len
    ensures exists u: Draw :: PickIndex(u, len) == i
  {
    var K := 0x1_0000_0000;
    var n := i * K + len - 1;
    var w := n / len;
    assert w * len <= n < w * len + len;
    assert (i + 1) * K == i * K + K;
    assert (len - 1) * K == len * K - K;
    MulLessEq(i, len - 1, K);
    LessOfMulLess(w, K, len);
    DivBetween(w * len, i, K);
    assert PickIndex(w, len) == i;
  }

  /** Multiplying by a positive number keeps a strict order. */
  lemma MulLess(a: int, b: int, d: int)
    requires a < b && d > 0
    ensures a * d < b * d
  {
    assert b * d - a * d == (b - a) * d;
  }

  /** Multiplying by a non-negative number keeps an order. */
  lemma MulLessEq(a: int, b: int, d: int)
    requires a <= b && d >= 0
    ensures a * d <= b * d
  {
    assert b * d - a * d == (b - a) * d;
  }

  /** A strict order between multiples of a positive number is an order between the factors. */
  lemma LessOfMulLess(a: int, b: int, d: int)
    requires d > 0 && a * d < b * d
    ensures a < b
  {
    MulNonPos(b - a, d);
    assert (b - a) * d == b * d - a * d;
  }

  lemma MulNonPos(x: int, d: int)
    requires d >= 0
    ensures x <= 0 ==> x * d <= 0
  {
  }

  /** Below `m * d`, the quotient by `d` is below `m`. */
  lemma DivLess(x: nat, d: int, m: int)
    requires d > 0 && x < m * d
    ensures x / d < m
  {
    assert (x / d) * d <= x;
    LessOfMulLess(x / d, m, d);
  }

  /** `q * d <= x < (q + 1) * d` pins the quotient. */
  lemma DivBetween(x: nat, q: nat, d: nat)
    requires d > 0 && q * d <= x < (q + 1) * d
    ensures x / d == q
  {
    var r := x / d;
    assert r * d <= x < r * d + d;
    assert r * d + d == (r + 1) * d;
    LessOfMulLess(r, q + 1, d);
    LessOfMulLess(q, r + 1, d);
  }

  /** `pick` can return every element of a list of up to 2^32 entries. */
  lemma PickReaches(arr: seq<string>, i: nat)
    requires i < |arr| <= 0x1_0000_0000
    ensures exists u: Draw :: Pick(arr, u) == Some(arr[i])
  {
    PickIndexReaches(|arr|, i);
    var u: Draw :| PickIndex(u, |arr|) == i;
    assert Pick(arr, u) == Some(arr[i]);
  }

  /** Every value in `Shown(arr)` is rendered by some random value. */
  lemma ShowReaches(arr: seq<string>, w: string)
    requires |arr| <= 0x1_0000_0000 && w in Shown(arr)
    ensures exists u: Draw :: Show(Pick(arr, u)) == w
  {
    if arr == [] {
      assert Show(Pick(arr, 0)) == w;
    } else {
      var i :| 0 <= i < |arr| && arr[i] == w;
      PickReaches(arr, i);
      var u: Draw :| Pick(arr, u) == Some(arr[i]);
      assert Show(Pick(arr, u)) == w;
    }
  }

  /**
   * generateOne can return every raw candidate of `Space`: no combination of
   * an adjective and a second word is out of reach.
   */
  lemma CandidateReaches(mode: Mode, adjs: seq<string>, nouns: seq<string>, raw: string)
    requires |adjs| <= 0x1_0000_0000 && |nouns| <= 0x1_0000_0000
    requires raw in Space(mode, adjs, nouns)
    ensures exists u1: Draw, u2: Draw :: Candidate(mode, adjs, nouns, u1, u2) == raw
  {
    var a, s :| a in Shown(adjs) && s in Seconds(mode, nouns) && raw == a + " " + s;
    ShowReaches(adjs, a);
    var u1: Draw :| Show(Pick(adjs, u1)) == a;
    if mode == AdjBee {
      assert Candidate(mode, adjs, nouns, u1, 0) == raw;
    } else {
      ShowReaches(nouns, s);
      var u2: Draw :| Show(Pick(nouns, u2)) == s;
      assert Candidate(mode, adjs, nouns, u1, u2) == raw;
    }
  }

  /** The candidate built from the random values one generateOne call consumes, in order. */
  function CandidateOf(mode: Mode, adjs: seq<string>, nouns: seq<string>, us: seq<bv32>): (raw: string)
    requires |us| == Draws(mode)
    ensures raw in Space(mode, adjs, nouns)
  {
    Candidate(mode, adjs, nouns, ToDraw(us[0]), if mode == AdjBee then 0 else ToDraw(us[1]))
  }

  /**
   * generateOne(mode, sep, casing, rng): the adjective takes the next random
   * value, the noun (outside "adj-bee" mode) the one after it, so one call
   * consumes exactly `Draws(mode)` values of the stream.
   */
  method GenerateOne(mode: Mode, adjs: seq<string>, nouns: seq<string>, rng: Rng) returns (raw: string)
    modifies rng, rng.gen
    ensures raw in Space(mode, adjs, nouns)
    ensures rng.gen != null ==>
      raw == CandidateOf(mode, adjs, nouns, MulberryStream(old(rng.gen.a), Draws(mode))) &&
      rng.gen.a == Skip(old(rng.gen.a), Draws(mode)) && rng.drawn == old(rng.drawn)
    ensures rng.gen == null ==>
      raw == CandidateOf(mode, adjs, nouns, SystemStream(rng.entropy, old(rng.drawn), Draws(mode))) &&
      rng.drawn == old(rng.drawn) + Draws(mode)
  {
    var us := rng.Take(Draws(mode));
    var adj := Show(Pick(adjs, ToDraw(us[0])));
    var second := if mode == AdjBee then "BEE" else Show(Pick(nouns, ToDraw(us[1])));
    raw := adj + " " + second;
    assert raw == CandidateOf(mode, adjs, nouns, us);
  }
}
