/**
 * The seeded random source of the generator: the string hash xmur3, the
 * 32-bit generator mulberry32 and the closure seededRng builds from them.
 *
 * Every JavaScript step of these two generators is `Math.imul`, a shift,
 * an `|`, an `^` or `>>> 0` on 32-bit patterns, so the state is a `bv32`
 * and `*`, `+`, `^`, `|`, `<<`, `>>` are the bit-vector operators (all
 * modulo 2^32). An output `u` stands for the float `u / 2^32`, which lies in
 * [0, 1) because `u < 2^32`.
 */
module Prng {

  /** The UTF-16 code unit `charCodeAt` reads, for a character of the basic plane. */
  function CodeUnit(c: char): bv32 {
    (c as int) as bv32
  }

  /** xmur3's state after one character: multiply, then rotate left by 13. */
  function Absorb(h: bv32, c: char): bv32 {
    var m := (h ^ CodeUnit(c)) * 3432918353;
    (m << 13) | (m >> 19)
  }

  /** xmur3's state after absorbing every character of `s`, left to right. */
  function AbsorbAll(h: bv32, s: string): bv32
    decreases |s|
  {
    if s == [] then h else AbsorbAll(Absorb(h, s[0]), s[1..])
  }

  /** The state xmur3(str) holds before its first call; `str.length ^` truncates the length to 32 bits. */
  function SeedState(str: string): bv32 {
    AbsorbAll(1779033703 ^ ((|str| % 0x1_0000_0000) as bv32), str)
  }

  /** One call of the function xmur3 returns: the new state, which is also the output. */
  function Avalanche(h: bv32): bv32 {
    var h1 := (h ^ (h >> 16)) * 2246822507;
    var h2 := (h1 ^ (h1 >> 13)) * 3266489909;
    h2 ^ (h2 >> 16)
  }

  /** The 32-bit seed seededRng feeds to mulberry32: the first output of xmur3(seed). */
  function SeedOf(seed: string): bv32 {
    Avalanche(SeedState(seed))
  }

  /** mulberry32's output for the already advanced counter `t`, before the division by 2^32. */
  function Temper(t0: bv32): bv32 {
    var t1 := (t0 ^ (t0 >> 15)) * (t0 | 1);
    var t2 := t1 ^ (t1 + (t1 ^ (t1 >> 7)) * (t1 | 61));
    t2 ^ (t2 >> 14)
  }

  /** mulberry32's counter after `n` calls started at counter `a`; every call advances it by 0x6D2B79F5. */
  function Skip(a: bv32, n: nat): bv32
    decreases n
  {
    if n == 0 then a else Skip(a + 0x6D2B79F5, n - 1)
  }

  /** The first `n` outputs of mulberry32 started at counter `a`: call `i` tempers the counter after `i + 1` steps. */
  function MulberryStream(a: bv32, n: nat): (r: seq<bv32>)
    ensures |r| == n
  {
    seq(n, i requires 0 <= i < n => Temper(Skip(a, i + 1)))
  }

  /** The first `n` outputs of the generator seededRng builds from a non-empty seed. */
  function SeededStream(seed: string, n: nat): (r: seq<bv32>)
    ensures |r| == n
  {
    MulberryStream(SeedOf(seed), n)
  }

  /** The outputs `k .. k + n - 1` of the system generator, which gives `entropy(i)` on its i-th call. */
  function SystemStream(entropy: nat -> bv32, k: nat, n: nat): (r: seq<bv32>)
    ensures |r| == n
  {
    seq(n, i requires 0 <= i < n => entropy(k + i))
  }

  /** One more call adds one counter step. */
  lemma {:induction false} SkipSnoc(a: bv32, n: nat)
    ensures Skip(a, n + 1) == Skip(a, n) + 0x6D2B79F5
    decreases n
  {
    if n > 0 {
      SkipSnoc(a + 0x6D2B79F5, n - 1);
    }
  }

  /** Calls of mulberry32 add up: `m` calls then `n` calls are `m + n` calls. */
  lemma {:induction false} SkipAdd(a: bv32, m: nat, n: nat)
    ensures Skip(Skip(a, m), n) == Skip(a, m + n)
    decreases m
  {
    if m > 0 {
      SkipAdd(a + 0x6D2B79F5, m - 1, n);
    }
  }

  /** SkipAdd with the total given as its own argument. */
  lemma SkipSum(a: bv32, m: nat, n: nat, sum: nat)
    requires sum == m + n
    ensures Skip(Skip(a, m), n) == Skip(a, sum)
  {
    SkipAdd(a, m, n);
  }

  /** One more call, from the counter after `n` calls, appends its output to the first `n`. */
  lemma MulberryStreamSnoc(a: bv32, n: nat, out: seq<bv32>, c: bv32, u: bv32)
    requires out == MulberryStream(a, n)
    requires c == Skip(a, n) + 0x6D2B79F5 && u == Temper(c)
    ensures c == Skip(a, n + 1)
    ensures out + [u] == MulberryStream(a, n + 1)
  {
    SkipSnoc(a, n);
    var r := MulberryStream(a, n + 1);
    assert r[n] == u;
    assert forall j :: 0 <= j < n ==> r[j] == out[j];
  }

  /** The generator xmur3(str) returns; `h` is the state its closure captures. */
  class Xmur3 {
    var h: bv32

    /** Runs the hashing loop over `str`. */
    constructor (str: string)
      ensures h == SeedState(str)
    {
      var s := 1779033703 ^ ((|str| % 0x1_0000_0000) as bv32);
      var i := 0;
      while i < |str|
        invariant 0 <= i <= |str|
        invariant AbsorbAll(s, str[i..]) == SeedState(str)
      {
        assert str[i..][1..] == str[i + 1..];
        s := Absorb(s, str[i]);
        i := i + 1;
      }
      h := s;
    }

    method Next() returns (r: bv32)
      modifies this
      ensures h == Avalanche(old(h)) && r == h
    {
      h := Avalanche(h);
      r := h;
    }
  }

  /** The generator mulberry32(a) returns; `a` is the counter its closure captures. */
  class Mulberry32 {
    var a: bv32

    constructor (seed: bv32)
      ensures a == seed
    {
      a := seed;
    }

    /** One call: advance the counter, temper it; the result stands for `u / 2^32`. */
    method Next() returns (u: bv32)
      modifies this
      ensures a == old(a) + 0x6D2B79F5 && u == Temper(a)
    {
      a := a + 0x6D2B79F5;
      u := Temper(a);
    }

    /** `n` calls in a row yield the first `n` outputs of the stream from the current counter. */
    method Take(n: nat) returns (out: seq<bv32>)
      modifies this
      ensures out == MulberryStream(old(a), n)
      ensures a == Skip(old(a), n)
    {
      out := [];
      var i := 0;
      while i < n
        invariant 0 <= i <= n
        invariant a == Skip(old(a), i)
        invariant out == MulberryStream(old(a), i)
      {
        var u := Next();
        MulberryStreamSnoc(old(a), i, out, a, u);
        out := out + [u];
        i := i + 1;
      }
    }
  }

  /**
   * The random function seededRng(seed) returns. With a non-empty seed it is
   * a mulberry32 generator seeded by xmur3; with the empty seed it is the
   * system generator `Math.random`, whose outputs come from outside: its
   * i-th call gives `entropy(i)`.
   */
  class Rng {
    const gen: Mulberry32?
    const entropy: nat -> bv32
    var drawn: nat

    constructor (seed: string, entropy: nat -> bv32)
      ensures this.entropy == entropy && drawn == 0
      ensures gen == null <==> seed == []
      ensures gen != null ==> fresh(gen) && gen.a == SeedOf(seed)
    {
      this.entropy := entropy;
      drawn := 0;
      if seed == [] {
        gen := null;
      } else {
        var hash := new Xmur3(seed);
        var h := hash.Next();
        gen := new Mulberry32(h);
      }
    }

    method Next() returns (u: bv32)
      modifies this, gen
      ensures gen != null ==> gen.a == old(gen.a) + 0x6D2B79F5 && u == Temper(gen.a)
      ensures gen == null ==> u == entropy(old(drawn))
      ensures drawn == if gen == null then old(drawn) + 1 else old(drawn)
    {
      if gen != null {
        u := gen.Next();
      } else {
        u := entropy(drawn);
        drawn := drawn + 1;
      }
    }

    /** `n` calls in a row. */
    method Take(n: nat) returns (out: seq<bv32>)
      modifies this, gen
      ensures gen != null ==> out == MulberryStream(old(gen.a), n) && gen.a == Skip(old(gen.a), n)
      ensures gen == null ==> out == SystemStream(entropy, old(drawn), n)
      ensures drawn == if gen == null then old(drawn) + n else old(drawn)
    {
      if gen != null {
        out := gen.Take(n);
        return;
      }
      out := [];
      var i := 0;
      while i < n
        invariant 0 <= i <= n
        invariant out == SystemStream(entropy, old(drawn), i)
        invariant drawn == old(drawn) + i
      {
        var u := Next();
        out := out + [u];
        i := i + 1;
      }
    }
  }

  /**
   * Two random sources built from the same non-empty seed give the same
   * outputs, whatever the system generator would have given: the stream is a
   * function of the seed alone.
   */
  method SameSeedSameStream(seed: string, n: nat, entropy1: nat -> bv32, entropy2: nat -> bv32)
    returns (first: seq<bv32>, second: seq<bv32>)
    requires seed != []
    ensures first == second
    ensures first == SeededStream(seed, n)
  {
    var r1 := new Rng(seed, entropy1);
    var r2 := new Rng(seed, entropy2);
    first := r1.Take(n);
    second := r2.Take(n);
  }
}
