/**
 * The generator's state and its two state-changing handlers: the generate
 * button (load the word lists once, seed the random source, parse the
 * form, run the uniqueness resolver, append a shortfall line) and the
 * clear-used button.
 */
module Generator {
  import opened Wrappers
  import opened Prng
  import opened Text
  import opened Words
  import opened Candidates
  import opened Counts

  /** Which used-name set the resolver consults: none, the session's, or the persisted one. */
  datatype Scope = NoScope | Session | Global

  /** The value of the uniqueness field; anything but "session" and "global" means no uniqueness. */
  function ScopeOf(value: string): Scope {
    if value == "session" then Session else if value == "global" then Global else NoScope
  }

  /** The elements of a sequence. */
  function Elems(s: seq<string>): set<string> {
    set x | x in s
  }

  predicate Distinct(s: seq<string>) {
    forall i, j :: 0 <= i < j < |s| ==> s[i] != s[j]
  }

  /** Every name the resolver can produce: the normal form of some raw candidate. */
  function NameSpace(mode: Mode, adjs: seq<string>, nouns: seq<string>, sep: string, casing: Casing): set<string> {
    set raw | raw in Space(mode, adjs, nouns) :: Normalize(raw, sep, casing)
  }

  /** `pool` holds the normal form of every raw candidate. */
  predicate Covers(pool: set<string>, mode: Mode, adjs: seq<string>, nouns: seq<string>, sep: string, casing: Casing) {
    forall raw :: raw in Space(mode, adjs, nouns) ==> Normalize(raw, sep, casing) in pool
  }

  /** The name space covers itself. */
  lemma NameSpaceCovers(mode: Mode, adjs: seq<string>, nouns: seq<string>, sep: string, casing: Casing)
    ensures Covers(NameSpace(mode, adjs, nouns, sep, casing), mode, adjs, nouns, sep, casing)
  {
  }

  /** How many random values `attempts` attempts consume. */
  function Consumed(mode: Mode, attempts: nat): nat {
    if mode == AdjBee then attempts else 2 * attempts
  }

  /** One more attempt consumes one more candidate's worth of random values. */
  lemma ConsumedSnoc(mode: Mode, attempts: nat)
    ensures Consumed(mode, attempts + 1) == Consumed(mode, attempts) + Draws(mode)
  {
  }

  /**
   * `raws` are the raw candidates of consecutive attempts on the seeded
   * generator whose counter was `a` before the first: attempt `k` starts
   * after the `Consumed(mode, k)` values the earlier ones took.
   */
  predicate SeededRaws(raws: seq<string>, mode: Mode, adjs: seq<string>, nouns: seq<string>, a: bv32)
    decreases |raws|
  {
    raws == [] ||
    (SeededRaws(raws[..|raws| - 1], mode, adjs, nouns, a) &&
     raws[|raws| - 1] == CandidateOf(mode, adjs, nouns, MulberryStream(Skip(a, Consumed(mode, |raws| - 1)), Draws(mode))))
  }

  /** The same for `Math.random`, whose outcomes from number `start` on the first attempt uses. */
  predicate SystemRaws(raws: seq<string>, mode: Mode, adjs: seq<string>, nouns: seq<string>, entropy: nat -> bv32, start: nat)
    decreases |raws|
  {
    raws == [] ||
    (SystemRaws(raws[..|raws| - 1], mode, adjs, nouns, entropy, start) &&
     raws[|raws| - 1] == CandidateOf(mode, adjs, nouns, SystemStream(entropy, start + Consumed(mode, |raws| - 1), Draws(mode))))
  }

  /** The names the resolver compares: normalizeName of every raw candidate, in order. */
  function Names(raws: seq<string>, sep: string, casing: Casing): (names: seq<string>)
    ensures |names| == |raws|
  {
    seq(|raws|, k requires 0 <= k < |raws| => Normalize(raws[k], sep, casing))
  }

  /** One more raw candidate adds its normal form. */
  lemma NamesSnoc(raws: seq<string>, raw: string, sep: string, casing: Casing)
    ensures Names(raws + [raw], sep, casing) == Names(raws, sep, casing) + [Normalize(raw, sep, casing)]
  {
    var l, r := Names(raws + [raw], sep, casing), Names(raws, sep, casing) + [Normalize(raw, sep, casing)];
    forall k | 0 <= k < |l| ensures l[k] == r[k] {
      if k < |raws| {
        assert (raws + [raw])[k] == raws[k];
      }
    }
  }

  /**
   * The random source `rng` has served the attempts that drew `raws`: from
   * counter `a0` when it is seeded, from system value number `d0` otherwise,
   * and it now stands just after the values those attempts consumed.
   */
  ghost predicate Traced(rng: Rng, raws: seq<string>, mode: Mode, adjs: seq<string>, nouns: seq<string>, a0: bv32, d0: nat)
    reads rng, rng.gen
  {
    if rng.gen != null then
      SeededRaws(raws, mode, adjs, nouns, a0) &&
      rng.gen.a == Skip(a0, Consumed(mode, |raws|)) && rng.drawn == d0
    else
      SystemRaws(raws, mode, adjs, nouns, rng.entropy, d0) &&
      rng.drawn == d0 + Consumed(mode, |raws|)
  }

  /**
   * Whether the resolver keeps `name` once it has kept `prev`: the name is
   * not blacklisted and, in a scoped mode, neither in the used-name set it
   * started from nor kept before.
   */
  predicate Keeps(name: string, blacklist: set<string>, before: set<string>, prev: seq<string>, scope: Scope) {
    name !in blacklist && (scope != NoScope ==> name !in before && name !in Elems(prev))
  }

  /** The names the resolver keeps from the names it drew, in the order drawn. */
  function Accepted(draws: seq<string>, blacklist: set<string>, before: set<string>, scope: Scope): seq<string>
    decreases |draws|
  {
    if draws == [] then []
    else
      var prev := Accepted(draws[..|draws| - 1], blacklist, before, scope);
      var name := draws[|draws| - 1];
      if Keeps(name, blacklist, before, prev, scope) then prev + [name] else prev
  }

  /** The module-level `state` object, without its `rng` field (a fresh random source is built per click). */
  class AppState {
    var adjectives: seq<string>
    var nouns: seq<string>
    var usedGlobal: set<string>
    var usedSession: set<string>
    /** How many times savePersisted has run; the storage it writes to is not modelled. */
    ghost var saves: nat

    /** The state at page load: empty word lists and sessions, and the names loadPersisted read back. */
    constructor (persisted: set<string>)
      ensures adjectives == [] && nouns == []
      ensures usedGlobal == persisted && usedSession == {} && saves == 0
    {
      adjectives := [];
      nouns := [];
      usedGlobal := persisted;
      usedSession := {};
      saves := 0;
    }

    /** The set the uniqueness field selects, or nothing. */
    function Active(scope: Scope): set<string>
      reads this
    {
      match scope
      case NoScope => {}
      case Session => usedSession
      case Global => usedGlobal
    }

    /**
     * ensureWordlists, given the text of adjectives.txt and nouns.txt: the
     * lists are parsed only while one of them is still empty.
     */
    method EnsureWordlists(adjText: string, nounText: string)
      modifies this
      ensures old(adjectives) != [] && old(nouns) != [] ==> adjectives == old(adjectives) && nouns == old(nouns)
      ensures old(adjectives) == [] || old(nouns) == [] ==>
        adjectives == ParseWordList(adjText) && nouns == ParseWordList(nounText)
      ensures usedGlobal == old(usedGlobal) && usedSession == old(usedSession) && saves == old(saves)
    {
      if adjectives != [] && nouns != [] {
        return;
      }
      adjectives := ParseWordList(adjText);
      nouns := ParseWordList(nounText);
    }

    /**
     * The three rejection tests of one attempt, then the bookkeeping of an
     * accepted name: the active set records it, and the persisted set is
     * saved after each addition.
     */
    method Admit(name: string, blacklist: set<string>, scope: Scope) returns (accepted: bool)
      modifies this
      ensures accepted <==> name !in blacklist && name !in old(Active(scope))
      ensures usedSession == (if accepted && scope == Session then old(usedSession) + {name} else old(usedSession))
      ensures usedGlobal == (if accepted && scope == Global then old(usedGlobal) + {name} else old(usedGlobal))
      ensures saves == (if accepted && scope == Global then old(saves) + 1 else old(saves))
      ensures adjectives == old(adjectives) && nouns == old(nouns)
    {
      if name in blacklist {
        return false;
      }
      if scope == Session && name in usedSession {
        return false;
      }
      if scope == Global && name in usedGlobal {
        return false;
      }
      if scope == Session {
        usedSession := usedSession + {name};
      }
      if scope == Global {
        usedGlobal := usedGlobal + {name};
        saves := saves + 1;
      }
      return true;
    }

    /**
     * The resolver loop of the generate handler: up to `count * 20`
     * attempts, each drawing one raw candidate, normalising it and keeping it
     * unless the blacklist or the active used-name set already holds it.
     */
    method Resolve(count: nat, sep: string, casing: Casing, mode: Mode, scope: Scope,
                   blacklist: set<string>, rng: Rng, ghost pool: set<string>)
      returns (results: seq<string>, attempts: nat, ghost raws: seq<string>)
      requires Covers(pool, mode, adjectives, nouns, sep, casing)
      modifies this, rng, rng.gen
      ensures |raws| == attempts
      ensures results == Accepted(Names(raws, sep, casing), blacklist, old(Active(scope)), scope)
      ensures rng.gen != null ==> SeededRaws(raws, mode, adjectives, nouns, old(rng.gen.a))
      ensures rng.gen == null ==> SystemRaws(raws, mode, adjectives, nouns, rng.entropy, old(rng.drawn))
      ensures |results| <= count && attempts <= count * 20
      ensures |results| < count ==> attempts == count * 20
      ensures forall k :: 0 <= k < |results| ==> results[k] !in blacklist
      ensures forall k :: 0 <= k < |results| ==> results[k] in pool
      ensures scope != NoScope ==> Distinct(results)
      ensures forall k :: 0 <= k < |results| ==> results[k] !in old(Active(scope))
      ensures scope == NoScope && blacklist == {} ==> |results| == count
      ensures adjectives == old(adjectives) && nouns == old(nouns)
      ensures usedSession == (if scope == Session then old(usedSession) + Elems(results) else old(usedSession))
      ensures usedGlobal == (if scope == Global then old(usedGlobal) + Elems(results) else old(usedGlobal))
      ensures saves == (if scope == Global then old(saves) + |results| else old(saves))
      ensures rng.gen != null ==> rng.gen.a == Skip(old(rng.gen.a), Consumed(mode, attempts)) && rng.drawn == old(rng.drawn)
      ensures rng.gen == null ==> rng.drawn == old(rng.drawn) + Consumed(mode, attempts)
    {
      var adjs := adjectives;
      var ns := nouns;
      ghost var before := Active(scope);
      ghost var a0: bv32 := if rng.gen != null then rng.gen.a else 0;
      ghost var d0 := rng.drawn;
      results := [];
      attempts := 0;
      raws := [];
      var maxAttempts := count * 20;
      while |results| < count && attempts < maxAttempts
        invariant attempts <= maxAttempts && |results| <= count
        invariant |raws| == attempts
        invariant results == Accepted(Names(raws, sep, casing), blacklist, before, scope)
        invariant Traced(rng, raws, mode, adjs, ns, a0, d0)
        invariant adjectives == adjs && nouns == ns
        invariant Admissible(results, blacklist, pool, before)
        invariant scope != NoScope ==> Distinct(results)
        invariant scope == NoScope && blacklist == {} ==> |results| == attempts
        invariant scope != NoScope ==> Active(scope) == before + Elems(results)
        invariant usedSession == (if scope == Session then old(usedSession) + Elems(results) else old(usedSession))
        invariant usedGlobal == (if scope == Global then old(usedGlobal) + Elems(results) else old(usedGlobal))
        invariant saves == (if scope == Global then old(saves) + |results| else old(saves))
        decreases maxAttempts - attempts
      {
        ghost var raw;
        results, raw := Attempt(results, mode, adjs, ns, sep, casing, scope, blacklist, rng, pool, before, raws, a0, d0);
        attempts := attempts + 1;
        raws := raws + [raw];
      }
    }

    /**
     * One pass of the resolver loop: draw and normalise one name, then keep
     * it unless `Admit` rejects it. `before` is the active set as the
     * resolver found it.
     */
    method Attempt(results: seq<string>, mode: Mode, adjs: seq<string>, ns: seq<string>, sep: string,
                   casing: Casing, scope: Scope, blacklist: set<string>, rng: Rng,
                   ghost pool: set<string>, ghost before: set<string>, ghost raws: seq<string>, ghost a0: bv32, ghost d0: nat)
      returns (next: seq<string>, ghost raw: string)
      requires Covers(pool, mode, adjs, ns, sep, casing)
      requires results == Accepted(Names(raws, sep, casing), blacklist, before, scope)
      requires Traced(rng, raws, mode, adjs, ns, a0, d0)
      requires Admissible(results, blacklist, pool, before)
      requires scope != NoScope ==> Distinct(results) && Active(scope) == before + Elems(results)
      requires scope == NoScope ==> before == {}
      modifies this, rng, rng.gen
      ensures next == Accepted(Names(raws + [raw], sep, casing), blacklist, before, scope)
      ensures |next| <= |results| + 1
      ensures Traced(rng, raws + [raw], mode, adjs, ns, a0, d0)
      ensures Admissible(next, blacklist, pool, before)
      ensures scope != NoScope ==> Distinct(next) && Active(scope) == before + Elems(next)
      ensures scope == NoScope && blacklist == {} ==> |next| == |results| + 1
      ensures adjectives == old(adjectives) && nouns == old(nouns)
      ensures scope != Session ==> usedSession == old(usedSession)
      ensures scope != Global ==> usedGlobal == old(usedGlobal)
      ensures saves == (if scope == Global then old(saves) + |next| - |results| else old(saves))
    {
      var name;
      name, raw := DrawTraced(mode, adjs, ns, sep, casing, rng, pool, raws, a0, d0);
      next := Keep(results, name, scope, blacklist, pool, before, Names(raws, sep, casing));
    }

    /**
     * The second half of a loop pass: `Admit` decides on the drawn name, and
     * an accepted name is appended to the results.
     */
    method Keep(results: seq<string>, name: string, scope: Scope, blacklist: set<string>,
                ghost pool: set<string>, ghost before: set<string>, ghost draws: seq<string>)
      returns (next: seq<string>)
      requires results == Accepted(draws, blacklist, before, scope)
      requires Admissible(results, blacklist, pool, before) && name in pool
      requires scope != NoScope ==> Distinct(results) && Active(scope) == before + Elems(results)
      requires scope == NoScope ==> before == {}
      modifies this
      ensures next == if Keeps(name, blacklist, before, results, scope) then results + [name] else results
      ensures next == Accepted(draws + [name], blacklist, before, scope)
      ensures Admissible(next, blacklist, pool, before)
      ensures scope != NoScope ==> Distinct(next) && Active(scope) == before + Elems(next)
      ensures adjectives == old(adjectives) && nouns == old(nouns)
      ensures scope != Session ==> usedSession == old(usedSession)
      ensures scope != Global ==> usedGlobal == old(usedGlobal)
      ensures saves == (if scope == Global then old(saves) + |next| - |results| else old(saves))
    {
      ghost var active := Active(scope);
      var accepted := Admit(name, blacklist, scope);
      next := if accepted then results + [name] else results;
      KeepStep(results, draws, name, accepted, active, Active(scope), blacklist, pool, before, scope);
    }

    /**
     * The generate handler, given the form fields, the text of the two word
     * files and the outcomes of `Math.random` (used when the seed is blank).
     * `names` are the accepted names, `shortfall` says whether the shortfall
     * line follows them, and `text` is what the output box shows.
     */
    method Generate(seedField: string, countField: string, sep: string, casingField: string,
                    modeField: string, uniqueField: string, blacklistText: string,
                    adjText: string, nounText: string, entropy: nat -> bv32)
      returns (names: seq<string>, shortfall: bool, text: string, ghost raws: seq<string>)
      modifies this
      ensures old(adjectives) != [] && old(nouns) != [] ==> adjectives == old(adjectives) && nouns == old(nouns)
      ensures old(adjectives) == [] || old(nouns) == [] ==>
        adjectives == ParseWordList(adjText) && nouns == ParseWordList(nounText)
      ensures CountOf(countField).None? ==> names == [] && !shortfall && raws == []
      ensures names == Accepted(Names(raws, sep, CasingOf(casingField)), BlacklistOf(blacklistText, sep, CasingOf(casingField)),
                                old(Active(ScopeOf(uniqueField))), ScopeOf(uniqueField))
      ensures Trim(seedField) != [] ==> SeededRaws(raws, ModeOf(modeField), adjectives, nouns, SeedOf(Trim(seedField)))
      ensures Trim(seedField) == [] ==> SystemRaws(raws, ModeOf(modeField), adjectives, nouns, entropy, 0)
      ensures CountOf(countField).Some? ==>
        |names| <= CountOf(countField).value && (shortfall <==> |names| < CountOf(countField).value)
      ensures CountOf(countField).Some? ==>
        |raws| <= CountOf(countField).value * 20 &&
        (|names| < CountOf(countField).value ==> |raws| == CountOf(countField).value * 20)
      ensures text == Join(names + (if shortfall then [ShortfallLine(|names|, CountOf(countField).value)] else []), "\n")
      ensures forall k :: 0 <= k < |names| ==> names[k] !in BlacklistOf(blacklistText, sep, CasingOf(casingField))
      ensures ScopeOf(uniqueField) != NoScope ==> Distinct(names)
      ensures forall k :: 0 <= k < |names| ==> names[k] !in old(Active(ScopeOf(uniqueField)))
      ensures usedSession == (if ScopeOf(uniqueField) == Session then old(usedSession) + Elems(names) else old(usedSession))
      ensures usedGlobal == (if ScopeOf(uniqueField) == Global then old(usedGlobal) + Elems(names) else old(usedGlobal))
      ensures saves == (if ScopeOf(uniqueField) == Global then old(saves) + |names| else old(saves))
    {
      EnsureWordlists(adjText, nounText);
      var count := CountOf(countField);
      var casing := CasingOf(casingField);
      var mode := ModeOf(modeField);
      var scope := ScopeOf(uniqueField);
      var blacklist := BuildBlacklistSet(blacklistText, sep, casing);
      if count.None? {
        names, shortfall, text, raws := [], false, Join([], "\n"), [];
        return;
      }
      names, shortfall, text, raws := Respond(Trim(seedField), entropy, count.value, sep, casing, mode, scope, blacklist);
    }

    /**
     * The part of the generate handler after the form is read: a fresh
     * random source for `seed`, the resolver, and the output text with the
     * shortfall line when fewer than `count` names were accepted.
     */
    method Respond(seed: string, entropy: nat -> bv32, count: nat, sep: string, casing: Casing, mode: Mode,
                   scope: Scope, blacklist: set<string>)
      returns (names: seq<string>, shortfall: bool, text: string, ghost raws: seq<string>)
      modifies this
      ensures |raws| <= count * 20 && (|names| < count ==> |raws| == count * 20)
      ensures names == Accepted(Names(raws, sep, casing), blacklist, old(Active(scope)), scope)
      ensures seed != [] ==> SeededRaws(raws, mode, adjectives, nouns, SeedOf(seed))
      ensures seed == [] ==> SystemRaws(raws, mode, adjectives, nouns, entropy, 0)
      ensures |names| <= count && (shortfall <==> |names| < count)
      ensures text == Join(names + (if shortfall then [ShortfallLine(|names|, count)] else []), "\n")
      ensures forall k :: 0 <= k < |names| ==> names[k] !in blacklist
      ensures scope != NoScope ==> Distinct(names)
      ensures forall k :: 0 <= k < |names| ==> names[k] !in old(Active(scope))
      ensures adjectives == old(adjectives) && nouns == old(nouns)
      ensures usedSession == (if scope == Session then old(usedSession) + Elems(names) else old(usedSession))
      ensures usedGlobal == (if scope == Global then old(usedGlobal) + Elems(names) else old(usedGlobal))
      ensures saves == (if scope == Global then old(saves) + |names| else old(saves))
    {
      var rng := new Rng(seed, entropy);
      var attempts;
      NameSpaceCovers(mode, adjectives, nouns, sep, casing);
      names, attempts, raws := Resolve(count, sep, casing, mode, scope, blacklist, rng, NameSpace(mode, adjectives, nouns, sep, casing));
      shortfall := |names| < count;
      var lines := if shortfall then names + [ShortfallLine(|names|, count)] else names;
      assert lines == names + (if shortfall then [ShortfallLine(|names|, count)] else []);
      text := Join(lines, "\n");
    }

    /** The clear-used handler: once confirmed, the persisted used names are forgotten. */
    method ClearUsed(confirmed: bool)
      modifies this
      ensures usedGlobal == (if confirmed then {} else old(usedGlobal))
      ensures usedSession == old(usedSession) && adjectives == old(adjectives) && nouns == old(nouns)
      ensures saves == old(saves)
    {
      if !confirmed {
        return;
      }
      usedGlobal := {};
    }
  }

  /**
   * One attempt's name: generateOne, then normalizeName. The name is the
   * normal form of the candidate the next `Draws(mode)` random values build,
   * and the random source moves past them.
   */
  method DrawName(mode: Mode, adjs: seq<string>, nouns: seq<string>, sep: string, casing: Casing, rng: Rng,
                  ghost pool: set<string>)
    returns (name: string, raw: string)
    requires Covers(pool, mode, adjs, nouns, sep, casing)
    modifies rng, rng.gen
    ensures name == Normalize(raw, sep, casing) && name in pool
    ensures rng.gen != null ==> raw == CandidateOf(mode, adjs, nouns, MulberryStream(old(rng.gen.a), Draws(mode)))
    ensures rng.gen == null ==> raw == CandidateOf(mode, adjs, nouns, SystemStream(rng.entropy, old(rng.drawn), Draws(mode)))
    ensures rng.gen != null ==> rng.gen.a == Skip(old(rng.gen.a), Draws(mode)) && rng.drawn == old(rng.drawn)
    ensures rng.gen == null ==> rng.drawn == old(rng.drawn) + Draws(mode)
  {
    raw := GenerateOne(mode, adjs, nouns, rng);
    name := Normalize(raw, sep, casing);
  }

  /** DrawName, with the trace of the random source extended by the candidate drawn. */
  method DrawTraced(mode: Mode, adjs: seq<string>, nouns: seq<string>, sep: string, casing: Casing, rng: Rng,
                    ghost pool: set<string>, ghost raws: seq<string>, ghost a0: bv32, ghost d0: nat)
    returns (name: string, raw: string)
    requires Covers(pool, mode, adjs, nouns, sep, casing)
    requires Traced(rng, raws, mode, adjs, nouns, a0, d0)
    modifies rng, rng.gen
    ensures name in pool
    ensures Names(raws + [raw], sep, casing) == Names(raws, sep, casing) + [name]
    ensures Traced(rng, raws + [raw], mode, adjs, nouns, a0, d0)
  {
    ghost var aPrev: bv32 := if rng.gen != null then rng.gen.a else 0;
    ghost var dPrev := rng.drawn;
    name, raw := DrawName(mode, adjs, nouns, sep, casing, rng, pool);
    TraceStep(rng, raws, raw, mode, adjs, nouns, a0, d0, aPrev, dPrev);
    NamesSnoc(raws, raw, sep, casing);
  }

  /** The attempt that drew `raw` extends the trace of the random source by one. */
  lemma TraceStep(rng: Rng, raws: seq<string>, raw: string, mode: Mode, adjs: seq<string>, nouns: seq<string>,
                  a0: bv32, d0: nat, aPrev: bv32, dPrev: nat)
    requires rng.gen != null ==>
      SeededRaws(raws, mode, adjs, nouns, a0) && aPrev == Skip(a0, Consumed(mode, |raws|)) &&
      raw == CandidateOf(mode, adjs, nouns, MulberryStream(aPrev, Draws(mode))) &&
      rng.gen.a == Skip(aPrev, Draws(mode)) && rng.drawn == d0
    requires rng.gen == null ==>
      SystemRaws(raws, mode, adjs, nouns, rng.entropy, d0) && dPrev == d0 + Consumed(mode, |raws|) &&
      raw == CandidateOf(mode, adjs, nouns, SystemStream(rng.entropy, dPrev, Draws(mode))) &&
      rng.drawn == dPrev + Draws(mode)
    ensures Traced(rng, raws + [raw], mode, adjs, nouns, a0, d0)
  {
    if rng.gen != null {
      SeededStep(raws, raw, mode, adjs, nouns, a0);
    } else {
      SystemStep(raws, raw, mode, adjs, nouns, rng.entropy, d0);
    }
  }

  /** Every name is outside the blacklist and the set used before, and inside the pool. */
  predicate Admissible(s: seq<string>, blacklist: set<string>, pool: set<string>, before: set<string>) {
    forall k :: 0 <= k < |s| ==> s[k] !in blacklist && s[k] in pool && s[k] !in before
  }

  lemma AdmissibleSnoc(s: seq<string>, name: string, blacklist: set<string>, pool: set<string>, before: set<string>)
    requires Admissible(s, blacklist, pool, before)
    requires name !in blacklist && name in pool && name !in before
    ensures Admissible(s + [name], blacklist, pool, before)
  {
  }

  lemma ElemsSnoc(s: seq<string>, x: string)
    ensures Elems(s + [x]) == Elems(s) + {x}
  {
  }

  lemma DistinctSnoc(s: seq<string>, x: string)
    requires Distinct(s) && x !in Elems(s)
    ensures Distinct(s + [x])
  {
  }

  /**
   * Distinct names drawn from a set are no more than the set holds: once the
   * unused candidates run out, the resolver comes up short.
   */
  lemma {:induction false} DistinctBound(s: seq<string>, pool: set<string>)
    requires Distinct(s)
    requires forall k :: 0 <= k < |s| ==> s[k] in pool
    ensures |s| <= |pool|
    decreases |s|
  {
    if s != [] {
      var x := s[|s| - 1];
      var init := s[..|s| - 1];
      forall k | 0 <= k < |init|
        ensures init[k] in pool - {x}
      {
        assert init[k] == s[k];
      }
      DistinctBound(init, pool - {x});
    }
  }

  /**
   * In a scoped mode the resolver accepts no more names than the pool holds
   * outside the blacklist and the used names it started from; when fewer than
   * `count` remain, the output comes up short.
   */
  lemma UniqueBound(results: seq<string>, blacklist: set<string>, pool: set<string>, before: set<string>)
    requires Distinct(results)
    requires forall k :: 0 <= k < |results| ==> results[k] !in blacklist
    requires forall k :: 0 <= k < |results| ==> results[k] in pool
    requires forall k :: 0 <= k < |results| ==> results[k] !in before
    ensures |results| <= |pool - before - blacklist|
  {
    DistinctBound(results, pool - before - blacklist);
  }

  /**
   * The list bookkeeping of one attempt: `Admit`'s verdict on the drawn name
   * is exactly `Keeps`, and the accepted names stay admissible and distinct.
   */
  lemma KeepStep(results: seq<string>, draws: seq<string>, name: string, accepted: bool, active: set<string>,
                 activeAfter: set<string>, blacklist: set<string>, pool: set<string>, before: set<string>, scope: Scope)
    requires results == Accepted(draws, blacklist, before, scope)
    requires Admissible(results, blacklist, pool, before)
    requires scope != NoScope ==> Distinct(results) && active == before + Elems(results)
    requires scope == NoScope ==> before == {} && active == {}
    requires name in pool
    requires accepted <==> name !in blacklist && name !in active
    requires activeAfter == if accepted && scope != NoScope then active + {name} else active
    ensures accepted == Keeps(name, blacklist, before, results, scope)
    ensures var next := if accepted then results + [name] else results;
      next == Accepted(draws + [name], blacklist, before, scope) &&
      Admissible(next, blacklist, pool, before) &&
      (scope != NoScope ==> Distinct(next) && activeAfter == before + Elems(next))
  {
    AcceptedSnoc(draws, name, blacklist, before, scope);
    ElemsSnoc(results, name);
    if accepted {
      AdmissibleSnoc(results, name, blacklist, pool, before);
      if scope != NoScope {
        DistinctSnoc(results, name);
      }
    }
  }

  /** Drawing one more name keeps it exactly when `Keeps` says so. */
  lemma AcceptedSnoc(draws: seq<string>, name: string, blacklist: set<string>, before: set<string>, scope: Scope)
    ensures Accepted(draws + [name], blacklist, before, scope) ==
      var prev := Accepted(draws, blacklist, before, scope);
      if Keeps(name, blacklist, before, prev, scope) then prev + [name] else prev
  {
    assert (draws + [name])[..|draws|] == draws;
  }

  /**
   * One more attempt on the seeded generator, from the counter the earlier
   * attempts left: its candidate extends the trace, and the counter moves on
   * by the values it consumed.
   */
  lemma SeededStep(raws: seq<string>, raw: string, mode: Mode, adjs: seq<string>, nouns: seq<string>, a: bv32)
    requires SeededRaws(raws, mode, adjs, nouns, a)
    requires raw == CandidateOf(mode, adjs, nouns, MulberryStream(Skip(a, Consumed(mode, |raws|)), Draws(mode)))
    ensures SeededRaws(raws + [raw], mode, adjs, nouns, a)
    ensures Skip(Skip(a, Consumed(mode, |raws|)), Draws(mode)) == Skip(a, Consumed(mode, |raws| + 1))
  {
    var longer := raws + [raw];
    assert |longer| - 1 == |raws| && longer[..|raws|] == raws && longer[|raws|] == raw;
    ConsumedSnoc(mode, |raws|);
    SkipSum(a, Consumed(mode, |raws|), Draws(mode), Consumed(mode, |raws| + 1));
  }

  /** The same for the system generator: the next values of `entropy` are taken. */
  lemma SystemStep(raws: seq<string>, raw: string, mode: Mode, adjs: seq<string>, nouns: seq<string>,
                   entropy: nat -> bv32, start: nat)
    requires SystemRaws(raws, mode, adjs, nouns, entropy, start)
    requires raw == CandidateOf(mode, adjs, nouns, SystemStream(entropy, start + Consumed(mode, |raws|), Draws(mode)))
    ensures SystemRaws(raws + [raw], mode, adjs, nouns, entropy, start)
    ensures start + Consumed(mode, |raws|) + Draws(mode) == start + Consumed(mode, |raws| + 1)
  {
    var longer := raws + [raw];
    assert |longer| - 1 == |raws| && longer[..|raws|] == raws && longer[|raws|] == raw;
    ConsumedSnoc(mode, |raws|);
  }
}
