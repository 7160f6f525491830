/** The cache of recently seen sessions: time to live, capacity and oldest-first eviction. */
module Dedup {
  import opened Clock
  import opened Sets

  const U64_MAX: nat := 0xffff_ffff_ffff_ffff

  type Entries = map<string, nat>

  datatype Cache = Cache(ttl: nat, capacity: nat, entries: Entries, forcedEvictions: nat)

  /** One observation. `victim` is the oldest entry that goes if one has to; the order in which a hash
      map is scanned picks it among equals. */
  datatype Obs = Obs(id: string, now: nat, victim: string)

  predicate Hit(c: Cache, o: Obs) {
    o.id in c.entries && Since(o.now, c.entries[o.id]) < c.ttl
  }

  function Unexpired(c: Cache, now: nat): Entries {
    map k | k in c.entries && Since(now, c.entries[k]) < c.ttl :: c.entries[k]
  }

  /** The observation is new and the unexpired entries already fill the cache. */
  predicate Forces(c: Cache, o: Obs) {
    !Hit(c, o) && |Unexpired(c, o.now)| >= c.capacity
  }

  predicate Oldest(m: Entries, k: string) {
    k in m && forall j :: j in m ==> m[k] <= m[j]
  }

  predicate Legal(c: Cache, o: Obs) {
    Forces(c, o) ==> Oldest(Unexpired(c, o.now), o.victim)
  }

  function Min(a: nat, b: nat): nat {
    if a <= b then a else b
  }

  function Observe(c: Cache, o: Obs): Cache {
    if Hit(c, o) then c else
      var kept := Unexpired(c, o.now);
      if Forces(c, o) then
        c.(entries := (kept - {o.victim})[o.id := o.now], forcedEvictions := Min(c.forcedEvictions + 1, U64_MAX))
      else
        c.(entries := kept[o.id := o.now])
  }

  class DedupCache {
    const ttl: nat
    const capacity: nat
    var entries: Entries
    var forcedEvictions: nat

    function State(): Cache
      reads this
    {
      Cache(ttl, capacity, entries, forcedEvictions)
    }

    constructor (ttl: nat, capacity: nat)
      ensures State() == Cache(ttl, if capacity < 1 then 1 else capacity, map[], 0)
    {
      this.ttl, this.capacity := ttl, if capacity < 1 then 1 else capacity;
      entries, forcedEvictions := map[], 0;
    }

    /** The scan for the entry with the least time. */
    method OldestKey() returns (k: string)
      requires entries != map[]
      ensures Oldest(entries, k)
    {
      var todo := entries.Keys;
      k :| k in todo;
      todo := todo - {k};
      while todo != {}
        invariant k in entries && todo <= entries.Keys
        invariant forall j :: j in entries && j !in todo ==> entries[k] <= entries[j]
        decreases todo
      {
        var j :| j in todo;
        todo := todo - {j};
        if entries[j] < entries[k] {
          k := j;
        }
      }
    }

    method ObserveAt(id: string, now: nat) returns (isNew: bool, ghost victim: string)
      requires capacity >= 1 && forcedEvictions <= U64_MAX
      modifies this
      ensures Legal(old(State()), Obs(id, now, victim))
      ensures State() == Observe(old(State()), Obs(id, now, victim))
      ensures isNew <==> !Hit(old(State()), Obs(id, now, victim))
    {
      victim := "";
      if id in entries && Since(now, entries[id]) < ttl {
        return false, victim;
      }
      entries := map k | k in entries && Since(now, entries[k]) < ttl :: entries[k];
      assert entries == Unexpired(old(State()), now);
      if |entries| >= capacity {
        var oldest := OldestKey();
        victim := oldest;
        entries := entries - {oldest};
        forcedEvictions := if forcedEvictions < U64_MAX then forcedEvictions + 1 else U64_MAX;
      }
      entries := entries[id := now];
      isNew := true;
    }
  }

  /// Runs, with the emissions they make.

  datatype Emission = Emission(id: string, at: nat)

  function Run(c: Cache, obs: seq<Obs>): Cache {
    if obs == [] then c else Observe(Run(c, obs[..|obs| - 1]), obs[|obs| - 1])
  }

  predicate LegalRun(c: Cache, obs: seq<Obs>) {
    obs == [] ||
    (LegalRun(c, obs[..|obs| - 1]) && Legal(Run(c, obs[..|obs| - 1]), obs[|obs| - 1]))
  }

  function Emitted(c: Cache, obs: seq<Obs>): seq<Emission> {
    if obs == [] then [] else
      var (n, o) := (|obs| - 1, obs[|obs| - 1]);
      Emitted(c, obs[..n]) + if Hit(Run(c, obs[..n]), o) then [] else [Emission(o.id, o.now)]
  }

  /** How many observations forced an unexpired entry out. */
  function Evictions(c: Cache, obs: seq<Obs>): nat {
    if obs == [] then 0 else
      var n := |obs| - 1;
      Evictions(c, obs[..n]) + if Forces(Run(c, obs[..n]), obs[n]) then 1 else 0
  }

  function Empty(ttl: nat, capacity: nat): Cache {
    Cache(ttl, capacity, map[], 0)
  }

  /** Each observation is at least `gap` after the one before. */
  predicate Spaced(obs: seq<Obs>, gap: nat) {
    forall i, j :: 0 <= i < j < |obs| ==> obs[i].now + gap <= obs[j].now
  }

  predicate AllBy(obs: seq<Obs>, now: int) {
    forall i :: 0 <= i < |obs| ==> obs[i].now <= now
  }

  /// Capacity and the counter.

  lemma {:induction false} FewerUnexpired(c: Cache, now: nat)
    ensures Unexpired(c, now).Keys <= c.entries.Keys && |Unexpired(c, now)| <= |c.entries|
  {
    FewerKeys(Unexpired(c, now), c.entries);
  }

  lemma {:induction false} FewerKeys(a: Entries, b: Entries)
    requires a.Keys <= b.Keys
    ensures |a| <= |b|
  {
    assert |a.Keys| <= |b.Keys| by { Smaller(a.Keys, b.Keys); }
  }

  lemma {:induction false} OneFewer(entries: map<string, nat>, k: string)
    requires k in entries
    ensures |entries - {k}| == |entries| - 1
  {
    assert (entries - {k}).Keys == entries.Keys - {k};
    assert |entries - {k}| == |(entries - {k}).Keys|;
  }

  lemma {:induction false} OneMore(entries: map<string, nat>, k: string, at: nat)
    ensures |entries[k := at]| <= |entries| + 1
  {
    assert entries[k := at].Keys == entries.Keys + {k};
    assert |entries[k := at]| == |entries[k := at].Keys|;
  }

  lemma {:induction false} SizeAfter(c: Cache, o: Obs)
    requires c.capacity >= 1 && |c.entries| <= c.capacity && Legal(c, o)
    ensures |Observe(c, o).entries| <= c.capacity
    ensures Forces(c, o) ==> |Unexpired(c, o.now)| == c.capacity
  {
    FewerUnexpired(c, o.now);
    var kept := Unexpired(c, o.now);
    if Forces(c, o) {
      OneFewer(kept, o.victim);
      OneMore(kept - {o.victim}, o.id, o.now);
    } else {
      OneMore(kept, o.id, o.now);
    }
  }

  /** Whatever the clock does, the cache never holds more than its capacity, and the counter is the
      number of unexpired entries forced out, up to saturation. */
  lemma {:induction false} CapacityAndCounter(ttl: nat, capacity: nat, obs: seq<Obs>)
    requires capacity >= 1 && LegalRun(Empty(ttl, capacity), obs)
    ensures var c := Run(Empty(ttl, capacity), obs);
      && c.ttl == ttl && c.capacity == capacity && |c.entries| <= capacity
      && c.forcedEvictions == Min(Evictions(Empty(ttl, capacity), obs), U64_MAX)
    decreases |obs|
  {
    if obs != [] {
      var n := |obs| - 1;
      CapacityAndCounter(ttl, capacity, obs[..n]);
      SizeAfter(Run(Empty(ttl, capacity), obs[..n]), obs[n]);
    }
  }

  /// What the entries say about the emissions.

  /** The position of the last emission of `id`, or -1. */
  function LastOf(es: seq<Emission>, id: string): (i: int)
    ensures -1 <= i < |es|
    ensures i >= 0 ==> es[i].id == id
    ensures forall j :: i < j < |es| ==> es[j].id != id
  {
    if es == [] then -1
    else if es[|es| - 1].id == id then |es| - 1
    else LastOf(es[..|es| - 1], id)
  }

  /** The identities emitted after position `i`. */
  function EmittedAfter(es: seq<Emission>, i: int): set<string> {
    set j | 0 <= j < |es| && j > i :: es[j].id
  }

  lemma {:induction false} LastOfAppend(es: seq<Emission>, e: Emission, id: string)
    ensures LastOf(es + [e], id) == if e.id == id then |es| else LastOf(es, id)
  {
    assert (es + [e])[..|es|] == es;
  }

  lemma {:induction false} EmittedAfterAppend(es: seq<Emission>, e: Emission, i: int)
    requires i < |es|
    ensures EmittedAfter(es + [e], i) == EmittedAfter(es, i) + {e.id}
  {
    var (a, b) := (EmittedAfter(es + [e], i), EmittedAfter(es, i) + {e.id});
    forall x ensures x in a <==> x in b {
      if x in EmittedAfter(es, i) {
        var j :| 0 <= j < |es| && j > i && es[j].id == x;
        assert (es + [e])[j].id == x;
      }
      if x == e.id { assert (es + [e])[|es|].id == x; }
      if x in a {
        var j :| 0 <= j < |es + [e]| && j > i && (es + [e])[j].id == x;
        if j < |es| { assert es[j].id == x; }
      }
    }
  }

  /** An entry is the time of the last emission of its identity. */
  predicate EntriesAreLast(m: Entries, es: seq<Emission>) {
    forall k :: k in m ==> LastOf(es, k) >= 0 && es[LastOf(es, k)].at == m[k]
  }

  /** An identity once emitted and no longer held has outlived `ttl` by the time `now`, or, if
      `excuse` is not negative, at least that many identities were emitted after it. */
  ghost predicate MissingExplained(c: Cache, es: seq<Emission>, now: nat, excuse: int) {
    forall k {:trigger k in c.entries} {:trigger LastOf(es, k)} :: k !in c.entries && LastOf(es, k) >= 0 ==>
      || Since(now, es[LastOf(es, k)].at) >= c.ttl
      || 0 <= excuse <= |EmittedAfter(es, LastOf(es, k))|
  }

  lemma {:induction false} EntriesStayLast(c: Cache, o: Obs, es: seq<Emission>)
    requires EntriesAreLast(c.entries, es) && !Hit(c, o)
    ensures EntriesAreLast(Observe(c, o).entries, es + [Emission(o.id, o.now)])
  {
    var c' := Observe(c, o);
    var e := Emission(o.id, o.now);
    forall k | k in c'.entries
      ensures LastOf(es + [e], k) >= 0 && (es + [e])[LastOf(es + [e], k)].at == c'.entries[k]
    {
      LastOfAppend(es, e, k);
      if k != o.id { assert k in c.entries && c'.entries[k] == c.entries[k]; }
    }
  }

  /** When the oldest entry goes, everything else held was emitted after it, and so is the newcomer. */
  lemma {:induction false} VictimIsExcused(c: Cache, o: Obs, es: seq<Emission>)
    requires EntriesAreLast(c.entries, es) && Forces(c, o) && Legal(c, o)
    requires InOrder(es, 1)
    ensures var v := LastOf(es, o.victim);
      v >= 0 && |EmittedAfter(es + [Emission(o.id, o.now)], v)| >= c.capacity
  {
    var kept := Unexpired(c, o.now);
    var v := LastOf(es, o.victim);
    var others := kept.Keys - {o.victim};
    forall k | k in others ensures k in EmittedAfter(es, v) {
      var i := LastOf(es, k);
      assert es[v].at <= es[i].at && i != v;
      assert i > v && es[i].id == k;
    }
    assert o.id !in kept;
    EmittedAfterAppend(es, Emission(o.id, o.now), v);
    assert others + {o.id} <= EmittedAfter(es, v) + {o.id};
    Smaller(others + {o.id}, EmittedAfter(es, v) + {o.id});
    assert |others| == |kept.Keys| - 1;
  }

  lemma {:induction false} MissingStaysExplained(c: Cache, o: Obs, es: seq<Emission>, now: nat, excuse: int)
    requires EntriesAreLast(c.entries, es) && MissingExplained(c, es, now, excuse) && !Hit(c, o) && Legal(c, o)
    requires now <= o.now
    requires Forces(c, o) ==>
      LastOf(es, o.victim) >= 0 && 0 <= excuse <= |EmittedAfter(es + [Emission(o.id, o.now)], LastOf(es, o.victim))|
    ensures MissingExplained(Observe(c, o), es + [Emission(o.id, o.now)], o.now, excuse)
  {
    var (c', e) := (Observe(c, o), Emission(o.id, o.now));
    var es' := es + [e];
    forall k | k !in c'.entries && LastOf(es', k) >= 0
      ensures Since(o.now, es'[LastOf(es', k)].at) >= c.ttl || 0 <= excuse <= |EmittedAfter(es', LastOf(es', k))|
    {
      LastOfAppend(es, e, k);
      assert k != o.id;
      var i := LastOf(es, k);
      assert es'[i] == es[i];
      if k !in c.entries {
        EmittedAfterAppend(es, e, i);
        Smaller(EmittedAfter(es, i), EmittedAfter(es', i));
      } else if k !in Unexpired(c, o.now) {
        assert Since(o.now, c.entries[k]) >= c.ttl;
      } else {
        assert k == o.victim && Forces(c, o);
      }
    }
  }

  /// Emissions follow the order of the observations.

  predicate InOrder(es: seq<Emission>, gap: nat) {
    forall i, j :: 0 <= i < j < |es| ==> es[i].at + gap <= es[j].at
  }

  lemma {:induction false} EmittedBy(c: Cache, obs: seq<Obs>, now: int)
    requires AllBy(obs, now)
    ensures forall i :: 0 <= i < |Emitted(c, obs)| ==> Emitted(c, obs)[i].at <= now
    decreases |obs|
  {
    if obs != [] { EmittedBy(c, obs[..|obs| - 1], now); }
  }

  lemma {:induction false} SpacedPrefix(obs: seq<Obs>, o: Obs, gap: nat)
    requires Spaced(obs + [o], gap)
    ensures Spaced(obs, gap) && AllBy(obs, o.now - gap)
  {
    forall i, j | 0 <= i < j < |obs| ensures obs[i].now + gap <= obs[j].now {
      assert (obs + [o])[i].now + gap <= (obs + [o])[j].now;
    }
    forall i | 0 <= i < |obs| ensures obs[i].now <= o.now - gap {
      assert (obs + [o])[i].now + gap <= (obs + [o])[|obs|].now;
    }
  }

  lemma {:induction false} EmissionsSpaced(c: Cache, obs: seq<Obs>, gap: nat)
    requires Spaced(obs, gap)
    ensures InOrder(Emitted(c, obs), gap)
    decreases |obs|
  {
    if obs != [] {
      var (before, o) := (obs[..|obs| - 1], obs[|obs| - 1]);
      assert obs == before + [o];
      SpacedPrefix(before, o, gap);
      EmissionsSpaced(c, before, gap);
      EmittedBy(c, before, o.now - gap);
      var es := Emitted(c, before);
      assert InOrder(es + [Emission(o.id, o.now)], gap);
      assert es + [] == es;
    }
  }

  /// What holds along a run.

  ghost predicate Explained(c: Cache, es: seq<Emission>, now: nat, excuse: int) {
    EntriesAreLast(c.entries, es) && MissingExplained(c, es, now, excuse)
  }

  lemma {:induction false} ExplainedStep(c: Cache, o: Obs, es: seq<Emission>, now: nat, excuse: int)
    requires Explained(c, es, now, excuse) && now <= o.now && Legal(c, o)
    requires Forces(c, o) ==> excuse == c.capacity && InOrder(es, 1)
    ensures Explained(Observe(c, o), es + if Hit(c, o) then [] else [Emission(o.id, o.now)], o.now, excuse)
  {
    if Hit(c, o) {
      assert es + [] == es;
    } else {
      EntriesStayLast(c, o, es);
      if Forces(c, o) { VictimIsExcused(c, o, es); }
      MissingStaysExplained(c, o, es, now, excuse);
    }
  }

  lemma {:induction false} ExplainedLater(c: Cache, es: seq<Emission>, now: nat, later: nat, excuse: int)
    requires Explained(c, es, now, excuse) && now <= later
    ensures Explained(c, es, later, excuse)
  {
  }

  lemma {:induction false} EvictionsPrefix(c: Cache, obs: seq<Obs>)
    requires obs != [] && Evictions(c, obs) == 0
    ensures Evictions(c, obs[..|obs| - 1]) == 0 && !Forces(Run(c, obs[..|obs| - 1]), obs[|obs| - 1])
  {
  }

  /** With nothing forced out, every missing identity has expired; with a strict clock, each one has
      expired or has seen the cache filled since. */
  lemma {:induction false} RunIsExplained(start: Cache, obs: seq<Obs>, now: nat, gap: nat, excuse: int)
    requires start.entries == map[] && LegalRun(start, obs) && Spaced(obs, gap) && AllBy(obs, now)
    requires Evictions(start, obs) == 0 || (excuse == start.capacity && gap == 1)
    ensures var c := Run(start, obs);
      c.ttl == start.ttl && c.capacity == start.capacity && Explained(c, Emitted(start, obs), now, excuse)
    decreases |obs|
  {
    if obs != [] {
      var (before, o) := (obs[..|obs| - 1], obs[|obs| - 1]);
      assert obs == before + [o];
      SpacedPrefix(before, o, gap);
      if Evictions(start, obs) == 0 { EvictionsPrefix(start, obs); }
      RunIsExplained(start, before, o.now, gap, excuse);
      EmissionsSpaced(start, before, gap);
      RunStep(start, before, o);
      var (c, es) := (Run(start, before), Emitted(start, before));
      ExplainedStep(c, o, es, o.now, excuse);
      ExplainedLater(Observe(c, o), Emitted(start, obs), o.now, now, excuse);
    }
  }

  lemma {:induction false} RunStep(start: Cache, before: seq<Obs>, o: Obs)
    ensures var c := Run(start, before);
      && Run(start, before + [o]) == Observe(c, o)
      && Emitted(start, before + [o]) == Emitted(start, before) + (if Hit(c, o) then [] else [Emission(o.id, o.now)])
      && (LegalRun(start, before + [o]) <==> LegalRun(start, before) && Legal(c, o))
  {
    assert (before + [o])[..|before|] == before;
  }

  /** While no entry has been forced out and the clock does not run backwards, an observation is a
      duplicate exactly when its identity was emitted less than `ttl` ago. */
  lemma {:induction false} UnforcedCacheIsExact(ttl: nat, capacity: nat, obs: seq<Obs>, o: Obs)
    requires LegalRun(Empty(ttl, capacity), obs) && Evictions(Empty(ttl, capacity), obs) == 0
    requires Spaced(obs + [o], 0)
    ensures Hit(Run(Empty(ttl, capacity), obs), o) <==>
      exists e <- Emitted(Empty(ttl, capacity), obs) :: e.id == o.id && Since(o.now, e.at) < ttl
  {
    var start := Empty(ttl, capacity);
    SpacedPrefix(obs, o, 0);
    RunIsExplained(start, obs, o.now, 0, -1);
    EmissionsSpaced(start, obs, 0);
    ExplainedIsExact(Run(start, obs), Emitted(start, obs), o);
  }

  lemma {:induction false} ExplainedIsExact(c: Cache, es: seq<Emission>, o: Obs)
    requires Explained(c, es, o.now, -1) && InOrder(es, 0)
    ensures Hit(c, o) <==> exists e <- es :: e.id == o.id && Since(o.now, e.at) < c.ttl
  {
    var i := LastOf(es, o.id);
    if Hit(c, o) {
      assert es[i] in es && es[i].id == o.id;
    }
    if exists e <- es :: e.id == o.id && Since(o.now, e.at) < c.ttl {
      var e :| e in es && e.id == o.id && Since(o.now, e.at) < c.ttl;
      var j :| 0 <= j < |es| && es[j] == e;
      assert j <= i && es[j].at <= es[i].at;
    }
  }

  /** With a clock that always advances, an identity is emitted again less than `ttl` after its last
      emission only if at least `capacity` other identities were emitted in between. */
  lemma {:induction false} EarlyRepeatNeedsOverflow(ttl: nat, capacity: nat, obs: seq<Obs>, o: Obs)
    requires LegalRun(Empty(ttl, capacity), obs) && Spaced(obs + [o], 1)
    ensures var (c, es) := (Run(Empty(ttl, capacity), obs), Emitted(Empty(ttl, capacity), obs));
      var last := LastOf(es, o.id);
      !Hit(c, o) && last >= 0 && Since(o.now, es[last].at) < ttl ==>
        o.id !in EmittedAfter(es, last) && |EmittedAfter(es, last)| >= capacity
  {
    SpacedPrefix(obs, o, 1);
    RunIsExplained(Empty(ttl, capacity), obs, o.now, 1, capacity);
  }

  /// Exactness after evictions too.

  /** Whatever was emitted after an entry that is still held is held as well. */
  ghost predicate YoungerHeld(m: Entries, es: seq<Emission>) {
    forall k, j {:trigger k in m, es[j]} :: k in m && LastOf(es, k) < j < |es| ==> es[j].id in m
  }

  lemma {:induction false} HitKeeps(c: Cache, o: Obs, es: seq<Emission>)
    requires Hit(c, o) && YoungerHeld(c.entries, es)
    ensures YoungerHeld(Observe(c, o).entries, es)
  {
  }

  /** When an entry stays, so does every younger one. */
  lemma {:induction false} YoungerStays(c: Cache, o: Obs, k: string, x: string)
    requires k in c.entries && x in c.entries && c.entries[k] < c.entries[x]
    requires !Hit(c, o) && Legal(c, o) && k != o.id && k in Observe(c, o).entries
    ensures x in Observe(c, o).entries
  {
    var kept := Unexpired(c, o.now);
    assert k in kept && x in kept;
    if Forces(c, o) {
      assert kept[o.victim] <= kept[k] < kept[x];
    }
  }

  /** What was emitted after the last emission of a held identity is held and younger. */
  lemma {:induction false} LaterIsYounger(m: Entries, es: seq<Emission>, k: string, j: int)
    requires EntriesAreLast(m, es) && InOrder(es, 1) && YoungerHeld(m, es)
    requires k in m && LastOf(es, k) < j < |es|
    ensures es[j].id in m && m[k] < m[es[j].id]
  {
    var x := es[j].id;
    assert x in m;
    var (h, i) := (LastOf(es, k), LastOf(es, x));
    assert es[h].at == m[k] && es[i].at == m[x] && h < j <= i;
    assert es[h].at + 1 <= es[i].at;
  }

  lemma {:induction false} NewKeeps(c: Cache, o: Obs, es: seq<Emission>)
    requires EntriesAreLast(c.entries, es) && InOrder(es, 1) && YoungerHeld(c.entries, es)
    requires !Hit(c, o) && Legal(c, o)
    ensures YoungerHeld(Observe(c, o).entries, es + [Emission(o.id, o.now)])
  {
    var es' := es + [Emission(o.id, o.now)];
    forall k, j | k in Observe(c, o).entries && LastOf(es', k) < j < |es'|
      ensures es'[j].id in Observe(c, o).entries
    {
      NewKeepsOne(c, o, es, k, j);
    }
  }

  lemma {:induction false} NewKeepsOne(c: Cache, o: Obs, es: seq<Emission>, k: string, j: int)
    requires EntriesAreLast(c.entries, es) && InOrder(es, 1) && YoungerHeld(c.entries, es)
    requires !Hit(c, o) && Legal(c, o) && k in Observe(c, o).entries
    requires LastOf(es + [Emission(o.id, o.now)], k) < j <= |es|
    ensures (es + [Emission(o.id, o.now)])[j].id in Observe(c, o).entries
  {
    LastOfAppend(es, Emission(o.id, o.now), k);
    if k != o.id && j < |es| {
      assert k in c.entries;
      LaterIsYounger(c.entries, es, k, j);
      YoungerStays(c, o, k, es[j].id);
    }
  }

  lemma {:induction false} YoungerHeldOnRun(start: Cache, obs: seq<Obs>)
    requires start.entries == map[] && LegalRun(start, obs) && Spaced(obs, 1)
    ensures YoungerHeld(Run(start, obs).entries, Emitted(start, obs))
    decreases |obs|
  {
    if obs != [] {
      var (before, o) := (obs[..|obs| - 1], obs[|obs| - 1]);
      assert obs == before + [o];
      SpacedPrefix(before, o, 1);
      YoungerHeldOnRun(start, before);
      RunIsExplained(start, before, o.now, 1, start.capacity);
      EmissionsSpaced(start, before, 1);
      RunStep(start, before, o);
      var (c, es) := (Run(start, before), Emitted(start, before));
      if Hit(c, o) {
        assert es + [] == es;
        HitKeeps(c, o, es);
      } else {
        NewKeeps(c, o, es);
      }
    }
  }

  /** What was emitted after a held entry fits into the cache beside it. */
  lemma {:induction false} FewerThanCapacityAfter(c: Cache, es: seq<Emission>, k: string)
    requires YoungerHeld(c.entries, es) && k in c.entries && |c.entries| <= c.capacity
    ensures |EmittedAfter(es, LastOf(es, k))| < c.capacity
  {
    var after := EmittedAfter(es, LastOf(es, k));
    forall x | x in after
      ensures x in c.entries.Keys - {k}
    {
      var j :| 0 <= j < |es| && j > LastOf(es, k) && es[j].id == x;
      assert es[j].id in c.entries;
    }
    Smaller(after, c.entries.Keys - {k});
    assert |c.entries.Keys| == |c.entries|;
  }

  /** With a clock that always advances the cache is exact, evictions and all: an observation is a
      duplicate if and only if its identity was last emitted less than `ttl` ago and fewer than
      `capacity` identities have been emitted since. */
  lemma {:induction false} CacheIsExact(ttl: nat, capacity: nat, obs: seq<Obs>, o: Obs)
    requires capacity >= 1 && LegalRun(Empty(ttl, capacity), obs) && Spaced(obs + [o], 1)
    ensures var (c, es) := (Run(Empty(ttl, capacity), obs), Emitted(Empty(ttl, capacity), obs));
      var last := LastOf(es, o.id);
      Hit(c, o) <==> last >= 0 && Since(o.now, es[last].at) < ttl && |EmittedAfter(es, last)| < capacity
  {
    var start := Empty(ttl, capacity);
    var (c, es) := (Run(start, obs), Emitted(start, obs));
    SpacedPrefix(obs, o, 1);
    RunIsExplained(start, obs, o.now, 1, capacity);
    if Hit(c, o) {
      YoungerHeldOnRun(start, obs);
      CapacityAndCounter(ttl, capacity, obs);
      FewerThanCapacityAfter(c, es, o.id);
    }
  }
}
