/** The in-memory event store under concurrency. An append reads the index entry of its key, perhaps
    writes it, and then pushes to the log: three atomic accesses, with those of other appends in between. */
module EventStoreConcurrent {
  import opened Events
  import EventStore

  /** An append in flight: about to write its index entry, or about to push to the log. */
  datatype Flight = ToInsert(ev: Event) | ToPush(ev: Event)

  datatype World = World(log: seq<Event>, latest: EventStore.Latest, flights: map<nat, Flight>, begun: set<nat>)

  /** `call` numbers the appends. */
  datatype Step =
    | Get(call: nat, ev: Event)
    | Insert(call: nat, ev: Event)
    | Push(call: nat, ev: Event)

  const EMPTY := World([], map[], map[], {})

  predicate Enabled(w: World, s: Step) {
    match s
    case Get(call, _) => call !in w.begun && call !in w.flights
    case Insert(call, ev) => call in w.flights && w.flights[call] == ToInsert(ev)
    case Push(call, ev) => call in w.flights && w.flights[call] == ToPush(ev)
  }

  /** The entry read is newer, so the append leaves the index alone. */
  predicate Beaten(latest: EventStore.Latest, ev: Event) {
    KeyOf(ev) in latest && ev.observedAt < latest[KeyOf(ev)].observedAt
  }

  function Apply(w: World, s: Step): World {
    match s
    case Get(call, ev) =>
      w.(begun := w.begun + {call},
         flights := w.flights[call := if Beaten(w.latest, ev) then ToPush(ev) else ToInsert(ev)])
    case Insert(call, ev) => w.(latest := w.latest[KeyOf(ev) := ev], flights := w.flights[call := ToPush(ev)])
    case Push(call, ev) => w.(log := w.log + [ev], flights := w.flights - {call})
  }

  function After(steps: seq<Step>): World {
    if steps == [] then EMPTY else Apply(After(steps[..|steps| - 1]), steps[|steps| - 1])
  }

  /** The accesses can happen in this order. */
  predicate Legal(steps: seq<Step>) {
    steps == [] ||
    (Legal(steps[..|steps| - 1]) && Enabled(After(steps[..|steps| - 1]), steps[|steps| - 1]))
  }

  /// Writes to the index.

  predicate Writes(s: Step, k: DedupKey) {
    s.Insert? && KeyOf(s.ev) == k
  }

  predicate WrittenSince(steps: seq<Step>, k: DedupKey, from: nat) {
    exists p :: from <= p < |steps| && Writes(steps[p], k)
  }

  lemma {:induction false} PrefixStep(steps: seq<Step>, p: nat)
    requires p < |steps|
    ensures After(steps[..p + 1]) == Apply(After(steps[..p]), steps[p])
    ensures Legal(steps[..p + 1]) ==> Legal(steps[..p]) && Enabled(After(steps[..p]), steps[p])
  {
    assert steps[..p + 1][..p] == steps[..p];
  }

  lemma {:induction false} PrefixLegal(steps: seq<Step>, p: nat)
    requires Legal(steps) && p <= |steps|
    ensures Legal(steps[..p])
    decreases |steps|
  {
    if p == |steps| {
      assert steps[..p] == steps;
    } else {
      var n := |steps| - 1;
      PrefixLegal(steps[..n], p);
      assert steps[..n][..p] == steps[..p];
    }
  }

  /** What was written last is what is held. */
  lemma {:induction false} HeldSince(steps: seq<Step>, k: DedupKey, j: nat, p: nat)
    requires j < p <= |steps| && Writes(steps[j], k)
    requires forall q :: j < q < p ==> !Writes(steps[q], k)
    ensures k in After(steps[..p]).latest && After(steps[..p]).latest[k] == steps[j].ev
    decreases p
  {
    PrefixStep(steps, p - 1);
    if j < p - 1 {
      HeldSince(steps, k, j, p - 1);
    }
  }

  lemma {:induction false} LastWrite(steps: seq<Step>, k: DedupKey, p: nat) returns (j: nat)
    requires p <= |steps| && k in After(steps[..p]).latest
    ensures j < p && Writes(steps[j], k) && forall q :: j < q < p ==> !Writes(steps[q], k)
    ensures After(steps[..p]).latest[k] == steps[j].ev
    decreases p
  {
    PrefixStep(steps, p - 1);
    if Writes(steps[p - 1], k) {
      j := p - 1;
    } else {
      j := LastWrite(steps, k, p - 1);
    }
  }

  lemma {:induction false} NextWrite(steps: seq<Step>, k: DedupKey, from: nat, p: nat) returns (j: nat)
    requires from <= p < |steps| && Writes(steps[p], k)
    ensures from <= j <= p && Writes(steps[j], k) && forall q :: from <= q < j ==> !Writes(steps[q], k)
    decreases p - from
  {
    if Writes(steps[from], k) {
      j := from;
    } else {
      j := NextWrite(steps, k, from + 1, p);
    }
  }

  /** The last of the newest writes of a key. */
  lemma {:induction false} NewestWrite(steps: seq<Step>, k: DedupKey, p: nat) returns (j: nat)
    requires p < |steps| && Writes(steps[p], k)
    ensures j < |steps| && Writes(steps[j], k)
    ensures forall q :: 0 <= q < |steps| && Writes(steps[q], k) ==>
              steps[q].ev.observedAt < steps[j].ev.observedAt
              || (steps[q].ev.observedAt == steps[j].ev.observedAt && q <= j)
    decreases |steps|
  {
    var n := |steps| - 1;
    var front := steps[..n];
    if w :| 0 <= w < n && Writes(front[w], k) {
      j := NewestWrite(front, k, w);
      forall q | 0 <= q < n && Writes(steps[q], k)
        ensures steps[q].ev.observedAt < steps[j].ev.observedAt
             || (steps[q].ev.observedAt == steps[j].ev.observedAt && q <= j)
      {
        assert Writes(front[q], k);
      }
      if Writes(steps[n], k) && steps[n].ev.observedAt >= steps[j].ev.observedAt {
        j := n;
      }
    } else {
      forall q | 0 <= q < n
        ensures !Writes(steps[q], k)
      {
        assert !Writes(front[q], k);
      }
      j := p;
    }
  }

  /// What an append did before and after it wrote.

  /** An append that is to write read the entry before, and was not beaten by it. */
  lemma {:induction false} ReadBefore(steps: seq<Step>, call: nat, ev: Event, p: nat) returns (i: nat)
    requires Legal(steps) && p <= |steps|
    requires call in After(steps[..p]).flights && After(steps[..p]).flights[call] == ToInsert(ev)
    ensures i < p && steps[i] == Get(call, ev) && !Beaten(After(steps[..i]).latest, ev)
    decreases p
  {
    PrefixLegal(steps, p);
    PrefixStep(steps, p - 1);
    if steps[p - 1] == Get(call, ev) {
      i := p - 1;
    } else {
      i := ReadBefore(steps, call, ev, p - 1);
    }
  }

  ghost predicate Logged(w: World, ev: Event) {
    ev in w.log || exists call :: call in w.flights && w.flights[call] == ToPush(ev)
  }

  lemma {:induction false} LoggedKept(w: World, s: Step, ev: Event)
    requires Enabled(w, s) && Logged(w, ev)
    ensures Logged(Apply(w, s), ev)
  {
    var w' := Apply(w, s);
    if ev !in w.log {
      var call :| call in w.flights && w.flights[call] == ToPush(ev);
      if s != Push(call, ev) {
        assert call in w'.flights && w'.flights[call] == ToPush(ev);
      }
    }
  }

  /** Whatever was written is in the log or on its way there. */
  lemma {:induction false} WrittenIsLogged(steps: seq<Step>, j: nat, p: nat)
    requires Legal(steps) && j < p <= |steps| && steps[j].Insert?
    ensures Logged(After(steps[..p]), steps[j].ev)
    decreases p
  {
    PrefixLegal(steps, p);
    PrefixStep(steps, p - 1);
    if j == p - 1 {
      assert After(steps[..p]).flights[steps[j].call] == ToPush(steps[j].ev);
    } else {
      WrittenIsLogged(steps, j, p - 1);
      LoggedKept(After(steps[..p - 1]), steps[p - 1], steps[j].ev);
    }
  }

  /** And whatever is in the log, or on its way there, was written or was beaten by something written. */
  lemma {:induction false} LoggedIsCovered(steps: seq<Step>, ev: Event) returns (j: nat)
    requires Legal(steps) && Logged(After(steps), ev)
    ensures j < |steps| && Writes(steps[j], KeyOf(ev)) && ev.observedAt <= steps[j].ev.observedAt
    decreases |steps|
  {
    var n := |steps| - 1;
    var (front, s) := (steps[..n], steps[n]);
    var w := After(front);
    if Logged(w, ev) {
      j := LoggedIsCovered(front, ev);
    } else if s.Insert? {
      assert s.ev == ev;
      j := n;
    } else {
      NewlyLogged(w, s, ev);
      assert front[..n] == front;
      j := LastWrite(front, KeyOf(ev), n);
    }
  }

  lemma {:induction false} NewlyLogged(w: World, s: Step, ev: Event)
    requires Enabled(w, s) && !Logged(w, ev) && Logged(Apply(w, s), ev)
    ensures s == Insert(s.call, ev) || (s == Get(s.call, ev) && Beaten(w.latest, ev))
  {
    var w' := Apply(w, s);
    if ev !in w'.log {
      var call :| call in w'.flights && w'.flights[call] == ToPush(ev);
      assert call == s.call;
    }
  }

  /// When the index goes back in time.

  /** Between the read at `i` and the write at `k` of one append, another one wrote a newer event of the
      same key at `j`. */
  predicate Overtaken(steps: seq<Step>, i: nat, j: nat, k: nat) {
    && i < j < k < |steps|
    && steps[k].Insert? && steps[i] == Get(steps[k].call, steps[k].ev)
    && Writes(steps[j], KeyOf(steps[k].ev)) && steps[j].ev.observedAt > steps[k].ev.observedAt
  }

  predicate GoesBackAt(steps: seq<Step>, p: nat, k: DedupKey) {
    && p < |steps|
    && var (before, after) := (After(steps[..p]).latest, After(steps[..p + 1]).latest);
       k in before && k in after && after[k].observedAt < before[k].observedAt
  }

  /** A write onto a newer event was read before that event was written. */
  lemma {:induction false} WriteOntoNewer(steps: seq<Step>, j: nat, k: nat) returns (i: nat)
    requires Legal(steps) && j < k < |steps| && steps[k].Insert? && Writes(steps[j], KeyOf(steps[k].ev))
    requires forall q :: j < q < k ==> !Writes(steps[q], KeyOf(steps[k].ev))
    requires steps[j].ev.observedAt > steps[k].ev.observedAt
    ensures Overtaken(steps, i, j, k)
  {
    PrefixLegal(steps, k + 1);
    PrefixStep(steps, k);
    i := ReadBefore(steps, steps[k].call, steps[k].ev, k);
    if i > j {
      HeldSince(steps, KeyOf(steps[k].ev), j, i);
      assert false;
    }
  }

  lemma {:induction false} NeverBackRises(steps: seq<Step>, k: DedupKey, p: nat, q: nat)
    requires p <= q <= |steps| && k in After(steps[..p]).latest
    requires forall r :: 0 <= r < |steps| ==> !GoesBackAt(steps, r, k)
    ensures k in After(steps[..q]).latest
    ensures After(steps[..p]).latest[k].observedAt <= After(steps[..q]).latest[k].observedAt
    decreases q
  {
    if p < q {
      NeverBackRises(steps, k, p, q - 1);
      PrefixStep(steps, q - 1);
      assert !GoesBackAt(steps, q - 1, k);
    }
  }

  /** In every interleaving: no index entry ever goes back in time if and only if no append is overtaken
      between its read and its write by a newer event of its key. */
  lemma {:induction false} NeverBackIffNoneOvertaken(steps: seq<Step>)
    requires Legal(steps)
    ensures (forall p, k :: 0 <= p < |steps| ==> !GoesBackAt(steps, p, k))
       <==> (forall i, j, k :: 0 <= i < j < k < |steps| ==> !Overtaken(steps, i, j, k))
  {
    if forall p, k :: 0 <= p < |steps| ==> !GoesBackAt(steps, p, k) {
      forall i, j, k | 0 <= i < j < k < |steps|
        ensures !Overtaken(steps, i, j, k)
      {
        if Overtaken(steps, i, j, k) {
          var key := KeyOf(steps[k].ev);
          PrefixStep(steps, j);
          PrefixStep(steps, k);
          NeverBackRises(steps, key, j + 1, k + 1);
          assert false;
        }
      }
    }
    if forall i, j, k :: 0 <= i < j < k < |steps| ==> !Overtaken(steps, i, j, k) {
      forall p, key | 0 <= p < |steps|
        ensures !GoesBackAt(steps, p, key)
      {
        if GoesBackAt(steps, p, key) {
          PrefixStep(steps, p);
          var j := LastWrite(steps, key, p);
          var i := WriteOntoNewer(steps, j, p);
          assert false;
        }
      }
    }
  }

  /// When the index ends up wrong.

  /** No event of the log is newer than the one held for its key. */
  predicate ViewIsNewest(w: World) {
    forall e <- w.log :: KeyOf(e) in w.latest && e.observedAt <= w.latest[KeyOf(e)].observedAt
  }

  /** And nothing as new as the event overtaking at `j` is written to the key after `k`. */
  predicate Unrepaired(steps: seq<Step>, j: nat, k: nat)
    requires j < k < |steps|
  {
    forall m :: k < m < |steps| && Writes(steps[m], KeyOf(steps[k].ev)) ==>
      steps[m].ev.observedAt < steps[j].ev.observedAt
  }

  ghost predicate LeftOvertaken(steps: seq<Step>) {
    exists i, j, k :: 0 <= i < j < k < |steps| && Overtaken(steps, i, j, k) && Unrepaired(steps, j, k)
  }

  /** In every interleaving, once all appends have finished: the index holds the newest event of every key
      if and only if no append was overtaken by a newer event that nothing as new followed. */
  lemma {:induction false} NewestIffNotLeftOvertaken(steps: seq<Step>)
    requires Legal(steps) && After(steps).flights == map[]
    ensures ViewIsNewest(After(steps)) <==> !LeftOvertaken(steps)
  {
    if !ViewIsNewest(After(steps)) {
      StaleIsOvertaken(steps);
    }
    if LeftOvertaken(steps) {
      var i, j, k :| 0 <= i < j < k < |steps| && Overtaken(steps, i, j, k) && Unrepaired(steps, j, k);
      OvertakenIsStale(steps, j, k);
    }
  }

  lemma {:induction false} OvertakenIsStale(steps: seq<Step>, j: nat, k: nat)
    requires Legal(steps) && After(steps).flights == map[]
    requires j < k < |steps| && steps[k].Insert? && Writes(steps[j], KeyOf(steps[k].ev))
    requires steps[j].ev.observedAt > steps[k].ev.observedAt && Unrepaired(steps, j, k)
    ensures !ViewIsNewest(After(steps))
  {
    var key := KeyOf(steps[k].ev);
    assert steps[..|steps|] == steps;
    WrittenIsLogged(steps, j, |steps|);
    assert steps[j].ev in After(steps).log;
    if key in After(steps).latest {
      var m := LastWrite(steps, key, |steps|);
      assert m >= k;
      assert After(steps).latest[key].observedAt < steps[j].ev.observedAt;
    }
  }

  lemma {:induction false} StaleIsOvertaken(steps: seq<Step>)
    requires Legal(steps) && !ViewIsNewest(After(steps))
    ensures LeftOvertaken(steps)
  {
    assert steps[..|steps|] == steps;
    var e :| e in After(steps).log &&
      !(KeyOf(e) in After(steps).latest && e.observedAt <= After(steps).latest[KeyOf(e)].observedAt);
    var key := KeyOf(e);
    var c := LoggedIsCovered(steps, e);
    var j := NewestWrite(steps, key, c);
    if forall q :: j < q < |steps| ==> !Writes(steps[q], key) {
      HeldSince(steps, key, j, |steps|);
      assert false;
    }
    var q :| j < q < |steps| && Writes(steps[q], key);
    var k := NextWrite(steps, key, j + 1, q);
    var i := WriteOntoNewer(steps, j, k);
    assert Unrepaired(steps, j, k);
  }

  /// The sequential store.

  lemma {:induction false} HeldIsLogged(steps: seq<Step>, k: DedupKey)
    requires Legal(steps) && After(steps).flights == map[] && k in After(steps).latest
    ensures After(steps).latest[k] in After(steps).log && KeyOf(After(steps).latest[k]) == k
  {
    assert steps[..|steps|] == steps;
    var j := LastWrite(steps, k, |steps|);
    WrittenIsLogged(steps, j, |steps|);
  }

  /** When the newest event of each key is unique, the index is the one that the same events appended one
      at a time would have left, if and only if no append was left overtaken. */
  lemma {:induction false} AsSequentialIffNotLeftOvertaken(steps: seq<Step>)
    requires Legal(steps) && After(steps).flights == map[]
    requires EventStore.UniqueNewest(Elements(After(steps).log))
    ensures After(steps).latest == EventStore.LatestOf(After(steps).log) <==> !LeftOvertaken(steps)
  {
    var (w, log) := (After(steps), After(steps).log);
    NewestIffNotLeftOvertaken(steps);
    if ViewIsNewest(w) {
      forall k
        ensures k in w.latest <==> k in EventStore.LatestOf(log)
        ensures k in w.latest ==> w.latest[k] == EventStore.LatestOf(log)[k]
      {
        SameEntry(steps, k);
      }
    } else {
      StaleDiffers(log, w.latest);
    }
  }

  lemma {:induction false} SameEntry(steps: seq<Step>, k: DedupKey)
    requires Legal(steps) && After(steps).flights == map[] && ViewIsNewest(After(steps))
    requires EventStore.UniqueNewest(Elements(After(steps).log))
    ensures var (latest, sequential) := (After(steps).latest, EventStore.LatestOf(After(steps).log));
      (k in latest <==> k in sequential) && (k in latest ==> latest[k] == sequential[k])
  {
    var (w, log) := (After(steps), After(steps).log);
    EventStore.LatestHasAllKeys(log, k);
    if k in w.latest {
      HeldIsLogged(steps, k);
      var i :| 0 <= i < |log| && log[i] == w.latest[k];
      assert KeyOf(log[i]) == k;
      EventStore.HeldIsMaximal(log, k);
      assert EventStore.Maximal(Elements(log), w.latest[k]);
    }
  }

  lemma {:induction false} StaleDiffers(log: seq<Event>, latest: EventStore.Latest)
    requires exists e <- log :: !(KeyOf(e) in latest && e.observedAt <= latest[KeyOf(e)].observedAt)
    ensures latest != EventStore.LatestOf(log)
  {
    var e :| e in log && !(KeyOf(e) in latest && e.observedAt <= latest[KeyOf(e)].observedAt);
    EventStore.LatestHasAllKeys(log, KeyOf(e));
    var i :| 0 <= i < |log| && log[i] == e;
    assert KeyOf(log[i]) == KeyOf(e);
    EventStore.HeldIsMaximal(log, KeyOf(e));
    assert e in Elements(log);
  }

  lemma {:induction false} OneMoreStep(steps: seq<Step>, s: Step)
    requires Legal(steps) && Enabled(After(steps), s)
    ensures Legal(steps + [s]) && After(steps + [s]) == Apply(After(steps), s)
  {
    assert (steps + [s])[..|steps|] == steps;
  }

  predicate Free(w: World, call: nat) {
    call !in w.begun && call !in w.flights
  }

  lemma {:induction false} BeatenRun(steps: seq<Step>, call: nat, ev: Event)
    requires Legal(steps) && Free(After(steps), call) && Beaten(After(steps).latest, ev)
    ensures var (w, all) := (After(steps), steps + [Get(call, ev)] + [Push(call, ev)]);
      && Legal(all)
      && After(all) == World(w.log + [ev], w.latest, w.flights, w.begun + {call})
  {
    OneMoreStep(steps, Get(call, ev));
    OneMoreStep(steps + [Get(call, ev)], Push(call, ev));
    assert After(steps).flights[call := ToPush(ev)] - {call} == After(steps).flights;
  }

  lemma {:induction false} WritingRun(steps: seq<Step>, call: nat, ev: Event)
    requires Legal(steps) && Free(After(steps), call) && !Beaten(After(steps).latest, ev)
    ensures var (w, all) := (After(steps), steps + [Get(call, ev)] + [Insert(call, ev)] + [Push(call, ev)]);
      && Legal(all)
      && After(all) == World(w.log + [ev], w.latest[KeyOf(ev) := ev], w.flights, w.begun + {call})
  {
    OneMoreStep(steps, Get(call, ev));
    OneMoreStep(steps + [Get(call, ev)], Insert(call, ev));
    OneMoreStep(steps + [Get(call, ev)] + [Insert(call, ev)], Push(call, ev));
    assert After(steps).flights[call := ToInsert(ev)][call := ToPush(ev)] - {call} == After(steps).flights;
  }

  /** Uninterrupted, the accesses of one append do what the method does. */
  lemma {:induction false} AppendIsARun(steps: seq<Step>, call: nat, ev: Event) returns (more: seq<Step>)
    requires Legal(steps) && Free(After(steps), call)
    ensures Legal(steps + more)
    ensures var (w, w') := (After(steps), After(steps + more));
      w'.log == w.log + [ev] && w'.latest == EventStore.Upsert(w.latest, ev) && w'.flights == w.flights
  {
    var (get, insert, push) := (Get(call, ev), Insert(call, ev), Push(call, ev));
    if Beaten(After(steps).latest, ev) {
      BeatenRun(steps, call, ev);
      more := [get, push];
      assert steps + more == steps + [get] + [push];
    } else {
      WritingRun(steps, call, ev);
      more := [get, insert, push];
      assert steps + more == steps + [get] + [insert] + [push];
    }
  }

  /** The shortest regression: a newer event is stored between an older one's read and its write. */
  lemma {:induction false} OlderEventLeft(older: Event, newer: Event) returns (steps: seq<Step>)
    requires KeyOf(older) == KeyOf(newer) && older.observedAt < newer.observedAt
    ensures Legal(steps) && After(steps).flights == map[] && After(steps).log == [newer, older]
    ensures After(steps).latest == map[KeyOf(newer) := older]
  {
    OneMoreStep([], Get(0, older));
    var read := [] + [Get(0, older)];
    var more := AppendIsARun(read, 1, newer);
    OneMoreStep(read + more, Insert(0, older));
    OneMoreStep(read + more + [Insert(0, older)], Push(0, older));
    steps := read + more + [Insert(0, older)] + [Push(0, older)];
  }
}
