/** Inventory events and the key that makes two of them observations of the same asset. */
module Events {
  datatype AssetKind =
    | X509Cert | TlsSession | SshSession | IpsecSa | BlockchainKey | HsmSlot | DnsDnssec | QkdLink | QkdKme

  /** `body` stands for the fields the stores carry without looking at them. */
  datatype Event = Event(sourceModule: string, observedAt: int, kind: AssetKind, identity: string, body: string)

  datatype DedupKey = DedupKey(sourceModule: string, kind: AssetKind, identity: string)

  function KeyOf(e: Event): DedupKey {
    DedupKey(e.sourceModule, e.kind, e.identity)
  }

  function Elements(log: seq<Event>): set<Event> {
    set e | e in log
  }
}

/** The collector's event store, in memory and over Postgres, and what its per-asset view means. */
module EventStore {
  import opened Events
  import opened Wrappers

  type Latest = map<DedupKey, Event>

  /** One append seen by the index: an event older than the one held does not replace it. */
  function Upsert(m: Latest, e: Event): Latest {
    if KeyOf(e) in m && e.observedAt < m[KeyOf(e)].observedAt then m else m[KeyOf(e) := e]
  }

  function LatestOf(log: seq<Event>): Latest {
    if log == [] then map[] else Upsert(LatestOf(log[..|log| - 1]), log[|log| - 1])
  }

  /// What the index holds.

  /** Entry `i` has the greatest time among the entries of its key, and no later entry ties with it. */
  ghost predicate Newest(log: seq<Event>, i: nat) {
    && i < |log|
    && forall j :: 0 <= j < |log| && KeyOf(log[j]) == KeyOf(log[i]) ==>
         log[j].observedAt < log[i].observedAt || (log[j].observedAt == log[i].observedAt && j <= i)
  }

  lemma {:induction false} LatestHasAllKeys(log: seq<Event>, k: DedupKey)
    ensures k in LatestOf(log) <==> exists i :: 0 <= i < |log| && KeyOf(log[i]) == k
    decreases |log|
  {
    if log != [] {
      var n := |log| - 1;
      LatestHasAllKeys(log[..n], k);
      if k in LatestOf(log[..n]) {
        var i :| 0 <= i < n && KeyOf(log[..n][i]) == k;
        assert KeyOf(log[i]) == k;
      }
      if exists i :: 0 <= i < |log| && KeyOf(log[i]) == k {
        var i :| 0 <= i < |log| && KeyOf(log[i]) == k;
        if i < n { assert KeyOf(log[..n][i]) == k; }
      }
    }
  }

  lemma {:induction false} NewestIsHeld(log: seq<Event>, k: DedupKey) returns (i: nat)
    requires k in LatestOf(log)
    ensures Newest(log, i) && KeyOf(log[i]) == k && LatestOf(log)[k] == log[i]
    decreases |log|
  {
    var n := |log| - 1;
    var before := LatestOf(log[..n]);
    LatestHasAllKeys(log[..n], k);
    if KeyOf(log[n]) == k && !(k in before && log[n].observedAt < before[k].observedAt) {
      i := n;
      if k in before {
        var p := NewestIsHeld(log[..n], k);
        forall j | 0 <= j < n && KeyOf(log[j]) == k ensures log[j].observedAt <= log[n].observedAt {
          assert log[..n][j] == log[j];
        }
      } else {
        forall j | 0 <= j < n ensures KeyOf(log[j]) != k {
          assert KeyOf(log[..n][j]) == KeyOf(log[j]);
        }
      }
    } else {
      i := NewestIsHeld(log[..n], k);
      forall j | 0 <= j < n && KeyOf(log[j]) == k
        ensures log[j].observedAt < log[i].observedAt || (log[j].observedAt == log[i].observedAt && j <= i)
      {
        assert log[..n][j] == log[j];
      }
    }
  }

  /** After any appends the index holds, for each key seen and no other, the event with the greatest
      time, the last to arrive among equals. */
  lemma {:induction false} LatestIsNewest(log: seq<Event>)
    ensures forall k :: k in LatestOf(log) <==> exists i: nat :: Newest(log, i) && KeyOf(log[i]) == k
    ensures forall i: nat :: Newest(log, i) ==> KeyOf(log[i]) in LatestOf(log) && LatestOf(log)[KeyOf(log[i])] == log[i]
  {
    forall k ensures k in LatestOf(log) <==> exists i: nat :: Newest(log, i) && KeyOf(log[i]) == k {
      LatestHasAllKeys(log, k);
      if k in LatestOf(log) {
        var i := NewestIsHeld(log, k);
      }
    }
    forall i: nat | Newest(log, i)
      ensures KeyOf(log[i]) in LatestOf(log) && LatestOf(log)[KeyOf(log[i])] == log[i]
    {
      LatestHasAllKeys(log, KeyOf(log[i]));
      var p := NewestIsHeld(log, KeyOf(log[i]));
      assert p == i;
    }
  }

  /// Redelivery: the index as a function of the set of events alone.

  ghost predicate Maximal(s: set<Event>, e: Event) {
    e in s && forall f :: f in s && KeyOf(f) == KeyOf(e) ==> f.observedAt <= e.observedAt
  }

  /** No two different events of one key share its greatest time. */
  ghost predicate UniqueNewest(s: set<Event>) {
    forall e, f :: Maximal(s, e) && Maximal(s, f) && KeyOf(e) == KeyOf(f) ==> e == f
  }

  lemma {:induction false} HeldIsMaximal(log: seq<Event>, k: DedupKey)
    requires k in LatestOf(log)
    ensures Maximal(Elements(log), LatestOf(log)[k]) && KeyOf(LatestOf(log)[k]) == k
  {
    var i := NewestIsHeld(log, k);
  }

  /** Reordering deliveries and repeating them does not change the per-asset view. */
  lemma {:induction false} RedeliveryIsHarmless(a: seq<Event>, b: seq<Event>)
    requires Elements(a) == Elements(b) && UniqueNewest(Elements(a))
    ensures LatestOf(a) == LatestOf(b)
  {
    assert forall e :: e in a <==> e in Elements(a);
    assert forall e :: e in b <==> e in Elements(b);
    forall k ensures k in LatestOf(a) <==> k in LatestOf(b) {
      LatestHasAllKeys(a, k);
      LatestHasAllKeys(b, k);
      assert (exists i :: 0 <= i < |a| && KeyOf(a[i]) == k) <==> (exists e :: e in a && KeyOf(e) == k);
      assert (exists i :: 0 <= i < |b| && KeyOf(b[i]) == k) <==> (exists e :: e in b && KeyOf(e) == k);
    }
    forall k | k in LatestOf(a) ensures LatestOf(a)[k] == LatestOf(b)[k] {
      HeldIsMaximal(a, k);
      HeldIsMaximal(b, k);
    }
  }

  lemma {:induction false} AppendMaximalWins(log: seq<Event>, e: Event)
    requires Maximal(Elements(log), e)
    ensures Elements(log + [e]) == Elements(log)
    ensures KeyOf(e) in LatestOf(log + [e]) && LatestOf(log + [e])[KeyOf(e)] == e
  {
    assert (log + [e])[..|log|] == log;
    if KeyOf(e) in LatestOf(log) { HeldIsMaximal(log, KeyOf(e)); }
  }

  /** Exactly when redelivery is harmless: the view after `a` is the view after every log with the
      same events if and only if the newest event of each key is unique. */
  lemma {:induction false} HarmlessIffUniqueNewest(a: seq<Event>)
    ensures (forall b: seq<Event> :: Elements(b) == Elements(a) ==> LatestOf(b) == LatestOf(a))
       <==> UniqueNewest(Elements(a))
  {
    if UniqueNewest(Elements(a)) {
      forall b: seq<Event> | Elements(b) == Elements(a) ensures LatestOf(b) == LatestOf(a) {
        RedeliveryIsHarmless(a, b);
      }
    } else {
      var e, f :| Maximal(Elements(a), e) && Maximal(Elements(a), f) && KeyOf(e) == KeyOf(f) && e != f;
      AppendMaximalWins(a, e);
      AppendMaximalWins(a, f);
      assert LatestOf(a + [e]) != LatestOf(a + [f]);
    }
  }

  /// Recent events.

  /** The last `limit` entries, newest arrival first, as positions in the log. */
  function RecentAt(log: seq<Event>, limit: nat): seq<nat> {
    var n := if limit < |log| then limit else |log|;
    seq(n, i requires 0 <= i < n => |log| - 1 - i)
  }

  lemma {:induction false} RecentHoldsTheLast(log: seq<Event>, limit: nat, q: nat)
    ensures q in RecentAt(log, limit) <==> |log| - limit <= q < |log|
  {
    if |log| - limit <= q < |log| {
      assert RecentAt(log, limit)[|log| - 1 - q] == q;
    }
  }

  /** `picks` is an answer to `ORDER BY observed_at DESC LIMIT limit`, ties in any order. */
  ghost predicate TimeOrdered(log: seq<Event>, limit: nat, picks: seq<nat>) {
    && |picks| == (if limit < |log| then limit else |log|)
    && (forall i :: 0 <= i < |picks| ==> picks[i] < |log|)
    && (forall i, j :: 0 <= i < j < |picks| ==>
          picks[i] != picks[j] && log[picks[i]].observedAt >= log[picks[j]].observedAt)
    && (forall i, q: nat :: 0 <= i < |picks| && q < |log| && q !in picks ==>
          log[picks[i]].observedAt >= log[q].observedAt)
  }

  /** The in-memory store answers `recent` by arrival and Postgres by time; the answers are
      interchangeable for every limit exactly when events arrived in time order. */
  lemma {:induction false} RecentAgreesIffArrivalInOrder(log: seq<Event>)
    ensures (forall limit: nat :: TimeOrdered(log, limit, RecentAt(log, limit)))
       <==> (forall i, j :: 0 <= i < j < |log| ==> log[i].observedAt <= log[j].observedAt)
  {
    if forall limit: nat :: TimeOrdered(log, limit, RecentAt(log, limit)) {
      forall i, j | 0 <= i < j < |log| ensures log[i].observedAt <= log[j].observedAt {
        var picks := RecentAt(log, |log|);
        assert TimeOrdered(log, |log|, picks);
        assert picks[|log| - 1 - j] == j && picks[|log| - 1 - i] == i;
      }
    }
    if forall i, j :: 0 <= i < j < |log| ==> log[i].observedAt <= log[j].observedAt {
      forall limit: nat ensures TimeOrdered(log, limit, RecentAt(log, limit)) {
        var picks := RecentAt(log, limit);
        forall i, q: nat | 0 <= i < |picks| && q < |log| && q !in picks
          ensures log[picks[i]].observedAt >= log[q].observedAt
        {
          RecentHoldsTheLast(log, limit, q);
        }
      }
    }
  }

  /// The stores.

  class InMemoryEventStore {
    var log: seq<Event>
    var latest: Latest

    ghost predicate Valid()
      reads this
    {
      latest == LatestOf(log)
    }

    constructor ()
      ensures Valid() && log == []
    {
      log, latest := [], map[];
    }

    method Append(ev: Event)
      requires Valid()
      modifies this
      ensures Valid() && log == old(log) + [ev]
    {
      var key := KeyOf(ev);
      assert (log + [ev])[..|log|] == log;
      if key in latest {
        var prev := latest[key];
        if ev.observedAt < prev.observedAt {
          log := log + [ev];
          return;
        }
      }
      latest := latest[key := ev];
      log := log + [ev];
    }

    method Recent(limit: nat) returns (r: seq<Event>)
      ensures |r| == (if limit < |log| then limit else |log|)
      ensures forall i :: 0 <= i < |r| ==> r[i] == log[|log| - 1 - i]
    {
      var start := if limit < |log| then |log| - limit else 0;
      r := [];
      var i := |log|;
      while i > start
        invariant start <= i <= |log| && |r| == |log| - i
        invariant forall k :: 0 <= k < |r| ==> r[k] == log[|log| - 1 - k]
      {
        i := i - 1;
        r := r + [log[i]];
      }
    }

    /** The newest event of one asset, in the sense of `Newest`. */
    method LatestFor(key: DedupKey) returns (r: Option<Event>)
      requires Valid()
      ensures r.None? <==> forall i :: 0 <= i < |log| ==> KeyOf(log[i]) != key
      ensures r.Some? ==> exists i: nat :: Newest(log, i) && KeyOf(log[i]) == key && log[i] == r.value
    {
      LatestHasAllKeys(log, key);
      if key in latest {
        ghost var i := NewestIsHeld(log, key);
        r := Some(latest[key]);
      } else {
        r := None;
      }
    }
  }

  /** A row of the `assets` table: the time column and the event it was taken from. */
  datatype AssetRow = AssetRow(observedAt: int, body: Event)

  class PgEventStore {
    var events: seq<Event>
    var assets: map<DedupKey, AssetRow>

    /** The table holds the same index as the in-memory store, and its time column is true to the body. */
    ghost predicate Valid()
      reads this
    {
      && assets.Keys == LatestOf(events).Keys
      && forall k :: k in assets ==> assets[k] == AssetRow(LatestOf(events)[k].observedAt, LatestOf(events)[k])
    }

    constructor ()
      ensures Valid() && events == []
    {
      events, assets := [], map[];
    }

    /** One transaction: the insert, then the conditional upsert. */
    method Append(ev: Event)
      requires Valid()
      modifies this
      ensures Valid() && events == old(events) + [ev]
    {
      assert (events + [ev])[..|events|] == events;
      events := events + [ev];
      var key := KeyOf(ev);
      if key !in assets {
        assets := assets[key := AssetRow(ev.observedAt, ev)];
      } else if assets[key].observedAt <= ev.observedAt {
        assets := assets[key := AssetRow(ev.observedAt, ev)];
      }
    }
  }
}
