/** Exactly which lists of clock readings keep the limiter's promise of at most `max` accepted requests
    of a key in any interval as long as the window. */
module RateLimitBound {
  import opened Clock
  import opened RateLimit
  import opened RateLimitClock
  import opened Sets

  /** Whatever the limit and whoever asks, requests at these readings keep to the bound. */
  ghost predicate BoundKept(times: seq<nat>, window: nat) {
    forall max: nat, reqs: seq<Request>, key: string, start: nat :: Times(reqs) == times ==>
      AcceptedWithin(Limits(max, window), reqs, key, start) <= max
  }

  /** How many requests of the key the code accepts in the interval of the window's length at `start`. */
  function AcceptedWithin(l: Limits, reqs: seq<Request>, key: string, start: nat): nat {
    var ok := RunCode(l, reqs).1;
    if |ok| == |reqs| then CountIn(AcceptedTimes(reqs, ok, key), start, start + l.window) else 0
  }

  predicate In(t: nat, start: nat, window: nat) {
    start <= t < start + window
  }

  /** Two readings have left the window at a later one, and a still later reading shares with both an
      interval as long as the window. */
  ghost predicate Crowded(times: seq<nat>, window: nat) {
    exists a, b, i, c, start: nat :: 0 <= a < b < i < c < |times| && CrowdedAt(times, window, a, b, i, c, start)
  }

  predicate CrowdedAt(times: seq<nat>, window: nat, a: nat, b: nat, i: nat, c: nat, start: nat)
    requires a < b < i < c < |times|
  {
    && Since(times[i], times[a]) >= window && Since(times[i], times[b]) >= window
    && In(times[a], start, window) && In(times[b], start, window) && In(times[c], start, window)
  }

  /** One such reading is enough where the soft cap on keys can have been reached. */
  ghost predicate PruneCrowded(times: seq<nat>, window: nat) {
    exists a, i, c, start: nat :: 0 <= a < i < c < |times| && PruneCrowdedAt(times, window, a, i, c, start)
  }

  predicate PruneCrowdedAt(times: seq<nat>, window: nat, a: nat, i: nat, c: nat, start: nat)
    requires a < i < c < |times|
  {
    && i >= KEY_SOFT_CAP && Since(times[i], times[a]) >= window
    && In(times[a], start, window) && In(times[c], start, window)
  }

  /// Counting.

  function CountFrom(times: seq<nat>, start: nat): nat {
    if times == [] then 0 else
      CountFrom(times[..|times| - 1], start) + if times[|times| - 1] >= start then 1 else 0
  }

  lemma {:induction false} CountFromAppend(times: seq<nat>, t: nat, start: nat)
    ensures CountFrom(times + [t], start) == CountFrom(times, start) + if t >= start then 1 else 0
  {
    assert (times + [t])[..|times|] == times;
  }

  lemma {:induction false} CountFromAtMost(times: seq<nat>, start: nat)
    ensures CountFrom(times, start) <= |times|
    decreases |times|
  {
    if times != [] {
      CountFromAtMost(times[..|times| - 1], start);
    }
  }

  lemma {:induction false} LiveCounts(times: seq<nat>, now: nat, window: nat, lo: nat, hi: nat)
    ensures CountIn(Live(times, now, window), lo, hi) <= CountIn(times, lo, hi)
    decreases |times|
  {
    if times != [] {
      var (rest, t) := (times[..|times| - 1], times[|times| - 1]);
      assert times == rest + [t];
      LiveCounts(rest, now, window, lo, hi);
      LiveAppend(rest, t, now, window);
      CountAppend(Live(rest, now, window), t, lo, hi);
    }
  }

  /** Before the interval's window is over nothing from `start` on has left it. */
  lemma {:induction false} AllLive(times: seq<nat>, now: nat, window: nat, start: nat)
    requires window > 0 && now < start + window
    ensures CountFrom(Live(times, now, window), start) == CountFrom(times, start)
    decreases |times|
  {
    if times != [] {
      var (rest, t) := (times[..|times| - 1], times[|times| - 1]);
      assert times == rest + [t];
      AllLive(rest, now, window, start);
      LiveAppend(rest, t, now, window);
      CountFromAppend(rest, t, start);
      CountFromAppend(Live(rest, now, window), t, start);
      if Since(now, t) >= window {
        assert t < start;
      }
    }
  }

  /** After it, what is live is all from `start` on, and the rest has been dropped. */
  lemma {:induction false} SomeLive(times: seq<nat>, now: nat, window: nat, start: nat)
    requires window > 0 && now >= start + window
    ensures CountFrom(Live(times, now, window), start) == |Live(times, now, window)|
    ensures CountFrom(Live(times, now, window), start) + CountIn(times, start, now - window + 1)
         == CountFrom(times, start)
    decreases |times|
  {
    if times != [] {
      var (rest, t) := (times[..|times| - 1], times[|times| - 1]);
      assert times == rest + [t];
      SomeLive(rest, now, window, start);
      LiveAppend(rest, t, now, window);
      CountFromAppend(Live(rest, now, window), t, start);
    }
  }

  lemma {:induction false} CountInSplit(times: seq<nat>, lo: nat, mid: nat, hi: nat)
    requires lo <= mid <= hi
    ensures CountIn(times, lo, hi) == CountIn(times, lo, mid) + CountIn(times, mid, hi)
    decreases |times|
  {
    if times != [] {
      CountInSplit(times[..|times| - 1], lo, mid, hi);
    }
  }

  lemma {:induction false} CountsMember(times: seq<nat>, t: nat, lo: nat, hi: nat)
    requires t in times && lo <= t < hi
    ensures CountIn(times, lo, hi) >= 1
    decreases |times|
  {
    if times[|times| - 1] != t {
      assert times == times[..|times| - 1] + [times[|times| - 1]];
      CountsMember(times[..|times| - 1], t, lo, hi);
    }
  }

  lemma {:induction false} SomeFrom(times: seq<nat>, start: nat) returns (t: nat)
    requires CountFrom(times, start) >= 1
    ensures t in times && t >= start
    decreases |times|
  {
    var n := |times| - 1;
    if times[n] >= start {
      t := times[n];
    } else {
      t := SomeFrom(times[..n], start);
    }
  }

  /** The last request adds at most its own reading to a count. */
  lemma {:induction false} AcceptedCount(reqs: seq<Request>, ok: seq<bool>, n: nat, key: string, lo: nat, hi: nat)
    requires 0 < n <= |reqs| == |ok|
    ensures var (now, before) := (CountIn(Accepted(reqs, ok, n, key), lo, hi),
                                  CountIn(Accepted(reqs, ok, n - 1, key), lo, hi));
      now == before || (now == before + 1 && lo <= reqs[n - 1].at < hi)
  {
    var rest := Accepted(reqs, ok, n - 1, key);
    if ok[n - 1] && reqs[n - 1].key == key {
      CountAppend(rest, reqs[n - 1].at, lo, hi);
    } else {
      assert rest + [] == rest;
    }
  }

  /** An accepted time in an interval is a reading in it, and two are two readings. */
  lemma {:induction false} OneReading(reqs: seq<Request>, ok: seq<bool>, n: nat, key: string, lo: nat, hi: nat)
    returns (a: nat)
    requires n <= |reqs| == |ok| && CountIn(Accepted(reqs, ok, n, key), lo, hi) >= 1
    ensures a < n && lo <= reqs[a].at < hi
    decreases n
  {
    AcceptedCount(reqs, ok, n, key, lo, hi);
    if lo <= reqs[n - 1].at < hi {
      a := n - 1;
    } else {
      a := OneReading(reqs, ok, n - 1, key, lo, hi);
    }
  }

  lemma {:induction false} TwoReadings(reqs: seq<Request>, ok: seq<bool>, n: nat, key: string, lo: nat, hi: nat)
    returns (a: nat, b: nat)
    requires n <= |reqs| == |ok| && CountIn(Accepted(reqs, ok, n, key), lo, hi) >= 2
    ensures a < b < n && lo <= reqs[a].at < hi && lo <= reqs[b].at < hi
    decreases n
  {
    AcceptedCount(reqs, ok, n, key, lo, hi);
    var before := CountIn(Accepted(reqs, ok, n - 1, key), lo, hi);
    if before >= 2 {
      a, b := TwoReadings(reqs, ok, n - 1, key, lo, hi);
    } else {
      assert before == 1 && lo <= reqs[n - 1].at < hi;
      a := OneReading(reqs, ok, n - 1, key, lo, hi);
      b := n - 1;
    }
  }

  /// Readings that are not crowded keep the bound.

  /** What the bucket holds is some of what was accepted. */
  ghost predicate HeldFromAccepted(held: seq<nat>, accepted: seq<nat>) {
    forall lo: nat, hi: nat :: CountIn(held, lo, hi) <= CountIn(accepted, lo, hi)
  }

  /** Some reading from `n` on lies in the interval. */
  ghost predicate Ahead(reqs: seq<Request>, n: nat, start: nat, window: nat) {
    exists c :: n <= c < |reqs| && In(reqs[c].at, start, window)
  }

  /** The accepted times of an interval are bounded, and while it can still get more they are
      outnumbered by the times held from its start on. */
  ghost predicate Covered(l: Limits, reqs: seq<Request>, n: nat, start: nat, held: seq<nat>, accepted: seq<nat>) {
    && HeldFromAccepted(held, accepted)
    && CountIn(accepted, start, start + l.window) <= l.max
    && (Ahead(reqs, n, start, l.window) ==> CountIn(accepted, start, start + l.window) <= CountFrom(held, start))
  }

  lemma {:induction false} RefusedStep(l: Limits, reqs: seq<Request>, n: nat, start: nat,
                                       held: seq<nat>, accepted: seq<nat>)
    requires n < |reqs| && Covered(l, reqs, n, start, held, accepted)
    requires |Live(held, reqs[n].at, l.window)| >= l.max
    ensures Covered(l, reqs, n + 1, start, Live(held, reqs[n].at, l.window), accepted)
  {
    var at := reqs[n].at;
    forall lo: nat, hi: nat
      ensures CountIn(Live(held, at, l.window), lo, hi) <= CountIn(accepted, lo, hi)
    {
      LiveCounts(held, at, l.window, lo, hi);
    }
    if Ahead(reqs, n + 1, start, l.window) {
      if at < start + l.window {
        AllLive(held, at, l.window, start);
      } else {
        SomeLive(held, at, l.window, start);
      }
    }
  }

  /** At a request after the interval, at most one of its accepted times is gone, or there is at most one. */
  lemma {:induction false} AtMostOneGone(l: Limits, reqs: seq<Request>, ok: seq<bool>, key: string, n: nat, start: nat)
    requires n < |reqs| == |ok| && !Crowded(Times(reqs), l.window)
    requires Ahead(reqs, n + 1, start, l.window) && reqs[n].at >= start + l.window
    ensures var (y, accepted) := (reqs[n].at - l.window + 1, Accepted(reqs, ok, n, key));
      if y <= start + l.window then CountIn(accepted, start, y) <= 1
      else CountIn(accepted, start, start + l.window) <= 1
  {
    var y := reqs[n].at - l.window + 1;
    var hi := if y <= start + l.window then y else start + l.window;
    if CountIn(Accepted(reqs, ok, n, key), start, hi) >= 2 {
      var a, b := TwoReadings(reqs, ok, n, key, start, hi);
      var c :| n + 1 <= c < |reqs| && In(reqs[c].at, start, l.window);
      var times := Times(reqs);
      assert times[a] == reqs[a].at && times[b] == reqs[b].at && times[n] == reqs[n].at && times[c] == reqs[c].at;
      assert CrowdedAt(times, l.window, a, b, n, c, start);
    }
  }

  lemma {:induction false} AcceptedStepCounts(l: Limits, held: seq<nat>, accepted: seq<nat>, at: nat)
    requires HeldFromAccepted(held, accepted)
    ensures HeldFromAccepted(Live(held, at, l.window) + [at], accepted + [at])
  {
    forall lo: nat, hi: nat
      ensures CountIn(Live(held, at, l.window) + [at], lo, hi) <= CountIn(accepted + [at], lo, hi)
    {
      LiveCounts(held, at, l.window, lo, hi);
      CountAppend(Live(held, at, l.window), at, lo, hi);
      CountAppend(accepted, at, lo, hi);
    }
  }

  lemma {:induction false} AcceptedStep(l: Limits, reqs: seq<Request>, ok: seq<bool>, key: string, n: nat,
                                        start: nat, held: seq<nat>)
    requires n < |reqs| == |ok| && !Crowded(Times(reqs), l.window)
    requires Covered(l, reqs, n, start, held, Accepted(reqs, ok, n, key))
    requires |Live(held, reqs[n].at, l.window)| < l.max
    ensures Covered(l, reqs, n + 1, start, Live(held, reqs[n].at, l.window) + [reqs[n].at],
                    Accepted(reqs, ok, n, key) + [reqs[n].at])
  {
    var (at, accepted) := (reqs[n].at, Accepted(reqs, ok, n, key));
    var hits := Live(held, at, l.window);
    AcceptedStepCounts(l, held, accepted, at);
    CountAppend(accepted, at, start, start + l.window);
    CountFromAppend(hits, at, start);
    CountFromAtMost(hits, start);
    if at < start + l.window {
      if l.window > 0 {
        AllLive(held, at, l.window, start);
      }
      if start <= at {
        assert In(reqs[n].at, start, l.window);
        assert Ahead(reqs, n, start, l.window);
      }
    } else if Ahead(reqs, n + 1, start, l.window) {
      SomeLive(held, at, l.window, start);
      AtMostOneGone(l, reqs, ok, key, n, start);
      var y := at - l.window + 1;
      assert CountIn(held, start, y) <= CountIn(accepted, start, y);
    }
  }

  /** A prune that drops the bucket drops nothing the interval still needs. */
  lemma {:induction false} PrunedStep(l: Limits, reqs: seq<Request>, ok: seq<bool>, key: string, n: nat,
                                      start: nat, held: seq<nat>)
    requires n < |reqs| == |ok| && n >= KEY_SOFT_CAP && !PruneCrowded(Times(reqs), l.window)
    requires Covered(l, reqs, n, start, held, Accepted(reqs, ok, n, key))
    requires forall t <- held :: Since(reqs[n].at, t) >= l.window
    ensures Covered(l, reqs, n + 1, start, [], Accepted(reqs, ok, n, key))
  {
    var accepted := Accepted(reqs, ok, n, key);
    if Ahead(reqs, n + 1, start, l.window) && CountIn(accepted, start, start + l.window) >= 1 {
      var c :| n + 1 <= c < |reqs| && In(reqs[c].at, start, l.window);
      var t := SomeFrom(held, start);
      assert Since(reqs[n].at, t) >= l.window;
      var a: nat;
      if t < start + l.window {
        CountsMember(held, t, t, t + 1);
        a := OneReading(reqs, ok, n, key, t, t + 1);
      } else {
        a := OneReading(reqs, ok, n, key, start, start + l.window);
      }
      var times := Times(reqs);
      assert times[a] == reqs[a].at && times[n] == reqs[n].at && times[c] == reqs[c].at;
      assert PruneCrowdedAt(times, l.window, a, n, c, start);
    }
  }

  lemma {:induction false} CoveredStep(l: Limits, reqs: seq<Request>, key: string, held: seq<seq<nat>>,
                                       ok: seq<bool>, n: nat, start: nat)
    requires KeyRun(l, reqs, key, held, ok) && n < |reqs|
    requires !Crowded(Times(reqs), l.window) && !PruneCrowded(Times(reqs), l.window)
    requires Covered(l, reqs, n, start, held[n], Accepted(reqs, ok, n, key))
    ensures Covered(l, reqs, n + 1, start, held[n + 1], Accepted(reqs, ok, n + 1, key))
  {
    var accepted := Accepted(reqs, ok, n, key);
    assert accepted + [] == accepted;
    StepAt(l, reqs, key, held, ok, |reqs|, n);
    if reqs[n].key == key {
      if ok[n] {
        AcceptedStep(l, reqs, ok, key, n, start, held[n]);
      } else {
        RefusedStep(l, reqs, n, start, held[n], accepted);
      }
    } else {
      if held[n + 1] == held[n] {
        assert Ahead(reqs, n + 1, start, l.window) ==> Ahead(reqs, n, start, l.window);
      } else {
        PrunedStep(l, reqs, ok, key, n, start, held[n]);
      }
    }
  }

  lemma {:induction false} CoveredAtStart(l: Limits, reqs: seq<Request>, ok: seq<bool>, key: string, start: nat)
    requires |ok| == |reqs|
    ensures Covered(l, reqs, 0, start, [], Accepted(reqs, ok, 0, key))
  {
    assert Accepted(reqs, ok, 0, key) == [];
  }

  lemma {:induction false} CoveredRun(l: Limits, reqs: seq<Request>, key: string, held: seq<seq<nat>>,
                                      ok: seq<bool>, n: nat, start: nat)
    requires KeyRun(l, reqs, key, held, ok) && n <= |reqs|
    requires !Crowded(Times(reqs), l.window) && !PruneCrowded(Times(reqs), l.window)
    ensures Covered(l, reqs, n, start, held[n], Accepted(reqs, ok, n, key))
  {
    if n == 0 {
      CoveredAtStart(l, reqs, ok, key, start);
    } else {
      CoveredRun(l, reqs, key, held, ok, n - 1, start);
      CoveredStep(l, reqs, key, held, ok, n - 1, start);
    }
  }

  lemma {:induction false} UncrowdedKeepBound(l: Limits, reqs: seq<Request>, key: string, start: nat)
    requires !Crowded(Times(reqs), l.window) && !PruneCrowded(Times(reqs), l.window)
    ensures AcceptedWithin(l, reqs, key, start) <= l.max
  {
    var held := RunIsKeyRun(l, reqs, key);
    var ok := RunCode(l, reqs).1;
    CoveredRun(l, reqs, key, held, ok, |reqs|, start);
    AcceptedIs(reqs, ok, |reqs|, key);
    assert reqs[..|reqs|] == reqs && ok[..|reqs|] == ok;
  }

  /// Crowded readings break it.

  predicate OnlyOf(hits: seq<nat>, t: nat, u: nat) {
    forall n :: 0 <= n < |hits| ==> hits[n] == t || hits[n] == u
  }

  lemma {:induction false} BothGone(t: nat, u: nat, hits: seq<nat>, now: nat, window: nat)
    requires OnlyOf(hits, t, u)
    requires Since(now, t) >= window && Since(now, u) >= window
    ensures Live(hits, now, window) == []
  {
    NothingLive(hits, now, window);
  }

  lemma {:induction false} FirstTwo(l: Limits, reqs: seq<Request>, key: string, held: seq<seq<nat>>, ok: seq<bool>,
                                    a: nat, b: nat)
    requires KeyRun(l, reqs, key, held, ok) && l.max == 2 && a < b < |reqs|
    requires reqs[a].key == key && reqs[b].key == key
    requires (forall n :: 0 <= n < a ==> reqs[n].key != key) && (forall n :: a < n < b ==> reqs[n].key != key)
    ensures Accepted(reqs, ok, b + 1, key) == [reqs[a].at, reqs[b].at]
    ensures OnlyOf(held[b + 1], reqs[a].at, reqs[b].at)
  {
    FirstStays(l, reqs, key, held, ok, a, reqs[b].at);
    SecondOfKey(l, reqs, key, held, ok, a + 1, b, reqs[a].at);
    PairOf(reqs[a].at, reqs[b].at);
  }

  lemma {:induction false} PairOf(t: nat, u: nat)
    ensures [t] + [u] == [t, u]
  {
  }

  lemma {:induction false} FirstStays(l: Limits, reqs: seq<Request>, key: string, held: seq<seq<nat>>, ok: seq<bool>,
                                      a: nat, now: nat)
    requires KeyRun(l, reqs, key, held, ok) && l.max == 2 && a < |reqs| && reqs[a].key == key
    requires forall n :: 0 <= n < a ==> reqs[n].key != key
    ensures Accepted(reqs, ok, a + 1, key) == [reqs[a].at]
    ensures Live(held[a + 1], now, l.window) == [reqs[a].at] || Live(held[a + 1], now, l.window) == []
  {
    FirstOfKey(l, reqs, key, held, ok, a);
    LiveOfOne(reqs[a].at, now, l.window);
  }

  lemma {:induction false} SecondOfKey(l: Limits, reqs: seq<Request>, key: string, held: seq<seq<nat>>, ok: seq<bool>,
                                       m: nat, b: nat, t: nat)
    requires KeyRun(l, reqs, key, held, ok) && l.max == 2 && m <= b < |reqs| && reqs[b].key == key
    requires forall n :: m <= n < b ==> reqs[n].key != key
    requires Live(held[m], reqs[b].at, l.window) == [t] || Live(held[m], reqs[b].at, l.window) == []
    ensures Accepted(reqs, ok, b + 1, key) == Accepted(reqs, ok, m, key) + [reqs[b].at]
    ensures OnlyOf(held[b + 1], t, reqs[b].at)
  {
    NextOfKey(l, reqs, key, held, ok, m, b);
  }

  /** Three requests of one key under a limit of two, the first two gone by the third. */
  lemma {:induction false} ThirdReplacesBoth(l: Limits, reqs: seq<Request>, key: string, held: seq<seq<nat>>,
                                             ok: seq<bool>, a: nat, b: nat, i: nat)
    requires KeyRun(l, reqs, key, held, ok) && l.max == 2 && a < b < i < |reqs|
    requires forall n :: 0 <= n <= i ==> (reqs[n].key == key <==> n == a || n == b || n == i)
    requires Since(reqs[i].at, reqs[a].at) >= l.window && Since(reqs[i].at, reqs[b].at) >= l.window
    ensures held[i + 1] == [reqs[i].at]
    ensures Accepted(reqs, ok, i + 1, key) == [reqs[a].at, reqs[b].at, reqs[i].at]
  {
    FirstTwo(l, reqs, key, held, ok, a, b);
    BothGone(reqs[a].at, reqs[b].at, held[b + 1], reqs[i].at, l.window);
    NextAlone(l, reqs, key, held, ok, b + 1, i);
  }

  /** A fourth is accepted too. */
  lemma {:induction false} FourAccepted(l: Limits, reqs: seq<Request>, key: string, held: seq<seq<nat>>,
                                        ok: seq<bool>, a: nat, b: nat, i: nat, c: nat)
    requires KeyRun(l, reqs, key, held, ok) && l.max == 2 && a < b < i < c < |reqs|
    requires forall n :: 0 <= n < |reqs| ==> (reqs[n].key == key <==> n == a || n == b || n == i || n == c)
    requires Since(reqs[i].at, reqs[a].at) >= l.window && Since(reqs[i].at, reqs[b].at) >= l.window
    ensures Accepted(reqs, ok, |reqs|, key) == [reqs[a].at, reqs[b].at, reqs[i].at] + [reqs[c].at]
  {
    ThirdReplacesBoth(l, reqs, key, held, ok, a, b, i);
    RoomForOne(l, reqs, key, held, ok, i, c);
    HeldBetween(l, reqs, key, held, ok, c + 1, |reqs|);
  }

  lemma {:induction false} WithinIs(l: Limits, reqs: seq<Request>, key: string, start: nat, ok: seq<bool>)
    requires ok == RunCode(l, reqs).1 && |ok| == |reqs|
    ensures AcceptedWithin(l, reqs, key, start)
         == CountIn(Accepted(reqs, ok, |reqs|, key), start, start + l.window)
  {
    AcceptedIs(reqs, ok, |reqs|, key);
    assert reqs[..|reqs|] == reqs && ok[..|reqs|] == ok;
  }

  lemma {:induction false} CountOfFour(a: nat, b: nat, i: nat, c: nat, lo: nat, hi: nat)
    requires lo <= a < hi && lo <= b < hi && lo <= c < hi
    ensures CountIn([a, b, i] + [c], lo, hi) >= 3
  {
    CountOfTwo(a, b, lo, hi);
    CountAppend([a, b], i, lo, hi);
    assert [a, b] + [i] == [a, b, i];
    CountAppend([a, b, i], c, lo, hi);
  }

  lemma {:induction false} CountOfTwo(a: nat, c: nat, lo: nat, hi: nat)
    requires lo <= a < hi && lo <= c < hi
    ensures CountIn([a, c], lo, hi) == 2
  {
    CountAppend([], a, lo, hi);
    CountAppend([] + [a], c, lo, hi);
    assert [] + [a] + [c] == [a, c];
  }

  lemma {:induction false} FourWithin(l: Limits, reqs: seq<Request>, key: string, a: nat, b: nat, i: nat, c: nat, start: nat)
    requires l.max == 2 && a < b < i < c < |reqs| && CrowdedAt(Times(reqs), l.window, a, b, i, c, start)
    requires forall n :: 0 <= n < |reqs| ==> (reqs[n].key == key <==> n == a || n == b || n == i || n == c)
    ensures AcceptedWithin(l, reqs, key, start) > 2
  {
    var held := RunIsKeyRun(l, reqs, key);
    var times := Times(reqs);
    assert forall n :: 0 <= n < |reqs| ==> times[n] == reqs[n].at;
    FourAccepted(l, reqs, key, held, RunCode(l, reqs).1, a, b, i, c);
    CountOfFour(reqs[a].at, reqs[b].at, reqs[i].at, reqs[c].at, start, start + l.window);
    WithinIs(l, reqs, key, start, RunCode(l, reqs).1);
  }

  lemma {:induction false} CrowdedBreakBound(times: seq<nat>, window: nat, a: nat, b: nat, i: nat, c: nat, start: nat)
    requires a < b < i < c < |times| && CrowdedAt(times, window, a, b, i, c, start)
    ensures !BoundKept(times, window)
  {
    var reqs := TwoKeys(times, {a, b, i, c});
    FourWithin(Limits(2, window), reqs, "own", a, b, i, c, start);
  }

  /// Reaching the soft cap just before the reading that empties a bucket.

  function Name(n: nat): string {
    seq(n, _ => 'x')
  }

  function Names(q: nat): set<string> {
    if q == 0 then {} else Names(q - 1) + {Name(q - 1)}
  }

  lemma {:induction false} NamesAre(q: nat, k: string)
    ensures k in Names(q) <==> |k| < q && k == Name(|k|)
  {
    if q > 0 {
      NamesAre(q - 1, k);
    }
  }

  lemma {:induction false} NamesDiffer(m: nat, n: nat)
    ensures Name(m) == Name(n) <==> m == n
    ensures Name(m) != "own"
  {
    assert |Name(m)| == m && |Name(n)| == n;
    if m == 3 {
      assert Name(m)[0] == 'x' && "own"[0] == 'o';
    }
  }

  lemma {:induction false} CountNames(q: nat)
    ensures |Names(q)| == q && "own" !in Names(q)
  {
    if q > 0 {
      CountNames(q - 1);
      NamesAre(q - 1, Name(q - 1));
      NamesDiffer(q - 1, q - 1);
    }
  }

  /** The place of `n` among the requests before `i` that are not the one at `a`. */
  function Rank(n: nat, a: nat): nat {
    if n <= a then n else n - 1
  }

  /** The key of the `n`th request: the one key at `a` and `c`, a new one each for the last of those before
      `i`, so that the cap is reached just there, and one shared by the rest. */
  function KeyAt(n: nat, a: nat, i: nat, c: nat): string
    requires i >= KEY_SOFT_CAP
  {
    if n == a || n == c then "own"
    else if n < i && Rank(n, a) > i - KEY_SOFT_CAP then Name(Rank(n, a) - (i - KEY_SOFT_CAP))
    else Name(0)
  }

  function ManyKeys(times: seq<nat>, a: nat, i: nat, c: nat): (reqs: seq<Request>)
    requires i >= KEY_SOFT_CAP
    ensures Times(reqs) == times
  {
    seq(|times|, n requires 0 <= n < |times| => Request(KeyAt(n, a, i, c), times[n]))
  }

  function KeysBefore(reqs: seq<Request>, n: nat): set<string>
    requires n <= |reqs|
  {
    if n == 0 then {} else KeysBefore(reqs, n - 1) + {reqs[n - 1].key}
  }

  lemma {:induction false} KeysBeforeAre(reqs: seq<Request>, n: nat, k: string)
    requires n <= |reqs|
    ensures k in KeysBefore(reqs, n) <==> exists m :: 0 <= m < n && reqs[m].key == k
  {
    if n > 0 {
      KeysBeforeAre(reqs, n - 1, k);
    }
  }

  lemma {:induction false} LastKeyIsNew(a: nat, i: nat, c: nat, n: nat)
    requires KEY_SOFT_CAP <= i < c && a < i && n < i - 1
    ensures KeyAt(n, a, i, c) != KeyAt(i - 1, a, i, c)
  {
    NamesDiffer(0, KEY_SOFT_CAP - 2);
    if n != a && i - 1 != a {
      assert Rank(i - 1, a) == i - 2;
      assert KeyAt(i - 1, a, i, c) == Name(KEY_SOFT_CAP - 2);
      if Rank(n, a) > i - KEY_SOFT_CAP {
        NamesDiffer(Rank(n, a) - (i - KEY_SOFT_CAP), KEY_SOFT_CAP - 2);
      }
    } else if n != a {
      if Rank(n, a) > i - KEY_SOFT_CAP {
        NamesDiffer(Rank(n, a) - (i - KEY_SOFT_CAP), 0);
      }
    }
  }

  lemma {:induction false} KeyIsKnown(a: nat, i: nat, c: nat, n: nat)
    requires KEY_SOFT_CAP <= i < c && a < i && n < i
    ensures KeyAt(n, a, i, c) in Names(KEY_SOFT_CAP - 1) + {"own"}
  {
    if n != a && Rank(n, a) > i - KEY_SOFT_CAP {
      var m := Rank(n, a) - (i - KEY_SOFT_CAP);
      assert 0 <= m < KEY_SOFT_CAP - 1;
      NamesAre(KEY_SOFT_CAP - 1, Name(m));
    } else if n != a {
      NamesAre(KEY_SOFT_CAP - 1, Name(0));
    }
  }

  lemma {:induction false} NameIsUsed(a: nat, i: nat, c: nat, m: nat) returns (n: nat)
    requires KEY_SOFT_CAP <= i < c && a < i && m < KEY_SOFT_CAP - 1
    ensures n < i && KeyAt(n, a, i, c) == Name(m)
  {
    var r := i - KEY_SOFT_CAP + m;
    n := if r < a then r else r + 1;
    assert n != a && n != c && Rank(n, a) == r;
  }

  lemma {:induction false} KeysWithin(reqs: seq<Request>, n: nat, all: set<string>)
    requires n <= |reqs| && forall m :: 0 <= m < n ==> reqs[m].key in all
    ensures KeysBefore(reqs, n) <= all
  {
    if n > 0 {
      KeysWithin(reqs, n - 1, all);
    }
  }

  function AllKeys(): set<string> {
    Names(KEY_SOFT_CAP - 1) + {"own"}
  }

  lemma {:induction false} CountAllKeys()
    ensures |AllKeys()| == KEY_SOFT_CAP
  {
    CountNames(KEY_SOFT_CAP - 1);
  }

  lemma {:induction false} AllKeysUsed(times: seq<nat>, a: nat, i: nat, c: nat, k: string)
    requires KEY_SOFT_CAP <= i < c < |times| && a < i && k in AllKeys()
    ensures k in KeysBefore(ManyKeys(times, a, i, c), i)
  {
    var reqs := ManyKeys(times, a, i, c);
    KeysBeforeAre(reqs, i, k);
    if k == "own" {
      assert reqs[a].key == k;
    } else {
      NamesAre(KEY_SOFT_CAP - 1, k);
      var n := NameIsUsed(a, i, c, |k|);
      assert reqs[n].key == k;
    }
  }

  /** Just before `i` the keys fill the cap. */
  lemma {:induction false} CapReachedAt(times: seq<nat>, a: nat, i: nat, c: nat)
    requires KEY_SOFT_CAP <= i < c < |times| && a < i
    ensures |KeysBefore(ManyKeys(times, a, i, c), i)| >= KEY_SOFT_CAP
  {
    var reqs := ManyKeys(times, a, i, c);
    CountAllKeys();
    forall k | k in AllKeys()
      ensures k in KeysBefore(reqs, i)
    {
      AllKeysUsed(times, a, i, c, k);
    }
    Smaller(AllKeys(), KeysBefore(reqs, i));
  }

  /** One request earlier they did not. */
  lemma {:induction false} CapNotReachedBefore(times: seq<nat>, a: nat, i: nat, c: nat)
    requires KEY_SOFT_CAP <= i < c < |times| && a < i
    ensures |KeysBefore(ManyKeys(times, a, i, c), i - 1)| < KEY_SOFT_CAP
  {
    var reqs := ManyKeys(times, a, i, c);
    var last := KeyAt(i - 1, a, i, c);
    CountAllKeys();
    KeyIsKnown(a, i, c, i - 1);
    forall n | 0 <= n < i - 1
      ensures reqs[n].key in AllKeys() - {last}
    {
      KeyIsKnown(a, i, c, n);
      LastKeyIsNew(a, i, c, n);
    }
    KeysWithin(reqs, i - 1, AllKeys() - {last});
    Smaller(KeysBefore(reqs, i - 1), AllKeys() - {last});
  }

  lemma {:induction false} KeysGrow(reqs: seq<Request>, m: nat, n: nat)
    requires m <= n <= |reqs|
    ensures KeysBefore(reqs, m) <= KeysBefore(reqs, n)
  {
    if m < n {
      KeysGrow(reqs, m, n - 1);
    }
  }

  lemma {:induction false} KeysStep(l: Limits, reqs: seq<Request>, n: nat, known: set<string>)
    requires n < |reqs| && RunCode(l, reqs[..n]).0.Keys == known && |known| < KEY_SOFT_CAP
    ensures RunCode(l, reqs[..n + 1]).0.Keys == known + {reqs[n].key}
  {
    var b := RunCode(l, reqs[..n]).0;
    assert |b| == |b.Keys|;
    assert reqs[..n + 1][..n] == reqs[..n];
    CheckSize(l, b, reqs[n].key, reqs[n].at);
  }

  /** Below the cap nothing is pruned: the buckets are those of all keys so far. */
  lemma {:induction false} BucketsOfAllKeys(l: Limits, reqs: seq<Request>, n: nat)
    requires n <= |reqs| && (n > 0 ==> |KeysBefore(reqs, n - 1)| < KEY_SOFT_CAP)
    ensures RunCode(l, reqs[..n]).0.Keys == KeysBefore(reqs, n)
    decreases n
  {
    if n > 0 {
      if n > 1 {
        KeysGrow(reqs, n - 2, n - 1);
        Smaller(KeysBefore(reqs, n - 2), KeysBefore(reqs, n - 1));
      }
      BucketsOfAllKeys(l, reqs, n - 1);
      KeysStep(l, reqs, n - 1, KeysBefore(reqs, n - 1));
    }
  }

  lemma {:induction false} PruneEmpties(l: Limits, b: Buckets, key: string, at: nat, other: string, t: nat)
    requires |b| >= KEY_SOFT_CAP && key != other && Since(at, t) >= l.window
    requires Bucket(b, other) == [t] || Bucket(b, other) == []
    ensures Bucket(Check(l, b, key, at).0, other) == []
  {
  }

  /** One request of the key, gone by the time another key's request prunes. */
  lemma {:induction false} EmptiedByPrune(l: Limits, reqs: seq<Request>, key: string, held: seq<seq<nat>>,
                                          ok: seq<bool>, a: nat, i: nat)
    requires KeyRun(l, reqs, key, held, ok) && HeldIs(l, reqs, key, held) && l.max >= 1 && a < i < |reqs|
    requires forall n :: 0 <= n <= i ==> (reqs[n].key == key <==> n == a)
    requires Since(reqs[i].at, reqs[a].at) >= l.window && |RunCode(l, reqs[..i]).0| >= KEY_SOFT_CAP
    ensures held[i + 1] == [] && Accepted(reqs, ok, i + 1, key) == [reqs[a].at]
  {
    OneThenQuiet(l, reqs, key, held, ok, a, i);
    OneThenQuiet(l, reqs, key, held, ok, a, i + 1);
    PruneStep(l, reqs, key, i, reqs[a].at);
  }

  lemma {:induction false} OneThenQuiet(l: Limits, reqs: seq<Request>, key: string, held: seq<seq<nat>>,
                                        ok: seq<bool>, a: nat, n: nat)
    requires KeyRun(l, reqs, key, held, ok) && l.max >= 1 && a < n <= |reqs|
    requires forall k :: 0 <= k < n ==> (reqs[k].key == key <==> k == a)
    ensures held[n] == [reqs[a].at] || held[n] == []
    ensures Accepted(reqs, ok, n, key) == [reqs[a].at]
  {
    FirstOfKey(l, reqs, key, held, ok, a);
    HeldBetween(l, reqs, key, held, ok, a + 1, n);
  }

  lemma {:induction false} PruneStep(l: Limits, reqs: seq<Request>, key: string, i: nat, t: nat)
    requires i < |reqs| && reqs[i].key != key && |RunCode(l, reqs[..i]).0| >= KEY_SOFT_CAP
    requires Bucket(RunCode(l, reqs[..i]).0, key) == [t] || Bucket(RunCode(l, reqs[..i]).0, key) == []
    requires Since(reqs[i].at, t) >= l.window
    ensures Bucket(RunCode(l, reqs[..i + 1]).0, key) == []
  {
    assert reqs[..i + 1][..i] == reqs[..i];
    PruneEmpties(l, RunCode(l, reqs[..i]).0, reqs[i].key, reqs[i].at, key, t);
  }

  lemma {:induction false} NotOwn(a: nat, i: nat, c: nat, n: nat)
    requires i >= KEY_SOFT_CAP && n != a && n != c
    ensures KeyAt(n, a, i, c) != "own"
  {
    NamesDiffer(0, 0);
    if n < i && Rank(n, a) > i - KEY_SOFT_CAP {
      NamesDiffer(Rank(n, a) - (i - KEY_SOFT_CAP), 0);
    }
  }

  /** A second request of the key after that is accepted, with the limit at one. */
  lemma {:induction false} TwoAccepted(l: Limits, reqs: seq<Request>, key: string, held: seq<seq<nat>>,
                                       ok: seq<bool>, a: nat, i: nat, c: nat)
    requires KeyRun(l, reqs, key, held, ok) && HeldIs(l, reqs, key, held) && l.max == 1 && a < i < c < |reqs|
    requires forall n :: 0 <= n < |reqs| ==> (reqs[n].key == key <==> n == a || n == c)
    requires Since(reqs[i].at, reqs[a].at) >= l.window && |RunCode(l, reqs[..i]).0| >= KEY_SOFT_CAP
    ensures Accepted(reqs, ok, |reqs|, key) == [reqs[a].at] + [reqs[c].at]
  {
    EmptiedByPrune(l, reqs, key, held, ok, a, i);
    LastAlone(l, reqs, key, held, ok, i + 1, c);
  }

  lemma {:induction false} LastAlone(l: Limits, reqs: seq<Request>, key: string, held: seq<seq<nat>>,
                                     ok: seq<bool>, m: nat, c: nat)
    requires KeyRun(l, reqs, key, held, ok) && m <= c < |reqs| && reqs[c].key == key && l.max >= 1
    requires forall n :: m <= n < |reqs| && n != c ==> reqs[n].key != key
    requires held[m] == []
    ensures Accepted(reqs, ok, |reqs|, key) == Accepted(reqs, ok, m, key) + [reqs[c].at]
  {
    NextAlone(l, reqs, key, held, ok, m, c);
    HeldBetween(l, reqs, key, held, ok, c + 1, |reqs|);
  }

  lemma {:induction false} TwoWithin(l: Limits, reqs: seq<Request>, key: string, a: nat, i: nat, c: nat, start: nat)
    requires l.max == 1 && a < i < c < |reqs| && PruneCrowdedAt(Times(reqs), l.window, a, i, c, start)
    requires forall n :: 0 <= n < |reqs| ==> (reqs[n].key == key <==> n == a || n == c)
    requires |RunCode(l, reqs[..i]).0| >= KEY_SOFT_CAP
    ensures AcceptedWithin(l, reqs, key, start) > 1
  {
    var held := RunIsKeyRun(l, reqs, key);
    var times := Times(reqs);
    assert forall n :: 0 <= n < |reqs| ==> times[n] == reqs[n].at;
    TwoAccepted(l, reqs, key, held, RunCode(l, reqs).1, a, i, c);
    CountOfTwo(reqs[a].at, reqs[c].at, start, start + l.window);
    assert [reqs[a].at] + [reqs[c].at] == [reqs[a].at, reqs[c].at];
    WithinIs(l, reqs, key, start, RunCode(l, reqs).1);
  }

  lemma {:induction false} PruneCrowdedBreakBound(times: seq<nat>, window: nat, a: nat, i: nat, c: nat, start: nat)
    requires a < i < c < |times| && PruneCrowdedAt(times, window, a, i, c, start)
    ensures !BoundKept(times, window)
  {
    var l := Limits(1, window);
    var reqs := ManyKeys(times, a, i, c);
    forall n | 0 <= n < |reqs|
      ensures reqs[n].key == "own" <==> n == a || n == c
    {
      if n != a && n != c {
        NotOwn(a, i, c, n);
      }
    }
    CapReachedAt(times, a, i, c);
    CapNotReachedBefore(times, a, i, c);
    BucketsOfAllKeys(l, reqs, i);
    assert |RunCode(l, reqs[..i]).0| == |RunCode(l, reqs[..i]).0.Keys|;
    TwoWithin(l, reqs, "own", a, i, c, start);
  }

  /** The bound is kept, for every limit and every choice of keys, if and only if no two readings that
      have left the window at a later one share an interval of its length with a reading later still, and
      none does where enough requests came before for the prune of idle keys to run. */
  lemma {:induction false} BoundKeptIffUncrowded(times: seq<nat>, window: nat)
    ensures BoundKept(times, window) <==> !Crowded(times, window) && !PruneCrowded(times, window)
  {
    if Crowded(times, window) {
      var a, b, i, c, start: nat :| 0 <= a < b < i < c < |times| && CrowdedAt(times, window, a, b, i, c, start);
      CrowdedBreakBound(times, window, a, b, i, c, start);
    } else if PruneCrowded(times, window) {
      var a, i, c, start: nat :| 0 <= a < i < c < |times| && PruneCrowdedAt(times, window, a, i, c, start);
      PruneCrowdedBreakBound(times, window, a, i, c, start);
    } else {
      forall max: nat, reqs: seq<Request>, key: string, start: nat | Times(reqs) == times
        ensures AcceptedWithin(Limits(max, window), reqs, key, start) <= max
      {
        UncrowdedKeepBound(Limits(max, window), reqs, key, start);
      }
    }
  }

  /** An example: two requests in ten time units are allowed, and read at 0, 1, 100 and 2 the code accepts
      three between 0 and 10. */
  lemma {:induction false} OutOfOrderClockBreaksTheBound()
    ensures !BoundKept([0, 1, 100, 2], 10)
  {
    assert CrowdedAt([0, 1, 100, 2], 10, 0, 1, 2, 3, 0);
    BoundKeptIffUncrowded([0, 1, 100, 2], 10);
  }
}
