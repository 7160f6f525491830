/** The sliding-window rate limiter, and the limiter that keeps every accepted request for ever. */
module RateLimit {
  import opened Clock
  import opened Seqs

  const KEY_SOFT_CAP := 65_536

  /** The times still inside the window. */
  function Live(hits: seq<nat>, now: nat, window: nat): seq<nat> {
    if hits == [] then [] else
      var n := |hits| - 1;
      Live(hits[..n], now, window) + if Since(now, hits[n]) < window then [hits[n]] else []
  }

  type Buckets = map<string, seq<nat>>

  function Bucket(b: Buckets, key: string): seq<nat> {
    if key in b then b[key] else []
  }

  datatype Limits = Limits(max: nat, window: nat)

  /** Above the cap on keys, the keys with nothing left in their window go. */
  function SoftPrune(l: Limits, b: Buckets, now: nat): Buckets {
    if |b| >= KEY_SOFT_CAP then
      map k | k in b && exists i :: 0 <= i < |b[k]| && Since(now, b[k][i]) < l.window :: b[k]
    else b
  }

  function Check(l: Limits, b: Buckets, key: string, now: nat): (Buckets, bool) {
    var pruned := SoftPrune(l, b, now);
    var hits := Live(Bucket(pruned, key), now, l.window);
    if |hits| >= l.max then (pruned[key := hits], false) else (pruned[key := hits + [now]], true)
  }

  class RateLimiter {
    const limits: Limits
    var buckets: Buckets

    constructor (maxRequests: nat, window: nat)
      ensures limits == Limits(if maxRequests < 1 then 1 else maxRequests, window) && buckets == map[]
    {
      limits := Limits(if maxRequests < 1 then 1 else maxRequests, window);
      buckets := map[];
    }

    method PruneIdleKeys(now: nat)
      modifies this
      ensures buckets == SoftPrune(limits, old(buckets), now)
    {
      if |buckets| >= KEY_SOFT_CAP {
        buckets := map k | k in buckets && exists i :: 0 <= i < |buckets[k]| && Since(now, buckets[k][i]) < limits.window :: buckets[k];
      }
    }

    method CheckAt(key: string, now: nat) returns (ok: bool)
      modifies this
      ensures (buckets, ok) == Check(limits, old(buckets), key, now)
    {
      PruneIdleKeys(now);
      ghost var pruned := buckets;
      if key !in buckets {
        buckets := buckets[key := []];
      }
      var hits := Live(buckets[key], now, limits.window);
      ok := |hits| < limits.max;
      if ok {
        hits := hits + [now];
      }
      buckets := buckets[key := hits];
      assert buckets == pruned[key := hits];
    }
  }

  /// Runs of the code, and of the rule on the whole history.

  datatype Request = Request(key: string, at: nat)

  function RunCode(l: Limits, reqs: seq<Request>): (Buckets, seq<bool>) {
    if reqs == [] then (map[], []) else
      var n := |reqs| - 1;
      var (b, decisions) := RunCode(l, reqs[..n]);
      var (b', ok) := Check(l, b, reqs[n].key, reqs[n].at);
      (b', decisions + [ok])
  }

  /** The times of the accepted requests of one key. */
  function AcceptedTimes(reqs: seq<Request>, decisions: seq<bool>, key: string): seq<nat>
    requires |decisions| == |reqs|
  {
    if reqs == [] then [] else
      var n := |reqs| - 1;
      AcceptedTimes(reqs[..n], decisions[..n], key) + if decisions[n] && reqs[n].key == key then [reqs[n].at] else []
  }

  /** The rule: accept while fewer than `max` accepted requests of the key lie within the window. */
  function RunRule(l: Limits, reqs: seq<Request>): (decisions: seq<bool>)
    ensures |decisions| == |reqs|
  {
    if reqs == [] then [] else
      var n := |reqs| - 1;
      var before := RunRule(l, reqs[..n]);
      before + [|Live(AcceptedTimes(reqs[..n], before, reqs[n].key), reqs[n].at, l.window)| < l.max]
  }

  function Times(reqs: seq<Request>): seq<nat> {
    seq(|reqs|, i requires 0 <= i < |reqs| => reqs[i].at)
  }

  predicate Nondecreasing(reqs: seq<Request>) {
    forall i, j :: 0 <= i < j < |reqs| ==> reqs[i].at <= reqs[j].at
  }

  /** A reading that has left the window at one later reading is back inside it at one still later. */
  ghost predicate Revives(times: seq<nat>, window: nat) {
    exists k, i, j :: 0 <= k < i < j < |times|
      && Since(times[i], times[k]) >= window && Since(times[j], times[k]) < window
  }

  /** What had left the window at some reading is out of it at `later` too. */
  ghost predicate StayGone(reqs: seq<Request>, later: nat, window: nat) {
    forall k, i :: 0 <= k < i < |reqs| && Since(reqs[i].at, reqs[k].at) >= window ==>
      Since(later, reqs[k].at) >= window
  }

  lemma {:induction false} LiveAppend(hits: seq<nat>, t: nat, now: nat, window: nat)
    ensures Live(hits + [t], now, window) == Live(hits, now, window) + if Since(now, t) < window then [t] else []
    ensures Since(now, t) >= window ==> Live(hits + [t], now, window) == Live(hits, now, window)
  {
    assert (hits + [t])[..|hits|] == hits;
  }

  /** Filtering twice is filtering by the later time, for times that do not come back into the window. */
  lemma {:induction false} LiveLater(hits: seq<nat>, now: nat, later: nat, window: nat)
    requires forall t <- hits :: Since(now, t) >= window ==> Since(later, t) >= window
    ensures Live(Live(hits, now, window), later, window) == Live(hits, later, window)
    decreases |hits|
  {
    if hits != [] {
      var (rest, t) := (hits[..|hits| - 1], hits[|hits| - 1]);
      assert hits == rest + [t];
      LiveLater(rest, now, later, window);
      LiveAppend(rest, t, now, window);
      LiveAppend(rest, t, later, window);
      LiveAppend(Live(rest, now, window), t, later, window);
      assert t in hits;
    }
  }

  lemma {:induction false} NothingLive(hits: seq<nat>, now: nat, window: nat)
    requires forall i :: 0 <= i < |hits| ==> Since(now, hits[i]) >= window
    ensures Live(hits, now, window) == []
    decreases |hits|
  {
    if hits != [] { NothingLive(hits[..|hits| - 1], now, window); }
  }

  /** The prune drops no bucket that matters from now on, as long as no time in it comes back. */
  lemma {:induction false} SoftPruneHarmless(l: Limits, b: Buckets, key: string, now: nat, later: nat)
    requires forall t <- Bucket(b, key) :: Since(now, t) >= l.window ==> Since(later, t) >= l.window
    ensures Live(Bucket(SoftPrune(l, b, now), key), later, l.window) == Live(Bucket(b, key), later, l.window)
  {
    if key in b && key !in SoftPrune(l, b, now) {
      assert forall i :: 0 <= i < |b[key]| ==> b[key][i] in b[key];
      NothingLive(b[key], later, l.window);
    }
  }

  lemma {:induction false} LiveEmptyMeansGone(hits: seq<nat>, now: nat, window: nat)
    requires Live(hits, now, window) == []
    ensures forall t <- hits :: Since(now, t) >= window
    decreases |hits|
  {
    if hits != [] {
      LiveEmptyMeansGone(hits[..|hits| - 1], now, window);
      assert hits == hits[..|hits| - 1] + [hits[|hits| - 1]];
    }
  }

  lemma {:induction false} AcceptedAppend(reqs: seq<Request>, decisions: seq<bool>, r: Request, d: bool, key: string)
    requires |decisions| == |reqs|
    ensures AcceptedTimes(reqs + [r], decisions + [d], key)
         == AcceptedTimes(reqs, decisions, key) + if d && r.key == key then [r.at] else []
  {
    assert (reqs + [r])[..|reqs|] == reqs && (decisions + [d])[..|reqs|] == decisions;
  }

  lemma {:induction false} AcceptedAreReadings(reqs: seq<Request>, decisions: seq<bool>, key: string)
    requires |decisions| == |reqs|
    ensures forall t <- AcceptedTimes(reqs, decisions, key) :: exists k :: 0 <= k < |reqs| && reqs[k].at == t
    decreases |reqs|
  {
    if reqs != [] {
      var n := |reqs| - 1;
      AcceptedAreReadings(reqs[..n], decisions[..n], key);
      forall t <- AcceptedTimes(reqs, decisions, key)
        ensures exists k :: 0 <= k < |reqs| && reqs[k].at == t
      {
        if t in AcceptedTimes(reqs[..n], decisions[..n], key) {
          var k :| 0 <= k < n && reqs[..n][k].at == t;
          assert reqs[k].at == t;
        } else {
          assert reqs[n].at == t;
        }
      }
    }
  }

  /** A prune leaves a bucket, seen from `now` and from `later`, as the history has it. */
  lemma {:induction false} PruneFollowsHistory(l: Limits, b: Buckets, key: string, times: seq<nat>, now: nat, later: nat)
    requires forall t <- times :: Since(now, t) >= l.window ==> Since(later, t) >= l.window
    requires Live(Bucket(b, key), now, l.window) == Live(times, now, l.window)
    requires Live(Bucket(b, key), later, l.window) == Live(times, later, l.window)
    ensures Live(Bucket(SoftPrune(l, b, now), key), now, l.window) == Live(times, now, l.window)
    ensures Live(Bucket(SoftPrune(l, b, now), key), later, l.window) == Live(times, later, l.window)
  {
    SoftPruneHarmless(l, b, key, now, now);
    if key in b && key !in SoftPrune(l, b, now) {
      NothingLive(b[key], now, l.window);
      LiveEmptyMeansGone(times, now, l.window);
      assert forall i :: 0 <= i < |times| ==> times[i] in times;
      NothingLive(times, later, l.window);
    }
  }

  /** One check leaves every bucket, seen from any later reading, as the accepted history has it. */
  lemma {:induction false} CheckFollowsHistory(l: Limits, b: Buckets, r: Request, key: string, times: seq<nat>, later: nat)
    requires forall t <- times :: Since(r.at, t) >= l.window ==> Since(later, t) >= l.window
    requires Live(Bucket(b, key), r.at, l.window) == Live(times, r.at, l.window)
    requires Live(Bucket(b, key), later, l.window) == Live(times, later, l.window)
    ensures var (b', ok) := Check(l, b, r.key, r.at);
      && Live(Bucket(b', key), later, l.window) == Live(times + if ok && r.key == key then [r.at] else [], later, l.window)
      && (r.key == key ==> (ok <==> |Live(times, r.at, l.window)| < l.max))
  {
    PruneFollowsHistory(l, b, key, times, r.at, later);
    assert times + [] == times;
    if r.key == key {
      var hits := Live(times, r.at, l.window);
      LiveLater(times, r.at, later, l.window);
      LiveAppend(hits, r.at, later, l.window);
      LiveAppend(times, r.at, later, l.window);
    }
  }

  lemma {:induction false} PrefixStaysGone(reqs: seq<Request>, r: Request, later: nat, window: nat)
    requires StayGone(reqs + [r], later, window) && !Revives(Times(reqs + [r]), window)
    ensures StayGone(reqs, later, window) && StayGone(reqs, r.at, window) && !Revives(Times(reqs), window)
    ensures forall k :: 0 <= k < |reqs| ==>
      Since(r.at, reqs[k].at) >= window ==> Since(later, reqs[k].at) >= window
  {
    var all, times, prior := reqs + [r], Times(reqs + [r]), Times(reqs);
    assert forall i :: 0 <= i < |reqs| ==> all[i] == reqs[i] && times[i] == prior[i] == reqs[i].at;
    assert all[|reqs|] == r && times[|reqs|] == r.at;
  }

  lemma {:induction false} CodeFollowsHistory(l: Limits, reqs: seq<Request>, key: string, later: nat)
    requires !Revives(Times(reqs), l.window) && StayGone(reqs, later, l.window)
    ensures var (b, decisions) := RunCode(l, reqs);
      && decisions == RunRule(l, reqs)
      && Live(Bucket(b, key), later, l.window) == Live(AcceptedTimes(reqs, decisions, key), later, l.window)
    decreases |reqs|
  {
    if reqs != [] {
      var n := |reqs| - 1;
      var (before, r) := (reqs[..n], reqs[n]);
      var (b, decisions) := RunCode(l, before);
      assert reqs == before + [r];
      PrefixStaysGone(before, r, later, l.window);
      CodeFollowsHistory(l, before, key, later);
      CodeFollowsHistory(l, before, key, r.at);
      CodeFollowsHistory(l, before, r.key, r.at);
      OneMoreFollows(l, before, r, key, later, b, decisions);
    }
  }

  lemma {:induction false} OneMoreFollows(l: Limits, before: seq<Request>, r: Request, key: string, later: nat,
                                          b: Buckets, decisions: seq<bool>)
    requires |decisions| == |before|
    requires forall k :: 0 <= k < |before| ==>
      Since(r.at, before[k].at) >= l.window ==> Since(later, before[k].at) >= l.window
    requires Live(Bucket(b, key), r.at, l.window) == Live(AcceptedTimes(before, decisions, key), r.at, l.window)
    requires Live(Bucket(b, key), later, l.window) == Live(AcceptedTimes(before, decisions, key), later, l.window)
    requires Live(Bucket(b, r.key), r.at, l.window) == Live(AcceptedTimes(before, decisions, r.key), r.at, l.window)
    ensures var (b', ok) := Check(l, b, r.key, r.at);
      && (ok <==> |Live(AcceptedTimes(before, decisions, r.key), r.at, l.window)| < l.max)
      && Live(Bucket(b', key), later, l.window)
         == Live(AcceptedTimes(before + [r], decisions + [ok], key), later, l.window)
  {
    AcceptedAreReadings(before, decisions, key);
    AcceptedAreReadings(before, decisions, r.key);
    CheckFollowsHistory(l, b, r, key, AcceptedTimes(before, decisions, key), later);
    CheckFollowsHistory(l, b, r, r.key, AcceptedTimes(before, decisions, r.key), r.at);
    AcceptedAppend(before, decisions, r, Check(l, b, r.key, r.at).1, key);
  }

  /** For readings none of which comes back into the window, the limiter decides every request as the
      rule does on the whole history, whatever the prunes dropped. */
  lemma {:induction false} LimiterIsExact(l: Limits, reqs: seq<Request>)
    requires !Revives(Times(reqs), l.window)
    ensures RunCode(l, reqs).1 == RunRule(l, reqs)
  {
    CodeFollowsHistory(l, reqs, "", Latest(reqs) + l.window);
  }

  function Latest(reqs: seq<Request>): (t: nat)
    ensures forall r <- reqs :: r.at <= t
  {
    if reqs == [] then 0 else
      var (t, last) := (Latest(reqs[..|reqs| - 1]), reqs[|reqs| - 1].at);
      assert forall r <- reqs :: r in reqs[..|reqs| - 1] || r == reqs[|reqs| - 1];
      if t >= last then t else last
  }

  /** A clock that does not run backwards brings nothing back. */
  lemma {:induction false} OrderedClockRevivesNothing(reqs: seq<Request>, window: nat)
    requires Nondecreasing(reqs)
    ensures !Revives(Times(reqs), window)
  {
    var times := Times(reqs);
    assert forall i, j :: 0 <= i < j < |times| ==> times[i] <= times[j] by {
      assert forall i :: 0 <= i < |times| ==> times[i] == reqs[i].at;
    }
  }

  /** How many times lie in the interval from `start` up to but not including `end`. */
  function CountIn(times: seq<nat>, start: nat, end: nat): nat {
    if times == [] then 0 else
      var n := |times| - 1;
      CountIn(times[..n], start, end) + if start <= times[n] < end then 1 else 0
  }

  lemma {:induction false} CountAtMostLive(times: seq<nat>, start: nat, now: nat, window: nat)
    requires now < start + window
    ensures CountIn(times, start, start + window) <= |Live(times, now, window)|
    decreases |times|
  {
    if times != [] {
      CountAtMostLive(times[..|times| - 1], start, now, window);
    }
  }

  lemma {:induction false} CountAppend(times: seq<nat>, t: nat, start: nat, end: nat)
    ensures CountIn(times + [t], start, end) == CountIn(times, start, end) + if start <= t < end then 1 else 0
  {
    assert (times + [t])[..|times|] == times;
  }

  lemma {:induction false} WindowBoundStep(l: Limits, before: seq<Request>, r: Request, key: string, start: nat)
    requires CountIn(AcceptedTimes(before, RunRule(l, before), key), start, start + l.window) <= l.max
    ensures CountIn(AcceptedTimes(before + [r], RunRule(l, before + [r]), key), start, start + l.window) <= l.max
  {
    var decisions := RunRule(l, before);
    var times := AcceptedTimes(before, decisions, key);
    var d := |Live(AcceptedTimes(before, decisions, r.key), r.at, l.window)| < l.max;
    assert (before + [r])[..|before|] == before;
    assert RunRule(l, before + [r]) == decisions + [d];
    AcceptedAppend(before, decisions, r, d, key);
    if d && r.key == key {
      BoundStays(times, r.at, start, l);
    } else {
      assert times + [] == times;
    }
  }

  lemma {:induction false} BoundStays(times: seq<nat>, t: nat, start: nat, l: Limits)
    requires CountIn(times, start, start + l.window) <= l.max && |Live(times, t, l.window)| < l.max
    ensures CountIn(times + [t], start, start + l.window) <= l.max
  {
    CountAppend(times, t, start, start + l.window);
    if start <= t < start + l.window {
      CountAtMostLive(times, start, t, l.window);
    }
  }

  /** By the rule every interval as long as the window holds at most `max` acceptances of a key,
      whatever the clock does. */
  lemma {:induction false} WindowBound(l: Limits, reqs: seq<Request>, key: string, start: nat)
    ensures CountIn(AcceptedTimes(reqs, RunRule(l, reqs), key), start, start + l.window) <= l.max
    decreases |reqs|
  {
    if reqs != [] {
      var (front, last) := (reqs[..|reqs| - 1], reqs[|reqs| - 1]);
      FrontAndLast(reqs);
      WindowBound(l, front, key, start);
      WindowBoundStep(l, front, last, key, start);
    }
  }

  lemma {:induction false} LiveNotLonger(hits: seq<nat>, now: nat, window: nat)
    ensures |Live(hits, now, window)| <= |hits|
    decreases |hits|
  {
    if hits != [] { LiveNotLonger(hits[..|hits| - 1], now, window); }
  }

  /** No stored bucket is ever empty or longer than the limit, whatever the clock does. */
  lemma {:induction false} BucketsStayBounded(l: Limits, reqs: seq<Request>)
    requires l.max >= 1
    ensures forall k :: k in RunCode(l, reqs).0 ==> 1 <= |RunCode(l, reqs).0[k]| <= l.max
    decreases |reqs|
  {
    if reqs != [] {
      var n := |reqs| - 1;
      BucketsStayBounded(l, reqs[..n]);
      var (b, _) := RunCode(l, reqs[..n]);
      LiveNotLonger(Bucket(SoftPrune(l, b, reqs[n].at), reqs[n].key), reqs[n].at, l.window);
    }
  }
}
