/** The rate limiter under a clock whose readings arrive in any order: exactly which lists of readings
    it decides as the rule does, and exactly which keep the bound per window. */
module RateLimitClock {
  import opened Clock
  import opened RateLimit
  import opened Sets

  /// What a run looks like to one key.

  /** A request of the key: what is live stays, and the request joins it if there is room. */
  predicate OwnStep(l: Limits, at: nat, before: seq<nat>, ok: bool, after: seq<nat>) {
    var hits := Live(before, at, l.window);
    (ok <==> |hits| < l.max) && after == if ok then hits + [at] else hits
  }

  /** A request of another key, after `n` requests: the bucket stays, or a prune drops it with nothing live. */
  predicate OtherStep(l: Limits, at: nat, n: nat, before: seq<nat>, after: seq<nat>) {
    after == before || (after == [] && n >= KEY_SOFT_CAP && forall t <- before :: Since(at, t) >= l.window)
  }

  /** `held[n]` is the bucket of the key after `n` requests, `ok` the decisions. */
  predicate KeyRun(l: Limits, reqs: seq<Request>, key: string, held: seq<seq<nat>>, ok: seq<bool>) {
    |held| == |reqs| + 1 && |ok| == |reqs| && held[0] == [] && Steps(l, reqs, key, held, ok, |reqs|)
  }

  predicate Steps(l: Limits, reqs: seq<Request>, key: string, held: seq<seq<nat>>, ok: seq<bool>, n: nat)
    requires n <= |reqs| == |ok| && |held| == |reqs| + 1
  {
    n == 0 || (Steps(l, reqs, key, held, ok, n - 1) && Step(l, reqs, key, held, ok, n - 1))
  }

  predicate Step(l: Limits, reqs: seq<Request>, key: string, held: seq<seq<nat>>, ok: seq<bool>, n: nat)
    requires n < |reqs| == |ok| && |held| == |reqs| + 1
  {
    && (reqs[n].key == key ==> OwnStep(l, reqs[n].at, held[n], ok[n], held[n + 1]))
    && (reqs[n].key != key ==> OtherStep(l, reqs[n].at, n, held[n], held[n + 1]))
  }

  lemma {:induction false} StepAt(l: Limits, reqs: seq<Request>, key: string, held: seq<seq<nat>>, ok: seq<bool>,
                                  n: nat, m: nat)
    requires m < n <= |reqs| == |ok| && |held| == |reqs| + 1 && Steps(l, reqs, key, held, ok, n)
    ensures Step(l, reqs, key, held, ok, m)
  {
    if m < n - 1 {
      StepAt(l, reqs, key, held, ok, n - 1, m);
    }
  }

  lemma {:induction false} CheckOwn(l: Limits, b: Buckets, key: string, at: nat)
    ensures var (b', ok) := Check(l, b, key, at); OwnStep(l, at, Bucket(b, key), ok, Bucket(b', key))
  {
    SoftPruneHarmless(l, b, key, at, at);
  }

  lemma {:induction false} CheckOther(l: Limits, b: Buckets, key: string, at: nat, other: string, n: nat)
    requires key != other && |b| <= n
    ensures OtherStep(l, at, n, Bucket(b, other), Bucket(Check(l, b, key, at).0, other))
  {
    if other in b && other !in SoftPrune(l, b, at) {
      forall t <- b[other]
        ensures Since(at, t) >= l.window
      {
        var i :| 0 <= i < |b[other]| && b[other][i] == t;
        assert !(Since(at, b[other][i]) < l.window);
      }
    }
  }

  lemma {:induction false} CheckSize(l: Limits, b: Buckets, key: string, at: nat)
    ensures Check(l, b, key, at).0.Keys == SoftPrune(l, b, at).Keys + {key}
    ensures SoftPrune(l, b, at).Keys <= b.Keys
    ensures |b| < KEY_SOFT_CAP ==> Check(l, b, key, at).0.Keys == b.Keys + {key}
    ensures |Check(l, b, key, at).0| <= |b| + 1
  {
    CheckKeys(l, b, key, at);
    AtMostOneMore(b, Check(l, b, key, at).0, key);
  }

  lemma {:induction false} CheckKeys(l: Limits, b: Buckets, key: string, at: nat)
    ensures Check(l, b, key, at).0.Keys == SoftPrune(l, b, at).Keys + {key}
    ensures SoftPrune(l, b, at).Keys <= b.Keys
    ensures |b| < KEY_SOFT_CAP ==> SoftPrune(l, b, at) == b
  {
  }

  lemma {:induction false} AtMostOneMore(b: Buckets, b': Buckets, key: string)
    requires b'.Keys <= b.Keys + {key}
    ensures |b'| <= |b| + 1
  {
    Smaller(b'.Keys, b.Keys + {key});
    assert |b'.Keys| == |b'| && |b.Keys| == |b|;
  }

  /** What the last request of a run does to one key. */
  lemma {:induction false} LastStep(l: Limits, reqs: seq<Request>, key: string) returns (after: seq<nat>, last: bool)
    requires reqs != [] && |RunCode(l, reqs[..|reqs| - 1]).0| < |reqs|
    ensures var (n, before) := (|reqs| - 1, Bucket(RunCode(l, reqs[..|reqs| - 1]).0, key));
      && (reqs[n].key == key ==> OwnStep(l, reqs[n].at, before, last, after))
      && (reqs[n].key != key ==> OtherStep(l, reqs[n].at, n, before, after))
    ensures after == Bucket(RunCode(l, reqs).0, key) && |RunCode(l, reqs).0| <= |reqs|
    ensures RunCode(l, reqs).1 == RunCode(l, reqs[..|reqs| - 1]).1 + [last]
  {
    var n := |reqs| - 1;
    var b := RunCode(l, reqs[..n]).0;
    CheckSize(l, b, reqs[n].key, reqs[n].at);
    if reqs[n].key == key {
      CheckOwn(l, b, key, reqs[n].at);
    } else {
      CheckOther(l, b, reqs[n].key, reqs[n].at, key, n);
    }
    var checked := Check(l, b, reqs[n].key, reqs[n].at);
    assert RunCode(l, reqs) == (checked.0, RunCode(l, reqs[..n]).1 + [checked.1]);
    last, after := checked.1, Bucket(checked.0, key);
  }

  /** The bucket of the key after each number of requests. */
  predicate HeldIs(l: Limits, reqs: seq<Request>, key: string, held: seq<seq<nat>>) {
    |held| == |reqs| + 1 && forall n :: 0 <= n <= |reqs| ==> held[n] == Bucket(RunCode(l, reqs[..n]).0, key)
  }

  lemma {:induction false} HeldExtends(l: Limits, reqs: seq<Request>, key: string, held: seq<seq<nat>>, after: seq<nat>)
    requires reqs != [] && HeldIs(l, reqs[..|reqs| - 1], key, held)
    requires after == Bucket(RunCode(l, reqs).0, key)
    ensures HeldIs(l, reqs, key, held + [after]) && held[|reqs| - 1] == Bucket(RunCode(l, reqs[..|reqs| - 1]).0, key)
  {
    var last := |reqs| - 1;
    assert reqs[..last][..last] == reqs[..last] && reqs[..|reqs|] == reqs;
    forall n | 0 <= n <= |reqs|
      ensures (held + [after])[n] == Bucket(RunCode(l, reqs[..n]).0, key)
    {
      if n <= last {
        assert reqs[..last][..n] == reqs[..n];
      }
    }
  }

  lemma {:induction false} RunExtends(l: Limits, reqs: seq<Request>, key: string, before: seq<seq<nat>>)
    returns (held: seq<seq<nat>>)
    requires reqs != [] && |RunCode(l, reqs[..|reqs| - 1]).0| < |reqs|
    requires KeyRun(l, reqs[..|reqs| - 1], key, before, RunCode(l, reqs[..|reqs| - 1]).1)
    requires HeldIs(l, reqs[..|reqs| - 1], key, before)
    ensures KeyRun(l, reqs, key, held, RunCode(l, reqs).1) && HeldIs(l, reqs, key, held)
    ensures |RunCode(l, reqs).0| <= |reqs|
  {
    var after, last := LastStep(l, reqs, key);
    HeldExtends(l, reqs, key, before, after);
    KeyRunExtends(l, reqs, key, before, RunCode(l, reqs[..|reqs| - 1]).1, after, last);
    held := before + [after];
  }

  /** Every run is one to each key. */
  lemma {:induction false} RunIsKeyRun(l: Limits, reqs: seq<Request>, key: string) returns (held: seq<seq<nat>>)
    ensures KeyRun(l, reqs, key, held, RunCode(l, reqs).1) && HeldIs(l, reqs, key, held)
    ensures |RunCode(l, reqs).0| <= |reqs|
    decreases |reqs|
  {
    if reqs == [] {
      held := [[]];
    } else {
      var before := RunIsKeyRun(l, reqs[..|reqs| - 1], key);
      held := RunExtends(l, reqs, key, before);
    }
  }

  lemma {:induction false} KeyRunExtends(l: Limits, reqs: seq<Request>, key: string, held: seq<seq<nat>>,
                                         ok: seq<bool>, after: seq<nat>, last: bool)
    requires reqs != [] && KeyRun(l, reqs[..|reqs| - 1], key, held, ok)
    requires var n := |reqs| - 1;
      && (reqs[n].key == key ==> OwnStep(l, reqs[n].at, held[n], last, after))
      && (reqs[n].key != key ==> OtherStep(l, reqs[n].at, n, held[n], after))
    ensures KeyRun(l, reqs, key, held + [after], ok + [last])
  {
    StepsExtend(l, reqs, key, held, ok, after, last, |reqs| - 1);
  }

  lemma {:induction false} StepsExtend(l: Limits, reqs: seq<Request>, key: string, held: seq<seq<nat>>,
                                       ok: seq<bool>, after: seq<nat>, last: bool, n: nat)
    requires reqs != [] && |ok| == |reqs| - 1 && |held| == |reqs| && n <= |ok|
    requires Steps(l, reqs[..|reqs| - 1], key, held, ok, n)
    ensures Steps(l, reqs, key, held + [after], ok + [last], n)
  {
    if n > 0 {
      StepsExtend(l, reqs, key, held, ok, after, last, n - 1);
      assert Step(l, reqs[..|reqs| - 1], key, held, ok, n - 1);
      assert reqs[..|reqs| - 1][n - 1] == reqs[n - 1];
    }
  }

  /** The accepted times of the key among the first `n` requests. */
  function Accepted(reqs: seq<Request>, ok: seq<bool>, n: nat, key: string): seq<nat>
    requires n <= |reqs| == |ok|
  {
    if n == 0 then [] else
      Accepted(reqs, ok, n - 1, key) + if ok[n - 1] && reqs[n - 1].key == key then [reqs[n - 1].at] else []
  }

  lemma {:induction false} AcceptedIs(reqs: seq<Request>, ok: seq<bool>, n: nat, key: string)
    requires n <= |reqs| == |ok|
    ensures AcceptedTimes(reqs[..n], ok[..n], key) == Accepted(reqs, ok, n, key)
  {
    if n > 0 {
      AcceptedIs(reqs, ok, n - 1, key);
      assert reqs[..n][..n - 1] == reqs[..n - 1] && ok[..n][..n - 1] == ok[..n - 1];
    }
  }

  /** Between two requests of a key its bucket stays or goes. */
  lemma {:induction false} HeldBetween(l: Limits, reqs: seq<Request>, key: string, held: seq<seq<nat>>,
                                       ok: seq<bool>, m: nat, n: nat)
    requires KeyRun(l, reqs, key, held, ok) && m <= n <= |reqs|
    requires forall k :: m <= k < n ==> reqs[k].key != key
    ensures held[n] == held[m] || held[n] == []
    ensures Accepted(reqs, ok, n, key) == Accepted(reqs, ok, m, key)
    decreases n
  {
    if m < n {
      HeldBetween(l, reqs, key, held, ok, m, n - 1);
      StepAt(l, reqs, key, held, ok, |reqs|, n - 1);
    }
  }

  /** The next request of a key, accepted when little enough of what was held is live. */
  lemma {:induction false} NextOfKey(l: Limits, reqs: seq<Request>, key: string, held: seq<seq<nat>>,
                                     ok: seq<bool>, m: nat, n: nat)
    requires KeyRun(l, reqs, key, held, ok) && m <= n < |reqs| && reqs[n].key == key
    requires forall k :: m <= k < n ==> reqs[k].key != key
    requires |Live(held[m], reqs[n].at, l.window)| < l.max
    ensures ok[n] && Accepted(reqs, ok, n + 1, key) == Accepted(reqs, ok, m, key) + [reqs[n].at]
    ensures held[n + 1] == Live(held[m], reqs[n].at, l.window) + [reqs[n].at] || held[n + 1] == [reqs[n].at]
  {
    HeldBetween(l, reqs, key, held, ok, m, n);
    StepAt(l, reqs, key, held, ok, |reqs|, n);
    assert Live([], reqs[n].at, l.window) + [reqs[n].at] == [reqs[n].at];
  }

  /** When nothing of what was held is live, the next request is accepted and alone. */
  lemma {:induction false} NextAlone(l: Limits, reqs: seq<Request>, key: string, held: seq<seq<nat>>,
                                     ok: seq<bool>, m: nat, n: nat)
    requires KeyRun(l, reqs, key, held, ok) && m <= n < |reqs| && reqs[n].key == key && l.max >= 1
    requires forall k :: m <= k < n ==> reqs[k].key != key
    requires Live(held[m], reqs[n].at, l.window) == []
    ensures held[n + 1] == [reqs[n].at]
    ensures Accepted(reqs, ok, n + 1, key) == Accepted(reqs, ok, m, key) + [reqs[n].at]
  {
    NextOfKey(l, reqs, key, held, ok, m, n);
    assert [] + [reqs[n].at] == [reqs[n].at];
  }

  lemma {:induction false} LiveOfOne(t: nat, now: nat, window: nat)
    ensures Live([t], now, window) == if Since(now, t) < window then [t] else []
  {
    LiveAppend([], t, now, window);
    assert [] + [t] == [t];
  }

  lemma {:induction false} LiveOfTwo(t: nat, u: nat, now: nat, window: nat)
    ensures |Live([t, u], now, window)|
         == (if Since(now, t) < window then 1 else 0) + (if Since(now, u) < window then 1 else 0)
  {
    LiveOfOne(t, now, window);
    LiveAppend([t], u, now, window);
    assert [t] + [u] == [t, u];
  }

  /// Decisions.

  /** Whatever the limit and whoever asks, requests at these readings are decided as by the rule. */
  ghost predicate DecidedByRule(times: seq<nat>, window: nat) {
    forall max: nat, reqs: seq<Request> :: Times(reqs) == times ==>
      RunCode(Limits(max, window), reqs).1 == RunRule(Limits(max, window), reqs)
  }

  /** One key at the chosen readings, another at the rest. */
  function TwoKeys(times: seq<nat>, own: set<nat>): (reqs: seq<Request>)
    ensures Times(reqs) == times
  {
    seq(|times|, n requires 0 <= n < |times| => Request(if n in own then "own" else "rest", times[n]))
  }

  lemma {:induction false} RulePrefix(l: Limits, reqs: seq<Request>, n: nat)
    requires n <= |reqs|
    ensures RunRule(l, reqs[..n]) == RunRule(l, reqs)[..n]
    decreases |reqs|
  {
    if n == |reqs| {
      assert reqs[..n] == reqs;
    } else {
      var last := |reqs| - 1;
      RulePrefix(l, reqs[..last], n);
      assert reqs[..last][..n] == reqs[..n];
      assert RunRule(l, reqs)[..last] == RunRule(l, reqs[..last]);
    }
  }

  lemma {:induction false} RuleDecisionAt(l: Limits, reqs: seq<Request>, n: nat)
    requires n < |reqs|
    ensures RunRule(l, reqs)[n]
        <==> |Live(Accepted(reqs, RunRule(l, reqs), n, reqs[n].key), reqs[n].at, l.window)| < l.max
  {
    RulePrefix(l, reqs, n);
    RulePrefix(l, reqs, n + 1);
    AcceptedIs(reqs, RunRule(l, reqs), n, reqs[n].key);
    assert reqs[..n + 1][..n] == reqs[..n];
    assert RunRule(l, reqs)[n] == RunRule(l, reqs[..n + 1])[n];
  }

  lemma {:induction false} FirstOfKey(l: Limits, reqs: seq<Request>, key: string, held: seq<seq<nat>>,
                                      ok: seq<bool>, k: nat)
    requires KeyRun(l, reqs, key, held, ok) && l.max >= 1 && k < |reqs| && reqs[k].key == key
    requires forall n :: 0 <= n < k ==> reqs[n].key != key
    ensures held[k + 1] == [reqs[k].at] == Accepted(reqs, ok, k + 1, key)
  {
    NextAlone(l, reqs, key, held, ok, 0, k);
  }

  /** Two requests of one key, the first gone by the second: only the second is held. */
  lemma {:induction false} SecondReplacesFirst(l: Limits, reqs: seq<Request>, key: string, held: seq<seq<nat>>,
                                               ok: seq<bool>, k: nat, i: nat)
    requires KeyRun(l, reqs, key, held, ok) && l.max >= 1 && k < i < |reqs|
    requires forall n :: 0 <= n <= i ==> (reqs[n].key == key <==> n == k || n == i)
    requires Since(reqs[i].at, reqs[k].at) >= l.window
    ensures held[i + 1] == [reqs[i].at] && Accepted(reqs, ok, i + 1, key) == [reqs[k].at, reqs[i].at]
  {
    FirstOfKey(l, reqs, key, held, ok, k);
    LiveOfOne(reqs[k].at, reqs[i].at, l.window);
    NextAlone(l, reqs, key, held, ok, k + 1, i);
  }

  /** Three requests of one key under a limit of two, the first gone by the second: all accepted. */
  lemma {:induction false} AllThreeAccepted(l: Limits, reqs: seq<Request>, key: string, held: seq<seq<nat>>,
                                            ok: seq<bool>, k: nat, i: nat, j: nat)
    requires KeyRun(l, reqs, key, held, ok) && l.max == 2 && k < i < j < |reqs|
    requires forall n :: 0 <= n <= j ==> (reqs[n].key == key <==> n == k || n == i || n == j)
    requires Since(reqs[i].at, reqs[k].at) >= l.window
    ensures ok[j] && Accepted(reqs, ok, j, key) == [reqs[k].at, reqs[i].at]
  {
    SecondReplacesFirst(l, reqs, key, held, ok, k, i);
    RoomForOne(l, reqs, key, held, ok, i, j);
  }

  /** With one time held and room for two the next request is accepted. */
  lemma {:induction false} RoomForOne(l: Limits, reqs: seq<Request>, key: string, held: seq<seq<nat>>,
                                      ok: seq<bool>, i: nat, j: nat)
    requires KeyRun(l, reqs, key, held, ok) && l.max == 2 && i < j < |reqs| && reqs[j].key == key
    requires forall n :: i + 1 <= n < j ==> reqs[n].key != key
    requires held[i + 1] == [reqs[i].at]
    ensures ok[j] && Accepted(reqs, ok, j, key) == Accepted(reqs, ok, i + 1, key)
    ensures Accepted(reqs, ok, j + 1, key) == Accepted(reqs, ok, i + 1, key) + [reqs[j].at]
  {
    LiveOfOne(reqs[i].at, reqs[j].at, l.window);
    NextOfKey(l, reqs, key, held, ok, i + 1, j);
    HeldBetween(l, reqs, key, held, ok, i + 1, j);
  }

  /** A reading that comes back into the window tells the two apart: of three requests of one key
      under a limit of two, the rule refuses the last and the code, having dropped the first, does not. */
  lemma {:induction false} RevivalTellsApart(times: seq<nat>, window: nat, k: nat, i: nat, j: nat)
    requires k < i < j < |times|
    requires Since(times[i], times[k]) >= window && Since(times[j], times[k]) < window
    ensures !DecidedByRule(times, window)
  {
    var l := Limits(2, window);
    var reqs := TwoKeys(times, {k, i, j});
    var held := RunIsKeyRun(l, reqs, "own");
    var ok := RunCode(l, reqs).1;
    AllThreeAccepted(l, reqs, "own", held, ok, k, i, j);
    LiveOfTwo(times[k], times[i], times[j], window);
    RuleDecisionAt(l, reqs, j);
    assert Times(reqs) == times && RunCode(Limits(2, window), reqs).1 != RunRule(Limits(2, window), reqs);
  }

  /** The limiter decides as the rule does, for every limit and every choice of keys, if and only if no
      reading that has left the window at one reading is back inside it at a later one. */
  lemma {:induction false} DecidedByRuleIffNothingRevives(times: seq<nat>, window: nat)
    ensures DecidedByRule(times, window) <==> !Revives(times, window)
  {
    if Revives(times, window) {
      var k, i, j :| 0 <= k < i < j < |times|
        && Since(times[i], times[k]) >= window && Since(times[j], times[k]) < window;
      RevivalTellsApart(times, window, k, i, j);
    } else {
      forall max: nat, reqs: seq<Request> | Times(reqs) == times
        ensures RunCode(Limits(max, window), reqs).1 == RunRule(Limits(max, window), reqs)
      {
        LimiterIsExact(Limits(max, window), reqs);
      }
    }
  }

  /** In particular with a clock that does not run backwards. */
  lemma {:induction false} OrderedClockIsExact(l: Limits, reqs: seq<Request>)
    requires Nondecreasing(reqs)
    ensures RunCode(l, reqs).1 == RunRule(l, reqs)
  {
    OrderedClockRevivesNothing(reqs, l.window);
    LimiterIsExact(l, reqs);
  }

  /** And what the code accepts is then bounded in every window. */
  lemma {:induction false} CodeWindowBound(l: Limits, reqs: seq<Request>, key: string, start: nat)
    requires !Revives(Times(reqs), l.window)
    ensures |RunCode(l, reqs).1| == |reqs|
    ensures CountIn(AcceptedTimes(reqs, RunCode(l, reqs).1, key), start, start + l.window) <= l.max
  {
    LimiterIsExact(l, reqs);
    WindowBound(l, reqs, key, start);
  }
}
