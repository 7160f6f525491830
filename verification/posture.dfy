/** The three-axis risk score and its roll-up to the organisation, over reals. Times are integer
  * nanoseconds. */
module Posture {
  import opened Wrappers
  import Events

  /// Weighted averages.

  // One value with its weight.
  datatype Term = Term(weight: real, value: real)

  function Weight(ts: seq<Term>): real {
    if |ts| == 0 then 0.0 else Weight(ts[..|ts| - 1]) + ts[|ts| - 1].weight
  }

  function Weighted(ts: seq<Term>): real {
    if |ts| == 0 then 0.0
    else Weighted(ts[..|ts| - 1]) + ts[|ts| - 1].weight * ts[|ts| - 1].value
  }

  function WeightedAverage(ts: seq<Term>, otherwise: real): real {
    if Weight(ts) == 0.0 then otherwise else Weighted(ts) / Weight(ts)
  }

  ghost predicate PositiveWeights(ts: seq<Term>) {
    forall t :: t in ts ==> t.weight > 0.0
  }

  ghost predicate ValuesWithin(ts: seq<Term>, lo: real, hi: real) {
    forall t :: t in ts ==> lo <= t.value <= hi
  }

  lemma {:induction false} Scale(w: real, lo: real, v: real, hi: real)
    requires w > 0.0 && lo <= v <= hi
    ensures w * lo <= w * v <= w * hi
  {
  }

  lemma {:induction false} WeightedWithin(ts: seq<Term>, lo: real, hi: real)
    requires PositiveWeights(ts) && ValuesWithin(ts, lo, hi)
    ensures Weight(ts) >= 0.0 && (|ts| > 0 ==> Weight(ts) > 0.0)
    ensures Weight(ts) * lo <= Weighted(ts) <= Weight(ts) * hi
  {
    if |ts| > 0 {
      var front, last := ts[..|ts| - 1], ts[|ts| - 1];
      WeightedWithin(front, lo, hi);
      BoundsAdd(Weight(front), Weighted(front), last.weight, last.value, lo, hi);
    }
  }

  lemma {:induction false} BoundsAdd(sum: real, total: real, w: real, v: real, lo: real, hi: real)
    requires w > 0.0 && lo <= v <= hi && sum * lo <= total <= sum * hi
    ensures (sum + w) * lo <= total + w * v <= (sum + w) * hi
  {
    Scale(w, lo, v, hi);
    Distribute(sum, w, lo);
    Distribute(sum, w, hi);
  }

  lemma {:induction false} Distribute(a: real, b: real, c: real)
    ensures (a + b) * c == a * c + b * c
  {
  }

  lemma {:induction false} CancelAtMost(x: real, y: real, d: real)
    requires d > 0.0
    ensures x * d <= y * d <==> x <= y
    ensures x * d < y * d <==> x < y
  {
    if x < y {
      assert (y - x) * d > 0.0;
    }
    if x > y {
      assert (x - y) * d > 0.0;
    }
  }

  lemma {:induction false} QuotientWithin(n: real, d: real, lo: real, hi: real)
    requires d > 0.0 && d * lo <= n <= d * hi
    ensures lo <= n / d <= hi
  {
    var r := n / d;
    assert r * d == n;
    CancelAtMost(lo, r, d);
    CancelAtMost(r, hi, d);
  }

  lemma {:induction false} AverageWithin(ts: seq<Term>, otherwise: real, lo: real, hi: real)
    requires |ts| > 0 && PositiveWeights(ts) && ValuesWithin(ts, lo, hi)
    ensures lo <= WeightedAverage(ts, otherwise) <= hi
  {
    WeightedWithin(ts, lo, hi);
    QuotientWithin(Weighted(ts), Weight(ts), lo, hi);
  }

  // The same weights with no value larger.
  ghost predicate Below(a: seq<Term>, b: seq<Term>) {
    && |a| == |b|
    && forall i :: 0 <= i < |a| ==> a[i].weight == b[i].weight && a[i].value <= b[i].value
  }

  lemma {:induction false} WeightedMonotone(a: seq<Term>, b: seq<Term>)
    requires Below(a, b) && PositiveWeights(a)
    ensures Weight(a) == Weight(b) && Weighted(a) <= Weighted(b)
  {
    if |a| > 0 {
      var n := |a| - 1;
      WeightedMonotone(a[..n], b[..n]);
      Scale(a[n].weight, a[n].value, b[n].value, b[n].value);
    }
  }

  lemma {:induction false} AverageMonotone(a: seq<Term>, b: seq<Term>, otherwise: real)
    requires Below(a, b) && PositiveWeights(a)
    ensures WeightedAverage(a, otherwise) <= WeightedAverage(b, otherwise)
  {
    WeightedMonotone(a, b);
    if |a| > 0 {
      var w := Weight(a);
      PositiveSum(a);
      QuotientMonotone(Weighted(a), Weighted(b), w);
    }
  }

  lemma {:induction false} PositiveSum(ts: seq<Term>)
    requires PositiveWeights(ts)
    ensures Weight(ts) >= 0.0 && (|ts| > 0 ==> Weight(ts) > 0.0)
  {
    if |ts| > 0 {
      PositiveSum(ts[..|ts| - 1]);
    }
  }

  lemma {:induction false} QuotientMonotone(a: real, b: real, d: real)
    requires a <= b && d > 0.0
    ensures a / d <= b / d
  {
  }

  function SumBy<T>(xs: seq<T>, part: T -> real): real {
    if |xs| == 0 then 0.0 else SumBy(xs[..|xs| - 1], part) + part(xs[|xs| - 1])
  }

  lemma {:induction false} SumByWithout<T>(xs: seq<T>, part: T -> real, k: nat)
    requires k < |xs|
    ensures SumBy(xs, part) == SumBy(xs[..k] + xs[k + 1..], part) + part(xs[k])
  {
    var n := |xs| - 1;
    if k == n {
      assert xs[..k] + xs[k + 1..] == xs[..n];
    } else {
      SumByWithout(xs[..n], part, k);
      LastOfRest(xs, k);
    }
  }

  function WeightOf(t: Term): real {
    t.weight
  }

  function PartOf(t: Term): real {
    t.weight * t.value
  }

  lemma {:induction false} SumsAreSumBy(ts: seq<Term>)
    ensures Weight(ts) == SumBy(ts, WeightOf) && Weighted(ts) == SumBy(ts, PartOf)
  {
    if |ts| > 0 {
      SumsAreSumBy(ts[..|ts| - 1]);
    }
  }

  lemma {:induction false} SumsWithout(ts: seq<Term>, k: nat)
    requires k < |ts|
    ensures Weight(ts) == Weight(ts[..k] + ts[k + 1..]) + ts[k].weight
    ensures Weighted(ts) == Weighted(ts[..k] + ts[k + 1..]) + ts[k].weight * ts[k].value
  {
    SumsAreSumBy(ts);
    SumsAreSumBy(ts[..k] + ts[k + 1..]);
    SumByWithout(ts, WeightOf, k);
    SumByWithout(ts, PartOf, k);
  }

  lemma {:induction false} LastOfRest<T>(ts: seq<T>, k: nat)
    requires k < |ts| - 1
    ensures var (rest, n) := (ts[..k] + ts[k + 1..], |ts| - 1);
      && |rest| > 0 && rest[|rest| - 1] == ts[n]
      && rest[..|rest| - 1] == ts[..n][..k] + ts[..n][k + 1..]
  {
  }

  lemma {:induction false} WithoutOne<T>(s: seq<T>, k: nat)
    requires k < |s|
    ensures multiset(s[..k] + s[k + 1..]) == multiset(s) - multiset{s[k]}
  {
    assert s == s[..k] + [s[k]] + s[k + 1..];
  }

  // Two lists of the same elements: the last of one stands somewhere in the other.
  lemma {:induction false} LastElsewhere<T>(a: seq<T>, b: seq<T>) returns (k: nat)
    requires multiset(a) == multiset(b) && |a| > 0
    ensures |a| == |b| && k < |b| && b[k] == a[|a| - 1]
    ensures multiset(a[..|a| - 1]) == multiset(b[..k] + b[k + 1..])
  {
    var n := |a| - 1;
    assert |a| == |multiset(a)| == |multiset(b)| == |b|;
    assert a[n] in multiset(b);
    k :| 0 <= k < |b| && b[k] == a[n];
    WithoutOne(b, k);
    WithoutOne(a, n);
    assert a[..n] + a[n + 1..] == a[..n];
  }

  lemma {:induction false} SumsIgnoreOrder(a: seq<Term>, b: seq<Term>)
    requires multiset(a) == multiset(b)
    ensures Weight(a) == Weight(b) && Weighted(a) == Weighted(b)
    decreases |a|
  {
    if |a| == 0 {
      assert |multiset(b)| == 0;
    } else {
      var k := LastElsewhere(a, b);
      SumsWithout(b, k);
      SumsIgnoreOrder(a[..|a| - 1], b[..k] + b[k + 1..]);
    }
  }

  function Terms<T>(f: T -> Term, xs: seq<T>): seq<Term> {
    seq(|xs|, i requires 0 <= i < |xs| => f(xs[i]))
  }

  lemma {:induction false} SameAfterAdding(a: multiset<Term>, b: multiset<Term>, t: Term)
    requires t in a && t in b && a - multiset{t} == b - multiset{t}
    ensures a == b
  {
    assert a == (a - multiset{t}) + multiset{t};
    assert b == (b - multiset{t}) + multiset{t};
  }

  lemma {:induction false} TermsOfPermutation<T>(f: T -> Term, a: seq<T>, b: seq<T>)
    requires multiset(a) == multiset(b)
    ensures multiset(Terms(f, a)) == multiset(Terms(f, b))
    decreases |a|
  {
    if |a| == 0 {
      assert |multiset(b)| == 0;
    } else {
      var n := |a| - 1;
      var k := LastElsewhere(a, b);
      var rest := b[..k] + b[k + 1..];
      TermsOfPermutation(f, a[..n], rest);
      TermsWithout(f, b, k);
      TermsWithout(f, a, n);
      assert a[..n] == a[..n] + a[n + 1..];
      SameAfterAdding(multiset(Terms(f, a)), multiset(Terms(f, b)), f(a[n]));
    }
  }

  lemma {:induction false} TermsWithout<T>(f: T -> Term, xs: seq<T>, k: nat)
    requires k < |xs|
    ensures f(xs[k]) in multiset(Terms(f, xs))
    ensures multiset(Terms(f, xs[..k] + xs[k + 1..])) == multiset(Terms(f, xs)) - multiset{f(xs[k])}
  {
    var t := Terms(f, xs);
    assert t[k] == f(xs[k]);
    assert Terms(f, xs[..k] + xs[k + 1..]) == t[..k] + t[k + 1..];
    WithoutOne(t, k);
  }

  /// Axis A: algorithms.

  datatype Role = Sig | Kex | Encrypt | Hash | Auth

  datatype Primitive = Primitive(role: Role, algorithm: string, pqResistant: Option<bool>)

  function RoleWeight(r: Role): real {
    match r
    case Sig => 0.40
    case Kex => 0.30
    case Encrypt => 0.20
    case Hash => 0.10
    case Auth => 0.10
  }

  function PrimitiveScore(p: Primitive): real {
    match p.pqResistant
    case Some(resistant) => if resistant then 1.0 else 0.3
    case None => 0.4
  }

  function PrimitiveTerms(prims: seq<Primitive>): seq<Term> {
    seq(|prims|, i requires 0 <= i < |prims| =>
      Term(RoleWeight(prims[i].role), PrimitiveScore(prims[i])))
  }

  function AxisAOf(prims: seq<Primitive>): real {
    WeightedAverage(PrimitiveTerms(prims), 0.4)
  }

  method AxisA(prims: seq<Primitive>) returns (r: real)
    ensures r == AxisAOf(prims)
  {
    if |prims| == 0 {
      return 0.4;
    }
    ghost var ts := PrimitiveTerms(prims);
    var weightSum := 0.0;
    var weighted := 0.0;
    for i := 0 to |prims|
      invariant weightSum == Weight(ts[..i])
      invariant weighted == Weighted(ts[..i])
    {
      var w := RoleWeight(prims[i].role);
      assert ts[..i + 1][..i] == ts[..i];
      weightSum := weightSum + w;
      weighted := weighted + w * PrimitiveScore(prims[i]);
    }
    assert ts[..|prims|] == ts;
    if weightSum == 0.0 {
      return 0.4;
    }
    return weighted / weightSum;
  }

  /** Axis A lies in [0.3, 1]: no weight sum is ever zero but the empty list's. */
  lemma {:induction false} AxisAInRange(prims: seq<Primitive>)
    ensures 0.3 <= AxisAOf(prims) <= 1.0
  {
    if |prims| > 0 {
      AverageWithin(PrimitiveTerms(prims), 0.4, 0.3, 1.0);
    }
  }

  /** The order in which an asset's primitives were observed does not matter. */
  lemma {:induction false} AxisAIgnoresOrder(a: seq<Primitive>, b: seq<Primitive>)
    requires multiset(a) == multiset(b)
    ensures AxisAOf(a) == AxisAOf(b)
  {
    var f := (p: Primitive) => Term(RoleWeight(p.role), PrimitiveScore(p));
    assert PrimitiveTerms(a) == Terms(f, a) && PrimitiveTerms(b) == Terms(f, b);
    TermsOfPermutation(f, a, b);
    SumsIgnoreOrder(PrimitiveTerms(a), PrimitiveTerms(b));
  }

  /** Axis A is perfect if and only if there is a primitive and all are known to be resistant. */
  lemma {:induction false} PerfectIffAllResistant(prims: seq<Primitive>)
    ensures AxisAOf(prims) == 1.0 <==>
            |prims| > 0 && forall p :: p in prims ==> p.pqResistant == Some(true)
  {
    var ts := PrimitiveTerms(prims);
    if |prims| > 0 {
      if forall p :: p in prims ==> p.pqResistant == Some(true) {
        AverageWithin(ts, 0.4, 1.0, 1.0);
      } else {
        var k :| 0 <= k < |prims| && prims[k].pqResistant != Some(true);
        AverageBelowOne(ts, k, 0.4);
      }
    }
  }

  lemma {:induction false} AtMostWeight(w: real, v: real)
    requires w > 0.0 && v <= 1.0
    ensures w * v <= w && (v < 1.0 ==> w * v < w)
  {
    CancelAtMost(v, 1.0, w);
  }

  lemma {:induction false} WeightedAtMostWeight(ts: seq<Term>)
    requires PositiveWeights(ts) && forall t :: t in ts ==> t.value <= 1.0
    ensures Weighted(ts) <= Weight(ts)
  {
    if |ts| > 0 {
      var last := ts[|ts| - 1];
      WeightedAtMostWeight(ts[..|ts| - 1]);
      AtMostWeight(last.weight, last.value);
    }
  }

  lemma {:induction false} WeightedBelowWeight(ts: seq<Term>, k: nat)
    requires PositiveWeights(ts) && k < |ts| && ts[k].value < 1.0
    requires forall t :: t in ts ==> t.value <= 1.0
    ensures Weighted(ts) < Weight(ts)
  {
    var rest := ts[..k] + ts[k + 1..];
    assert forall t :: t in rest ==> t in ts;
    SumsWithout(ts, k);
    WeightedAtMostWeight(rest);
    BelowAdds(Weighted(rest), Weight(rest), ts[k].weight, ts[k].value);
  }

  lemma {:induction false} BelowAdds(total: real, sum: real, w: real, v: real)
    requires total <= sum && w > 0.0 && v < 1.0
    ensures total + w * v < sum + w
  {
    AtMostWeight(w, v);
  }

  lemma {:induction false} AverageBelowOne(ts: seq<Term>, k: nat, otherwise: real)
    requires PositiveWeights(ts) && k < |ts| && ts[k].value < 1.0
    requires forall t :: t in ts ==> t.value <= 1.0
    ensures WeightedAverage(ts, otherwise) < 1.0
  {
    PositiveSum(ts);
    WeightedBelowWeight(ts, k);
    BelowOne(Weighted(ts), Weight(ts));
  }

  lemma {:induction false} BelowOne(n: real, d: real)
    requires n < d && d > 0.0
    ensures n / d < 1.0
  {
  }

  /// Axes C and G.

  datatype ChannelState = Classical | QkdHybridPsk | QkdOnly

  function AxisC(channel: Option<ChannelState>): real {
    match channel
    case None => 0.0
    case Some(state) =>
      match state
      case Classical => 0.0
      case QkdHybridPsk => 0.7
      case QkdOnly => 1.0
  }

  datatype AgilityLevel = Negotiated | Configurable | Pinned | Locked | Frozen
  {
    function Score(): real {
      match this
      case Negotiated => 1.00
      case Configurable => 0.75
      case Pinned => 0.50
      case Locked => 0.20
      case Frozen => 0.00
    }
  }

  // The score travels beside the level; the roll-up reads the score as it is given.
  datatype AgilityBlock = AgilityBlock(level: AgilityLevel, levelScore: real)

  function AxisG(agility: Option<AgilityBlock>): real {
    match agility
    case None => Pinned.Score()
    case Some(a) => a.levelScore
  }

  /// Deadline tension.

  type Nanos = int
  const DAY: int := 86_400_000_000_000

  // Whole days of a duration, truncated toward zero.
  function NumDays(d: Nanos): int {
    if d >= 0 then d / DAY else -((-d) / DAY)
  }

  function Clamp(x: real, lo: real, hi: real): real {
    if x < lo then lo else if x > hi then hi else x
  }

  function DeadlineTension(now: Nanos, deadline: Nanos, horizonYears: real): real {
    if horizonYears <= 0.0 then 1.0
    else
      var years := NumDays(deadline - now) as real / 365.25;
      Clamp(1.0 - years / horizonYears, 0.0, 1.0)
  }

  lemma {:induction false} NumDaysMonotone(a: Nanos, b: Nanos)
    requires a <= b
    ensures NumDays(a) <= NumDays(b)
  {
  }

  lemma {:induction false} NumDaysPositiveIff(d: Nanos)
    ensures NumDays(d) >= 1 <==> d >= DAY
  {
  }

  /** Tension never falls as time passes. */
  lemma {:induction false} TensionRises(now: Nanos, later: Nanos, deadline: Nanos, horizon: real)
    requires now <= later
    ensures DeadlineTension(now, deadline, horizon) <= DeadlineTension(later, deadline, horizon)
    ensures 0.0 <= DeadlineTension(now, deadline, horizon) <= 1.0
  {
    if horizon > 0.0 {
      NumDaysMonotone(deadline - later, deadline - now);
      var x, y := NumDays(deadline - now) as real, NumDays(deadline - later) as real;
      QuotientMonotone(y, x, 365.25);
      QuotientMonotone(y / 365.25, x / 365.25, horizon);
    }
  }

  lemma {:induction false} QuotientSign(x: real, d: real)
    requires d > 0.0
    ensures x / d <= 0.0 <==> x <= 0.0
    ensures x / d >= 1.0 <==> x >= d
  {
    assert (x / d) * d == x;
  }

  /** Tension is full exactly when less than one whole day is left, or the horizon is not positive:
    * the last day before the deadline already counts as overdue. */
  lemma {:induction false} FullIffLessThanADayLeft(now: Nanos, deadline: Nanos, horizon: real)
    ensures DeadlineTension(now, deadline, horizon) == 1.0 <==>
            horizon <= 0.0 || deadline - now < DAY
  {
    if horizon > 0.0 {
      var days := NumDays(deadline - now);
      NumDaysPositiveIff(deadline - now);
      QuotientSign(days as real, 365.25);
      QuotientSign(days as real / 365.25, horizon);
    }
  }

  /** Tension is absent exactly when at least the whole horizon is left. */
  lemma {:induction false} NoneIffHorizonLeft(now: Nanos, deadline: Nanos, horizon: real)
    ensures DeadlineTension(now, deadline, horizon) == 0.0 <==>
            horizon > 0.0 && NumDays(deadline - now) as real / 365.25 >= horizon
  {
    if horizon > 0.0 {
      QuotientSign(NumDays(deadline - now) as real / 365.25, horizon);
    }
  }

  /// The score of one asset.

  const ALPHA: real := 0.5
  const BETA: real := 0.2
  const GAMMA_MAX: real := 0.3

  function Score(a: real, c: real, g: real, tau: real): real
    requires tau <= 1.0
  {
    var gamma := GAMMA_MAX * (1.0 - tau);
    var total := ALPHA + BETA + gamma;
    var aW := ALPHA / total;
    var bW := BETA / total;
    var gW := gamma / total;
    1.0 - (aW * a + bW * c + gW * g)
  }

  type AssetKind = Events.AssetKind

  // The fields of an inventory event that the score reads.
  datatype Observation = Observation(kind: AssetKind, primitives: seq<Primitive>,
                                     channel: Option<ChannelState>, agility: Option<AgilityBlock>)

  function QOf(ev: Observation, now: Nanos, deadline: Nanos, horizon: real): real {
    TensionRises(now, now, deadline, horizon);
    Score(AxisAOf(ev.primitives), AxisC(ev.channel), AxisG(ev.agility),
          DeadlineTension(now, deadline, horizon))
  }

  method QForEvent(ev: Observation, now: Nanos, deadline: Nanos, horizon: real) returns (q: real)
    ensures q == QOf(ev, now, deadline, horizon)
  {
    var tau := DeadlineTension(now, deadline, horizon);
    var a := AxisA(ev.primitives);
    var c := AxisC(ev.channel);
    var g := AxisG(ev.agility);
    TensionRises(now, now, deadline, horizon);
    q := Score(a, c, g, tau);
  }

  lemma {:induction false} QuotientTimes(x: real, d: real, a: real)
    requires d > 0.0
    ensures (x / d) * a * d == x * a
  {
    assert (x / d) * d == x;
    assert (x / d) * a * d == ((x / d) * d) * a;
  }

  // The score with its common denominator cleared.
  lemma {:induction false} ScoreCleared(a: real, c: real, g: real, tau: real)
    requires tau <= 1.0
    ensures (1.0 - Score(a, c, g, tau)) * (0.7 + 0.3 * (1.0 - tau))
         == 0.5 * a + 0.2 * c + 0.3 * (1.0 - tau) * g
  {
    var gamma := 0.3 * (1.0 - tau);
    var total := 0.7 + gamma;
    QuotientTimes(0.5, total, a);
    QuotientTimes(0.2, total, c);
    QuotientTimes(gamma, total, g);
    Distribute((0.5 / total) * a + (0.2 / total) * c, (gamma / total) * g, total);
    Distribute((0.5 / total) * a, (0.2 / total) * c, total);
  }

  lemma {:induction false} NumeratorWithin(a: real, c: real, g: real, gamma: real)
    requires 0.3 <= a <= 1.0 && 0.0 <= c <= 1.0 && 0.0 <= g <= 1.0 && 0.0 <= gamma <= 0.3
    ensures 0.15 * (0.7 + gamma) <= 0.5 * a + 0.2 * c + gamma * g <= 0.7 + gamma
  {
    ProductWithin(gamma, g);
    SumWithin(0.5 * a + 0.2 * c, gamma * g, gamma);
  }

  lemma {:induction false} ProductWithin(gamma: real, g: real)
    requires 0.0 <= gamma && 0.0 <= g <= 1.0
    ensures 0.0 <= gamma * g <= gamma
  {
    GammaTimes(gamma, 0.0, g);
    GammaTimes(gamma, g, 1.0);
  }

  lemma {:induction false} SumWithin(s: real, t: real, gamma: real)
    requires 0.15 <= s <= 0.7 && 0.0 <= t <= gamma <= 0.3
    ensures 0.15 * (0.7 + gamma) <= s + t <= 0.7 + gamma
  {
    assert 0.15 * (0.7 + gamma) <= 0.15;
  }

  /** The weights are renormalised to sum to 1 at every tension: three equal axes give that value. */
  lemma {:induction false} WeightsSumToOne(v: real, tau: real)
    requires tau <= 1.0
    ensures Score(v, v, v, tau) == 1.0 - v
  {
    var total := 0.7 + 0.3 * (1.0 - tau);
    ScoreCleared(v, v, v, tau);
    var q := Score(v, v, v, tau);
    assert (1.0 - q) * total == v * total;
    CancelAtMost(1.0 - q, v, total);
    CancelAtMost(v, 1.0 - q, total);
  }

  /** With A at least 0.3 and all axes at most 1 the score lies in [0, 0.85]. */
  lemma {:induction false} ScoreBounds(a: real, c: real, g: real, tau: real)
    requires 0.3 <= a <= 1.0 && 0.0 <= c <= 1.0 && 0.0 <= g <= 1.0 && 0.0 <= tau <= 1.0
    ensures 0.0 <= Score(a, c, g, tau) <= 0.85
  {
    var gamma := 0.3 * (1.0 - tau);
    var total := 0.7 + gamma;
    var q := Score(a, c, g, tau);
    ScoreCleared(a, c, g, tau);
    NumeratorWithin(a, c, g, gamma);
    CancelAtMost(1.0 - q, 1.0, total);
    CancelAtMost(0.15, 1.0 - q, total);
  }

  /** Every event with a score in the unit interval, so every canonical one, has 0 <= q <= 0.85, and
    * 0.85 is reached: an unknown-free classical asset, frozen, with no deadline in sight. */
  lemma {:induction false} QBounds(ev: Observation, now: Nanos, deadline: Nanos, horizon: real)
    requires 0.0 <= AxisG(ev.agility) <= 1.0
    ensures 0.0 <= QOf(ev, now, deadline, horizon) <= 0.85
  {
    AxisAInRange(ev.primitives);
    TensionRises(now, now, deadline, horizon);
    ScoreBounds(AxisAOf(ev.primitives), AxisC(ev.channel), AxisG(ev.agility),
                DeadlineTension(now, deadline, horizon));
  }

  lemma {:induction false} BoundIsReached()
    ensures exists ev: Observation, now: Nanos, deadline: Nanos, horizon: real ::
      && ev.agility == Some(AgilityBlock(Frozen, Frozen.Score()))
      && QOf(ev, now, deadline, horizon) == 0.85
  {
    var p := Primitive(Sig, "RSA", Some(false));
    var ev := Observation(Events.HsmSlot, [p], None, Some(AgilityBlock(Frozen, Frozen.Score())));
    AverageWithin(PrimitiveTerms([p]), 0.4, 0.3, 0.3);
    var deadline := 366 * DAY;
    assert NumDays(deadline) == 366;
    NoneIffHorizonLeft(0, deadline, 1.0);
    ScoreCleared(0.3, 0.0, 0.0, 0.0);
    assert QOf(ev, 0, deadline, 1.0) == 0.85;
  }

  /** Better algorithms, a better channel and more agility each lower the score or leave it: A and C
    * always count, agility counts exactly while tension is below 1. */
  lemma {:induction false} ScoreAntitone(a: real, c: real, g: real, a': real, c': real, g': real,
                                         tau: real)
    requires a <= a' && c <= c' && g <= g' && tau <= 1.0
    ensures Score(a', c', g', tau) <= Score(a, c, g, tau)
    ensures Score(a', c', g', tau) == Score(a, c, g, tau) <==>
            a == a' && c == c' && (g == g' || tau == 1.0)
  {
    var gamma := 0.3 * (1.0 - tau);
    var total := 0.7 + gamma;
    ScoreCleared(a, c, g, tau);
    ScoreCleared(a', c', g', tau);
    GammaTimes(gamma, g, g');
    CancelAtMost(1.0 - Score(a, c, g, tau), 1.0 - Score(a', c', g', tau), total);
  }

  lemma {:induction false} GammaTimes(gamma: real, g: real, g': real)
    requires gamma >= 0.0 && g <= g'
    ensures gamma * g <= gamma * g'
    ensures gamma * g == gamma * g' <==> g == g' || gamma == 0.0
  {
    assert gamma * g' - gamma * g == gamma * (g' - g);
    if gamma > 0.0 && g < g' {
      assert gamma * (g' - g) > 0.0;
    }
  }

  // What A and C alone would score, once agility has lost its weight.
  function Observed(a: real, c: real): real {
    (ALPHA * a + BETA * c) / (ALPHA + BETA)
  }

  // Cross-multiplied, two tensions differ by one product.
  lemma {:induction false} CrossDifference(n: real, g: real, x: real, y: real)
    ensures (n + x * g) * (0.7 + y) - (n + y * g) * (0.7 + x) == (x - y) * (0.7 * g - n)
  {
    assert (n + x * g) * (0.7 + y) == 0.7 * n + n * y + 0.7 * (x * g) + x * g * y;
    assert (n + y * g) * (0.7 + x) == 0.7 * n + n * x + 0.7 * (y * g) + y * g * x;
    assert x * g * y == y * g * x;
    assert (x - y) * (0.7 * g - n) == 0.7 * (x * g) - n * x - 0.7 * (y * g) + n * y;
  }

  lemma {:induction false} CompareFractions(u: real, v: real, n: real, m: real, s: real, t: real)
    requires s > 0.0 && t > 0.0 && u * s == n && v * t == m
    ensures v <= u <==> m * s <= n * t
  {
    assert n * t == u * (s * t) && m * s == v * (s * t);
    assert s * t > 0.0;
    CancelAtMost(v, u, s * t);
  }

  lemma {:induction false} TwoTensions(a: real, c: real, g: real, tau: real, later: real)
    requires tau <= later <= 1.0
    ensures Score(a, c, g, tau) <= Score(a, c, g, later) <==> tau == later || g >= Observed(a, c)
  {
    var x, y := 0.3 * (1.0 - tau), 0.3 * (1.0 - later);
    var n := 0.5 * a + 0.2 * c;
    ScoreCleared(a, c, g, tau);
    ScoreCleared(a, c, g, later);
    CompareFractions(1.0 - Score(a, c, g, tau), 1.0 - Score(a, c, g, later),
                     n + x * g, n + y * g, 0.7 + x, 0.7 + y);
    CrossDifference(n, g, x, y);
    if tau < later {
      CancelAtMost(0.0, 0.7 * g - n, x - y);
    }
  }

  /** For fixed observations the score never falls as tension grows if and only if agility is at
    * least what A and C alone would score. */
  lemma {:induction false} TrendIff(a: real, c: real, g: real)
    ensures (forall tau: real, later: real | 0.0 <= tau <= later <= 1.0 ::
               Score(a, c, g, tau) <= Score(a, c, g, later))
            <==> g >= Observed(a, c)
  {
    TwoTensions(a, c, g, 0.0, 1.0);
    if g >= Observed(a, c) {
      forall tau: real, later: real | 0.0 <= tau <= later <= 1.0
        ensures Score(a, c, g, tau) <= Score(a, c, g, later)
      {
        TwoTensions(a, c, g, tau, later);
      }
    }
  }

  ghost predicate AgileEnough(ev: Observation) {
    AxisG(ev.agility) >= Observed(AxisAOf(ev.primitives), AxisC(ev.channel))
  }

  lemma {:induction false} QRises(ev: Observation, now: Nanos, later: Nanos, deadline: Nanos, horizon: real)
    requires now <= later && AgileEnough(ev)
    ensures QOf(ev, now, deadline, horizon) <= QOf(ev, later, deadline, horizon)
  {
    TensionRises(now, later, deadline, horizon);
    TensionRises(later, later, deadline, horizon);
    TwoTensions(AxisAOf(ev.primitives), AxisC(ev.channel), AxisG(ev.agility),
                DeadlineTension(now, deadline, horizon), DeadlineTension(later, deadline, horizon));
  }

  /// The organisation.

  function KindWeight(kind: AssetKind): real {
    match kind
    case X509Cert => 1.0
    case TlsSession => 0.7
    case SshSession => 0.7
    case IpsecSa => 0.7
    case BlockchainKey => 1.5
    case HsmSlot => 1.0
    case DnsDnssec => 0.5
    case QkdLink => 0.4
    case QkdKme => 0.4
  }

  function EventTerms(evs: seq<Observation>, now: Nanos, deadline: Nanos, horizon: real): seq<Term> {
    seq(|evs|, i requires 0 <= i < |evs| =>
      Term(KindWeight(evs[i].kind), QOf(evs[i], now, deadline, horizon)))
  }

  function OrgScoreOf(evs: seq<Observation>, now: Nanos, deadline: Nanos, horizon: real): real {
    WeightedAverage(EventTerms(evs, now, deadline, horizon), 0.0)
  }

  method OrgScore(evs: seq<Observation>, now: Nanos, deadline: Nanos, horizon: real) returns (r: real)
    ensures r == OrgScoreOf(evs, now, deadline, horizon)
  {
    if |evs| == 0 {
      return 0.0;
    }
    ghost var ts := EventTerms(evs, now, deadline, horizon);
    var weightSum := 0.0;
    var weighted := 0.0;
    for i := 0 to |evs|
      invariant weightSum == Weight(ts[..i])
      invariant weighted == Weighted(ts[..i])
    {
      var w := KindWeight(evs[i].kind);
      var q := QForEvent(evs[i], now, deadline, horizon);
      assert ts[i] == Term(w, q);
      assert ts[..i + 1][..i] == ts[..i];
      weightSum := weightSum + w;
      weighted := weighted + w * q;
    }
    assert ts[..|evs|] == ts;
    if weightSum == 0.0 {
      return 0.0;
    }
    return weighted / weightSum;
  }

  /** The organisation's score of a nonempty inventory lies between its smallest and largest q. */
  lemma {:induction false} OrgBetween(evs: seq<Observation>, now: Nanos, deadline: Nanos, horizon: real,
                                      lo: real, hi: real)
    requires |evs| > 0
    requires forall ev :: ev in evs ==> lo <= QOf(ev, now, deadline, horizon) <= hi
    ensures lo <= OrgScoreOf(evs, now, deadline, horizon) <= hi
  {
    AverageWithin(EventTerms(evs, now, deadline, horizon), 0.0, lo, hi);
  }

  /** It lies in [0, 0.85], the empty inventory included. */
  lemma {:induction false} OrgBounds(evs: seq<Observation>, now: Nanos, deadline: Nanos, horizon: real)
    requires forall ev :: ev in evs ==> 0.0 <= AxisG(ev.agility) <= 1.0
    ensures 0.0 <= OrgScoreOf(evs, now, deadline, horizon) <= 0.85
  {
    if |evs| > 0 {
      forall ev | ev in evs
        ensures 0.0 <= QOf(ev, now, deadline, horizon) <= 0.85
      {
        QBounds(ev, now, deadline, horizon);
      }
      OrgBetween(evs, now, deadline, horizon, 0.0, 0.85);
    }
  }

  /** It does not depend on the order in which the store lists the assets. */
  lemma {:induction false} OrgIgnoresOrder(a: seq<Observation>, b: seq<Observation>, now: Nanos, deadline: Nanos,
                                           horizon: real)
    requires multiset(a) == multiset(b)
    ensures OrgScoreOf(a, now, deadline, horizon) == OrgScoreOf(b, now, deadline, horizon)
  {
    var f := (ev: Observation) => Term(KindWeight(ev.kind), QOf(ev, now, deadline, horizon));
    var s, t := EventTerms(a, now, deadline, horizon), EventTerms(b, now, deadline, horizon);
    assert s == Terms(f, a) && t == Terms(f, b);
    TermsOfPermutation(f, a, b);
    SumsIgnoreOrder(s, t);
  }

  /** An inventory whose assets are all agile enough never looks safer as the deadline nears. */
  lemma {:induction false} OrgRises(evs: seq<Observation>, now: Nanos, later: Nanos, deadline: Nanos,
                                    horizon: real)
    requires now <= later && forall ev :: ev in evs ==> AgileEnough(ev)
    ensures OrgScoreOf(evs, now, deadline, horizon) <= OrgScoreOf(evs, later, deadline, horizon)
  {
    var a, b := EventTerms(evs, now, deadline, horizon), EventTerms(evs, later, deadline, horizon);
    forall i | 0 <= i < |evs|
      ensures a[i].value <= b[i].value
    {
      QRises(evs[i], now, later, deadline, horizon);
    }
    AverageMonotone(a, b, 0.0);
  }

  /// The trend of the organisation: its score is the score of its averages.

  function KindTerms(evs: seq<Observation>, axis: Observation -> real): seq<Term> {
    seq(|evs|, i requires 0 <= i < |evs| => Term(KindWeight(evs[i].kind), axis(evs[i])))
  }

  // The kind-weighted average of one axis.
  function KindAverage(evs: seq<Observation>, axis: Observation -> real): real {
    WeightedAverage(KindTerms(evs, axis), 0.0)
  }

  function EventA(ev: Observation): real {
    AxisAOf(ev.primitives)
  }

  function EventC(ev: Observation): real {
    AxisC(ev.channel)
  }

  function EventG(ev: Observation): real {
    AxisG(ev.agility)
  }

  lemma {:induction false} KindTermsFront(evs: seq<Observation>, axis: Observation -> real)
    requires |evs| > 0
    ensures var n := |evs| - 1;
      && Weight(KindTerms(evs, axis)) == Weight(KindTerms(evs[..n], axis)) + KindWeight(evs[n].kind)
      && Weighted(KindTerms(evs, axis))
         == Weighted(KindTerms(evs[..n], axis)) + KindWeight(evs[n].kind) * axis(evs[n])
  {
    var n := |evs| - 1;
    assert KindTerms(evs, axis)[..n] == KindTerms(evs[..n], axis);
    assert KindTerms(evs, axis)[n] == Term(KindWeight(evs[n].kind), axis(evs[n]));
  }

  lemma {:induction false} SameKindWeight(evs: seq<Observation>, f: Observation -> real, h: Observation -> real)
    ensures Weight(KindTerms(evs, f)) == Weight(KindTerms(evs, h))
  {
    if |evs| > 0 {
      SameKindWeight(evs[..|evs| - 1], f, h);
      KindTermsFront(evs, f);
      KindTermsFront(evs, h);
    }
  }

  lemma {:induction false} SumByIsWeighted(evs: seq<Observation>, axis: Observation -> real, part: Observation -> real)
    requires forall ev :: part(ev) == KindWeight(ev.kind) * axis(ev)
    ensures Weighted(KindTerms(evs, axis)) == SumBy(evs, part)
  {
    if |evs| > 0 {
      SumByIsWeighted(evs[..|evs| - 1], axis, part);
      KindTermsFront(evs, axis);
    }
  }

  ghost predicate Scaled(f: Observation -> real, h: Observation -> real, k: real, ev: Observation) {
    h(ev) == k * f(ev)
  }

  lemma {:induction false} SumByScales(evs: seq<Observation>, f: Observation -> real, h: Observation -> real, k: real)
    requires forall ev :: ev in evs ==> Scaled(f, h, k, ev)
    ensures SumBy(evs, h) == k * SumBy(evs, f)
  {
    if |evs| > 0 {
      var front, ev := evs[..|evs| - 1], evs[|evs| - 1];
      SumByScales(front, f, h, k);
      assert Scaled(f, h, k, ev);
      Distribute(SumBy(front, f), f(ev), k);
    }
  }

  lemma {:induction false} SumScales(evs: seq<Observation>, f: Observation -> real, h: Observation -> real, k: real)
    requires forall ev :: ev in evs ==> Scaled(f, h, k, ev)
    ensures Weighted(KindTerms(evs, h)) == k * Weighted(KindTerms(evs, f))
  {
    var wf, wh := (ev: Observation) => KindWeight(ev.kind) * f(ev), (ev: Observation) => KindWeight(ev.kind) * h(ev);
    SumByIsWeighted(evs, f, wf);
    SumByIsWeighted(evs, h, wh);
    AllPartsScale(evs, f, h, wf, wh, k);
    SumByScales(evs, wf, wh, k);
  }

  lemma {:induction false} AllPartsScale(evs: seq<Observation>, f: Observation -> real, h: Observation -> real,
                                         wf: Observation -> real, wh: Observation -> real, k: real)
    requires forall ev :: ev in evs ==> Scaled(f, h, k, ev)
    requires forall ev :: wf(ev) == KindWeight(ev.kind) * f(ev)
    requires forall ev :: wh(ev) == KindWeight(ev.kind) * h(ev)
    ensures forall ev :: ev in evs ==> Scaled(wf, wh, k, ev)
  {
    forall ev | ev in evs
      ensures Scaled(wf, wh, k, ev)
    {
      assert Scaled(f, h, k, ev);
      PartsScale(f, h, wf, wh, k, ev, KindWeight(ev.kind));
    }
  }

  lemma {:induction false} PartsScale(f: Observation -> real, h: Observation -> real, wf: Observation -> real,
                                      wh: Observation -> real, k: real, ev: Observation, w: real)
    requires Scaled(f, h, k, ev) && wf(ev) == w * f(ev) && wh(ev) == w * h(ev)
    ensures Scaled(wf, wh, k, ev)
  {
    assert w * (k * f(ev)) == k * (w * f(ev));
  }

  lemma {:induction false} ScaleDivides(k: real, x: real, d: real)
    requires d > 0.0
    ensures (k * x) / d == k * (x / d)
  {
    QuotientTimes(x, d, k);
    assert (x / d) * k * d == k * x;
  }

  lemma {:induction false} AverageScales(evs: seq<Observation>, f: Observation -> real, h: Observation -> real, k: real)
    requires |evs| > 0
    requires forall ev :: ev in evs ==> Scaled(f, h, k, ev)
    ensures KindAverage(evs, h) == k * KindAverage(evs, f)
  {
    SumScales(evs, f, h, k);
    SameKindWeight(evs, f, h);
    PositiveSum(KindTerms(evs, f));
    ScaleDivides(k, Weighted(KindTerms(evs, f)), Weight(KindTerms(evs, f)));
  }

  lemma {:induction false} FourShares(w: real, a: real, b: real, c: real, d: real)
    requires a + b + c + d == 1.0
    ensures w * a + w * b + w * c + w * d == w
  {
    assert w * (a + b + c + d) == w;
  }

  lemma {:induction false} SumsToOne(evs: seq<Observation>, f1: Observation -> real, f2: Observation -> real,
                                     f3: Observation -> real, f4: Observation -> real)
    requires forall ev :: ev in evs ==> f1(ev) + f2(ev) + f3(ev) + f4(ev) == 1.0
    ensures Weighted(KindTerms(evs, f1)) + Weighted(KindTerms(evs, f2))
          + Weighted(KindTerms(evs, f3)) + Weighted(KindTerms(evs, f4)) == Weight(KindTerms(evs, f1))
  {
    if |evs| > 0 {
      var n := |evs| - 1;
      var ev := evs[n];
      SumsToOne(evs[..n], f1, f2, f3, f4);
      KindTermsFront(evs, f1);
      KindTermsFront(evs, f2);
      KindTermsFront(evs, f3);
      KindTermsFront(evs, f4);
      assert ev in evs;
      FourShares(KindWeight(ev.kind), f1(ev), f2(ev), f3(ev), f4(ev));
    }
  }

  lemma {:induction false} DivideFour(a: real, b: real, c: real, d: real, w: real)
    requires w > 0.0 && a + b + c + d == w
    ensures a / w + b / w + c / w + d / w == 1.0
  {
    var k := 1.0 / w;
    assert w * k == 1.0;
    assert a / w == a * k && b / w == b * k && c / w == c * k && d / w == d * k;
    assert a * k + b * k + c * k + d * k == (a + b + c + d) * k;
  }

  // Four quantities that make up 1 for every asset have averages that make up 1.
  lemma {:induction false} AveragesToOne(evs: seq<Observation>, f1: Observation -> real, f2: Observation -> real,
                                         f3: Observation -> real, f4: Observation -> real)
    requires |evs| > 0
    requires forall ev :: ev in evs ==> f1(ev) + f2(ev) + f3(ev) + f4(ev) == 1.0
    ensures KindAverage(evs, f1) + KindAverage(evs, f2) + KindAverage(evs, f3) + KindAverage(evs, f4) == 1.0
  {
    SumsToOne(evs, f1, f2, f3, f4);
    SameKindWeight(evs, f1, f2);
    SameKindWeight(evs, f1, f3);
    SameKindWeight(evs, f1, f4);
    PositiveSum(KindTerms(evs, f1));
    DivideFour(Weighted(KindTerms(evs, f1)), Weighted(KindTerms(evs, f2)), Weighted(KindTerms(evs, f3)),
               Weighted(KindTerms(evs, f4)), Weight(KindTerms(evs, f1)));
  }

  lemma {:induction false} AverageCombines(evs: seq<Observation>, q: Observation -> real, a: Observation -> real,
                                           c: Observation -> real, g: Observation -> real, x: real, y: real, z: real)
    requires |evs| > 0
    requires forall ev :: ev in evs ==> q(ev) == 1.0 - (x * a(ev) + y * c(ev) + z * g(ev))
    ensures KindAverage(evs, q)
         == 1.0 - (x * KindAverage(evs, a) + y * KindAverage(evs, c) + z * KindAverage(evs, g))
  {
    var xa, yc, zg := (ev: Observation) => x * a(ev), (ev: Observation) => y * c(ev), (ev: Observation) => z * g(ev);
    AverageScales(evs, a, xa, x);
    AverageScales(evs, c, yc, y);
    AverageScales(evs, g, zg, z);
    AveragesToOne(evs, q, xa, yc, zg);
  }

  // The renormalised weights of the three axes.
  function AxisWeights(tau: real): (real, real, real)
    requires tau <= 1.0
  {
    var gamma := GAMMA_MAX * (1.0 - tau);
    var total := ALPHA + BETA + gamma;
    (ALPHA / total, BETA / total, gamma / total)
  }

  lemma {:induction false} ScoreCombines(a: real, c: real, g: real, tau: real)
    requires tau <= 1.0
    ensures var (x, y, z) := AxisWeights(tau); Score(a, c, g, tau) == 1.0 - (x * a + y * c + z * g)
  {
  }

  // The tension that all assets share at one time.
  lemma {:induction false} QIsScore(ev: Observation, now: Nanos, deadline: Nanos, horizon: real, tau: real)
    requires tau == DeadlineTension(now, deadline, horizon)
    ensures tau <= 1.0 && QOf(ev, now, deadline, horizon) == Score(EventA(ev), EventC(ev), EventG(ev), tau)
  {
    TensionRises(now, now, deadline, horizon);
  }

  lemma {:induction false} AllCombine(evs: seq<Observation>, q: Observation -> real, a: Observation -> real, c: Observation -> real,
                                      g: Observation -> real, tau: real, x: real, y: real, z: real)
    requires tau <= 1.0 && (x, y, z) == AxisWeights(tau)
    requires forall ev :: ev in evs ==> q(ev) == Score(a(ev), c(ev), g(ev), tau)
    ensures forall ev :: ev in evs ==> q(ev) == 1.0 - (x * a(ev) + y * c(ev) + z * g(ev))
  {
    forall ev | ev in evs
      ensures q(ev) == 1.0 - (x * a(ev) + y * c(ev) + z * g(ev))
    {
      ScoreCombines(a(ev), c(ev), g(ev), tau);
    }
  }

  lemma {:induction false} ScoresCombine(evs: seq<Observation>, q: Observation -> real, a: Observation -> real,
                                         c: Observation -> real, g: Observation -> real, tau: real)
    requires |evs| > 0 && tau <= 1.0
    requires forall ev :: ev in evs ==> q(ev) == Score(a(ev), c(ev), g(ev), tau)
    ensures KindAverage(evs, q) == Score(KindAverage(evs, a), KindAverage(evs, c), KindAverage(evs, g), tau)
  {
    var (x, y, z) := AxisWeights(tau);
    AllCombine(evs, q, a, c, g, tau, x, y, z);
    AverageCombines(evs, q, a, c, g, x, y, z);
    CombinesToScore(KindAverage(evs, q), KindAverage(evs, a), KindAverage(evs, c), KindAverage(evs, g), tau, x, y, z);
  }

  lemma {:induction false} CombinesToScore(v: real, a: real, c: real, g: real, tau: real, x: real, y: real, z: real)
    requires tau <= 1.0 && (x, y, z) == AxisWeights(tau) && v == 1.0 - (x * a + y * c + z * g)
    ensures v == Score(a, c, g, tau)
  {
    ScoreCombines(a, c, g, tau);
  }

  /** All assets share one tension, so the organisation's score is the score of the kind-weighted
    * averages of the three axes. */
  lemma {:induction false} OrgIsScoreOfAverages(evs: seq<Observation>, now: Nanos, deadline: Nanos, horizon: real)
    requires |evs| > 0
    ensures DeadlineTension(now, deadline, horizon) <= 1.0
    ensures OrgScoreOf(evs, now, deadline, horizon)
         == Score(KindAverage(evs, EventA), KindAverage(evs, EventC), KindAverage(evs, EventG),
                  DeadlineTension(now, deadline, horizon))
  {
    TensionRises(now, now, deadline, horizon);
    var tau := DeadlineTension(now, deadline, horizon);
    var q := (ev: Observation) => QOf(ev, now, deadline, horizon);
    forall ev | ev in evs
      ensures q(ev) == Score(EventA(ev), EventC(ev), EventG(ev), tau)
    {
      QIsScore(ev, now, deadline, horizon, tau);
    }
    ScoresCombine(evs, q, EventA, EventC, EventG, tau);
    assert EventTerms(evs, now, deadline, horizon) == KindTerms(evs, q);
  }

  /** From one time to a later one the organisation's score does not fall if and only if tension is
    * the same at both or its average agility is at least what its average A and C alone would score. */
  lemma {:induction false} OrgTrendIff(evs: seq<Observation>, now: Nanos, later: Nanos, deadline: Nanos, horizon: real)
    requires |evs| > 0 && now <= later
    ensures OrgScoreOf(evs, now, deadline, horizon) <= OrgScoreOf(evs, later, deadline, horizon) <==>
      || DeadlineTension(now, deadline, horizon) == DeadlineTension(later, deadline, horizon)
      || KindAverage(evs, EventG) >= Observed(KindAverage(evs, EventA), KindAverage(evs, EventC))
  {
    TensionRises(now, later, deadline, horizon);
    TensionRises(later, later, deadline, horizon);
    OrgIsScoreOfAverages(evs, now, deadline, horizon);
    OrgIsScoreOfAverages(evs, later, deadline, horizon);
    TwoTensions(KindAverage(evs, EventA), KindAverage(evs, EventC), KindAverage(evs, EventG),
                DeadlineTension(now, deadline, horizon), DeadlineTension(later, deadline, horizon));
  }
}
