/** The org-level migration roadmap projector: an inventory snapshot and a plan of dated milestones
  * give one row of averages and counts per milestone. Scores are reals; dates are integers. */
module Roadmap {
  import opened Sets
  import opened Sorting

  datatype AssetSnapshot =
    AssetSnapshot(identity: string, q: real, blocked: bool, primitives: seq<string>)

  datatype Milestone =
    Milestone(name: string, date: int, assetIds: seq<string>, targetPrimitives: seq<string>)

  datatype MilestoneProjection = MilestoneProjection(
    milestone: string, date: int,
    orgQBefore: real, orgQAfter: real,
    blockedBefore: nat, blockedAfter: nat,
    assetsMigrated: nat, remainingClassical: nat)

  datatype RoadmapProjection = RoadmapProjection(
    todayOrgQ: real, todayBlocked: nat, totalAssets: nat,
    projections: seq<MilestoneProjection>)

  type State = map<string, AssetSnapshot>

  // The score a migrated asset is given, and the floor of the "classical" count.
  const BASELINE: real := 0.10
  const CLASSICAL: real := 0.30

  /// Sums over a map.

  function Scores(s: State): map<string, real> {
    map id | id in s :: s[id].q
  }

  // The sum of a map's values, taken in an unspecified order.
  ghost function SumOf(q: map<string, real>): real
    decreases |q|
  {
    if q == map[] then 0.0
    else
      var id :| id in q;
      q[id] + SumOf(q - {id})
  }

  ghost function Average(q: map<string, real>): real {
    if |q| == 0 then 0.0 else SumOf(q) / |q| as real
  }

  lemma {:induction false} SumPick(q: map<string, real>, k: string)
    requires k in q
    ensures SumOf(q) == q[k] + SumOf(q - {k})
    decreases |q|
  {
    var id :| id in q && SumOf(q) == q[id] + SumOf(q - {id});
    if id != k {
      SumPick(q - {id}, k);
      SumPick(q - {k}, id);
      assert q - {id} - {k} == q - {k} - {id};
    }
  }

  lemma {:induction false} SumOfDifferences(a: map<string, real>, b: map<string, real>)
    requires a.Keys == b.Keys
    ensures SumOf(a) - SumOf(b) == SumOf(map id | id in a :: a[id] - b[id])
    decreases |a|
  {
    var d := map id | id in a :: a[id] - b[id];
    if a == map[] {
      assert b == map[] && d == map[];
    } else {
      var k :| k in a;
      SumPick(a, k);
      SumPick(b, k);
      SumPick(d, k);
      SumOfDifferences(a - {k}, b - {k});
      assert d - {k} == map id | id in a - {k} :: (a - {k})[id] - (b - {k})[id];
    }
  }

  // Entries that are zero may be left out of a sum.
  lemma {:induction false} SumWithoutZeros(q: map<string, real>, zeros: set<string>)
    requires zeros <= q.Keys && forall id :: id in zeros ==> q[id] == 0.0
    ensures SumOf(q) == SumOf(q - zeros)
    decreases |zeros|
  {
    if zeros == {} {
      assert q - zeros == q;
    } else {
      var k :| k in zeros;
      SumPick(q, k);
      SumWithoutZeros(q - {k}, zeros - {k});
      assert q - {k} - (zeros - {k}) == q - zeros;
    }
  }

  lemma {:induction false} SumNonNegative(q: map<string, real>)
    requires forall id :: id in q ==> q[id] >= 0.0
    ensures SumOf(q) >= 0.0
    decreases |q|
  {
    if q != map[] {
      var k :| k in q;
      SumPick(q, k);
      SumNonNegative(q - {k});
    }
  }

  /// The inventory.

  function SumOfList(items: seq<AssetSnapshot>): real {
    if |items| == 0 then 0.0 else SumOfList(items[..|items| - 1]) + items[|items| - 1].q
  }

  function AvgQ(items: seq<AssetSnapshot>): real {
    if |items| == 0 then 0.0 else SumOfList(items) / |items| as real
  }

  function CountBlocked(items: seq<AssetSnapshot>): nat {
    if |items| == 0 then 0
    else CountBlocked(items[..|items| - 1]) + if items[|items| - 1].blocked then 1 else 0
  }

  // The working copy keyed by identity: of two snapshots with one identity the later stays.
  function Index(items: seq<AssetSnapshot>): State {
    if |items| == 0 then map[]
    else Index(items[..|items| - 1])[items[|items| - 1].identity := items[|items| - 1]]
  }

  ghost predicate UniqueIdentities(items: seq<AssetSnapshot>) {
    forall i, j :: 0 <= i < j < |items| ==> items[i].identity != items[j].identity
  }

  function Blocked(s: State): set<string> {
    set id | id in s && s[id].blocked
  }

  function Classical(s: State): set<string> {
    set id | id in s && s[id].q >= CLASSICAL
  }

  lemma {:induction false} IndexHolds(items: seq<AssetSnapshot>, id: string)
    ensures id in Index(items) <==> exists i :: 0 <= i < |items| && items[i].identity == id
  {
    if |items| > 0 {
      var front := items[..|items| - 1];
      IndexHolds(front, id);
      if id in Index(front) {
        var i :| 0 <= i < |front| && front[i].identity == id;
        assert items[i].identity == id;
      }
      if i :| 0 <= i < |items| && items[i].identity == id {
        if i < |front| {
          assert front[i].identity == id;
        }
      }
    }
  }

  lemma {:induction false} LastIsNew(items: seq<AssetSnapshot>)
    requires |items| > 0 && UniqueIdentities(items)
    ensures UniqueIdentities(items[..|items| - 1])
    ensures items[|items| - 1].identity !in Index(items[..|items| - 1])
  {
    var n := |items| - 1;
    IndexHolds(items[..n], items[n].identity);
    forall i | 0 <= i < n
      ensures items[..n][i].identity != items[n].identity
    {
      assert items[i].identity != items[n].identity;
    }
  }

  // What a snapshot of a new identity adds to the working copy.
  lemma {:induction false} NewSnapshot(s: State, a: AssetSnapshot)
    requires a.identity !in s
    ensures var t := s[a.identity := a];
      && |t| == |s| + 1
      && SumOf(Scores(t)) == SumOf(Scores(s)) + a.q
      && |Blocked(t)| == |Blocked(s)| + if a.blocked then 1 else 0
  {
    var t := s[a.identity := a];
    SumPick(Scores(t), a.identity);
    assert Scores(t) - {a.identity} == Scores(s);
    assert Blocked(t) == if a.blocked then Blocked(s) + {a.identity} else Blocked(s);
  }

  lemma {:induction false} ListSumAgrees(items: seq<AssetSnapshot>)
    requires UniqueIdentities(items)
    ensures |Index(items)| == |items| && SumOf(Scores(Index(items))) == SumOfList(items)
  {
    if |items| == 0 {
      assert Scores(Index(items)) == map[];
    } else {
      var n := |items| - 1;
      LastIsNew(items);
      ListSumAgrees(items[..n]);
      NewSnapshot(Index(items[..n]), items[n]);
    }
  }

  lemma {:induction false} ListBlockedAgrees(items: seq<AssetSnapshot>)
    requires UniqueIdentities(items)
    ensures |Blocked(Index(items))| == CountBlocked(items)
  {
    if |items| == 0 {
      assert Blocked(Index(items)) == {};
    } else {
      var n := |items| - 1;
      LastIsNew(items);
      ListBlockedAgrees(items[..n]);
      NewSnapshot(Index(items[..n]), items[n]);
    }
  }

  /** With one snapshot per identity the list and the working copy have the same average and the
    * same number of blocked assets. */
  lemma {:induction false} ListAndStateAgree(items: seq<AssetSnapshot>)
    requires UniqueIdentities(items)
    ensures Average(Scores(Index(items))) == AvgQ(items)
    ensures |Blocked(Index(items))| == CountBlocked(items)
  {
    ListSumAgrees(items);
    ListBlockedAgrees(items);
    var s := Index(items);
    assert Scores(s).Keys == s.Keys;
    assert |Scores(s).Keys| == |Scores(s)| && |s.Keys| == |s|;
  }

  /// Sorting by date.

  function DateOf(m: Milestone): int {
    m.date
  }

  // The library's stable sort by key.
  function SortByDate(plan: seq<Milestone>): seq<Milestone> {
    SortByKey(DateOf, plan)
  }

  /// One milestone.

  function Migrated(a: AssetSnapshot, m: Milestone): AssetSnapshot {
    a.(q := BASELINE, blocked := false, primitives := m.targetPrimitives)
  }

  function Migrate(s: State, m: Milestone): State {
    map id | id in s :: if id in m.assetIds then Migrated(s[id], m) else s[id]
  }

  // How many entries of the list name a known asset; a repeated name counts each time.
  function Hits(ids: seq<string>, known: set<string>): nat {
    if |ids| == 0 then 0
    else Hits(ids[..|ids| - 1], known) + if ids[|ids| - 1] in known then 1 else 0
  }

  ghost predicate NoKnownIdRepeats(ids: seq<string>, known: set<string>) {
    forall i, j :: 0 <= i < j < |ids| && ids[i] in known ==> ids[i] != ids[j]
  }

  lemma {:induction false} HitsCountDistinctIffNoRepeat(ids: seq<string>, known: set<string>)
    ensures |set id | id in ids && id in known| <= Hits(ids, known)
    ensures |set id | id in ids && id in known| == Hits(ids, known) <==> NoKnownIdRepeats(ids, known)
  {
    if |ids| == 0 {
      assert (set id | id in ids && id in known) == {};
    } else {
      var front, last := ids[..|ids| - 1], ids[|ids| - 1];
      HitsCountDistinctIffNoRepeat(front, known);
      assert ids == front + [last];
      var before, after := set id | id in front && id in known, set id | id in ids && id in known;
      assert after == if last in known then before + {last} else before;
      if last in known && last in front {
        var i :| 0 <= i < |front| && front[i] == last;
        assert ids[i] == ids[|ids| - 1];
        assert !NoKnownIdRepeats(ids, known);
      } else {
        NoRepeatSplit(front, last, known);
      }
    }
  }

  lemma {:induction false} NoRepeatSplit(front: seq<string>, last: string, known: set<string>)
    requires last !in known || last !in front
    ensures NoKnownIdRepeats(front + [last], known) <==> NoKnownIdRepeats(front, known)
  {
    var ids := front + [last];
    assert forall i :: 0 <= i < |front| ==> ids[i] == front[i];
  }

  method MigrateAssets(s: State, m: Milestone) returns (state: State, migrated: nat)
    ensures state == Migrate(s, m)
    ensures migrated == Hits(m.assetIds, s.Keys)
  {
    state := s;
    migrated := 0;
    var i := 0;
    while i < |m.assetIds|
      invariant 0 <= i <= |m.assetIds|
      invariant state.Keys == s.Keys
      invariant forall id :: id in s ==>
        state[id] == if id in m.assetIds[..i] then Migrated(s[id], m) else s[id]
      invariant migrated == Hits(m.assetIds[..i], s.Keys)
    {
      var id := m.assetIds[i];
      assert m.assetIds[..i + 1] == m.assetIds[..i] + [id];
      assert m.assetIds[..i + 1][..i] == m.assetIds[..i];
      if id in state {
        var asset := state[id];
        asset := asset.(q := BASELINE, blocked := false, primitives := m.targetPrimitives);
        state := state[id := asset];
        migrated := migrated + 1;
      }
      i := i + 1;
    }
    assert m.assetIds[..i] == m.assetIds;
  }

  // The fold over the map's values: whatever order they come in, the result is the average.
  method AvgQState(s: State) returns (r: real)
    ensures r == Average(Scores(s))
  {
    if |s| == 0 {
      assert |Scores(s)| == 0 by { assert Scores(s).Keys == s.Keys; }
      return 0.0;
    }
    var sum := 0.0;
    var left := s.Keys;
    ghost var q := Scores(s);
    assert q - (q.Keys - left) == q;
    while left != {}
      invariant left <= s.Keys
      invariant sum + SumOf(q - (q.Keys - left)) == SumOf(q)
      decreases |left|
    {
      var id :| id in left;
      SumPick(q - (q.Keys - left), id);
      assert q - (q.Keys - left) - {id} == q - (q.Keys - (left - {id}));
      sum := sum + s[id].q;
      left := left - {id};
    }
    assert q - (q.Keys - left) == map[];
    assert q.Keys == s.Keys;
    assert |q| == |s| by { assert |q.Keys| == |q| && |s.Keys| == |s|; }
    return sum / |s| as real;
  }

  ghost function Row(s: State, m: Milestone): MilestoneProjection {
    var t := Migrate(s, m);
    MilestoneProjection(m.name, m.date, Average(Scores(s)), Average(Scores(t)),
                        |Blocked(s)|, |Blocked(t)|, Hits(m.assetIds, s.Keys), |Classical(t)|)
  }

  method ProjectMilestone(s: State, m: Milestone) returns (state: State, row: MilestoneProjection)
    ensures state == Migrate(s, m)
    ensures row == Row(s, m)
  {
    var qBefore := AvgQState(s);
    var blockedBefore := |Blocked(s)|;
    var migrated: nat;
    state, migrated := MigrateAssets(s, m);
    var qAfter := AvgQState(state);
    row := MilestoneProjection(m.name, m.date, qBefore, qAfter, blockedBefore,
                               |Blocked(state)|, migrated, |Classical(state)|);
  }

  /// A whole plan.

  function StateAfter(s: State, ms: seq<Milestone>): State {
    if |ms| == 0 then s else Migrate(StateAfter(s, ms[..|ms| - 1]), ms[|ms| - 1])
  }

  // One row per milestone, each made from the state before it; the form of a row is a parameter so
  // that facts about the list need not look inside one.
  ghost function Rows<R>(row: (State, Milestone) -> R, s: State, ms: seq<Milestone>): (rows: seq<R>)
    ensures |rows| == |ms|
  {
    if |ms| == 0 then []
    else
      var front := ms[..|ms| - 1];
      Rows(row, s, front) + [row(StateAfter(s, front), ms[|ms| - 1])]
  }

  lemma {:induction false} RowsAt<R>(row: (State, Milestone) -> R, s: State, ms: seq<Milestone>, i: nat)
    requires i < |ms|
    ensures Rows(row, s, ms)[i] == row(StateAfter(s, ms[..i]), ms[i])
  {
    var front := ms[..|ms| - 1];
    if i < |front| {
      RowsAt(row, s, front, i);
      assert front[..i] == ms[..i];
    }
  }

  lemma {:induction false} OneMilestoneMore<R>(row: (State, Milestone) -> R, s: State,
                                              ms: seq<Milestone>, i: nat)
    requires i < |ms|
    ensures StateAfter(s, ms[..i + 1]) == Migrate(StateAfter(s, ms[..i]), ms[i])
    ensures Rows(row, s, ms[..i + 1])
         == Rows(row, s, ms[..i]) + [row(StateAfter(s, ms[..i]), ms[i])]
  {
    assert ms[..i + 1][..i] == ms[..i];
  }

  ghost function Trajectory(s: State, ms: seq<Milestone>): (rows: seq<MilestoneProjection>)
    ensures |rows| == |ms|
  {
    Rows(Row, s, ms)
  }

  // The milestone loop.
  method ProjectSorted(start: State, sorted: seq<Milestone>)
    returns (projections: seq<MilestoneProjection>)
    ensures projections == Trajectory(start, sorted)
  {
    var state := start;
    projections := [];
    for i := 0 to |sorted|
      invariant state == StateAfter(start, sorted[..i])
      invariant projections == Trajectory(start, sorted[..i])
    {
      var row: MilestoneProjection;
      state, row := ProjectMilestone(state, sorted[i]);
      OneMilestoneMore(Row, start, sorted, i);
      projections := projections + [row];
    }
    assert sorted[..|sorted|] == sorted;
  }

  method ProjectRoadmap(inventory: seq<AssetSnapshot>, plan: seq<Milestone>)
    returns (r: RoadmapProjection)
    ensures r.todayOrgQ == AvgQ(inventory)
    ensures r.todayBlocked == CountBlocked(inventory)
    ensures r.totalAssets == |inventory|
    ensures r.projections == Trajectory(Index(inventory), SortByDate(plan))
  {
    var projections := ProjectSorted(Index(inventory), SortByDate(plan));
    r := RoadmapProjection(AvgQ(inventory), CountBlocked(inventory), |inventory|, projections);
  }

  /// What a plan does.

  // The known or unknown ids named by the milestones so far.
  function Named(ms: seq<Milestone>): set<string> {
    set i, id | 0 <= i < |ms| && id in ms[i].assetIds :: id
  }

  // The targets of the last milestone that names the asset.
  function LastTarget(ms: seq<Milestone>, id: string): seq<string> {
    if |ms| == 0 then []
    else if id in ms[|ms| - 1].assetIds then ms[|ms| - 1].targetPrimitives
    else LastTarget(ms[..|ms| - 1], id)
  }

  function AssetAfter(a: AssetSnapshot, id: string, ms: seq<Milestone>): AssetSnapshot {
    if id in Named(ms)
    then a.(q := BASELINE, blocked := false, primitives := LastTarget(ms, id))
    else a
  }

  lemma {:induction false} NamedSplit(ms: seq<Milestone>, id: string)
    requires |ms| > 0
    ensures id in Named(ms) <==> id in Named(ms[..|ms| - 1]) || id in ms[|ms| - 1].assetIds
  {
    var front := ms[..|ms| - 1];
    if id in Named(ms) {
      var i :| 0 <= i < |ms| && id in ms[i].assetIds;
      if i < |front| {
        assert id in front[i].assetIds;
      }
    }
    if id in Named(front) {
      var i :| 0 <= i < |front| && id in front[i].assetIds;
      assert id in ms[i].assetIds;
    }
    if id in ms[|ms| - 1].assetIds {
      assert id in Named(ms);
    }
  }

  /** After any run of milestones exactly the known assets named so far are at the baseline, clear
    * of BLOCKED and on the primitives of the last milestone that named them; the rest are as at
    * the start, and no asset appears or disappears. */
  lemma {:induction false} ExactlyTheNamedMove(s: State, ms: seq<Milestone>)
    ensures StateAfter(s, ms).Keys == s.Keys
    ensures forall id :: id in s ==> StateAfter(s, ms)[id] == AssetAfter(s[id], id, ms)
  {
    if |ms| > 0 {
      var front := ms[..|ms| - 1];
      ExactlyTheNamedMove(s, front);
      forall id | id in s
        ensures StateAfter(s, ms)[id] == AssetAfter(s[id], id, ms)
      {
        NamedSplit(ms, id);
      }
    }
  }

  lemma {:induction false} BlockedAfter(s: State, ms: seq<Milestone>)
    ensures Blocked(StateAfter(s, ms)) == Blocked(s) - Named(ms)
    ensures Classical(StateAfter(s, ms)) == Classical(s) - Named(ms)
  {
    ExactlyTheNamedMove(s, ms);
  }

  lemma {:induction false} NamedGrows(ms: seq<Milestone>, i: nat, j: nat)
    requires i <= j <= |ms|
    ensures Named(ms[..i]) <= Named(ms[..j])
  {
    forall id | id in Named(ms[..i])
      ensures id in Named(ms[..j])
    {
      var k :| 0 <= k < |ms[..i]| && id in ms[..i][k].assetIds;
      assert id in ms[..j][k].assetIds;
    }
  }

  /** Blocked and classical counts are those of the known assets not yet named, so they never rise
    * along a trajectory. */
  lemma {:induction false} CountsNeverRise(s: State, ms: seq<Milestone>, i: nat)
    requires i < |ms|
    ensures Trajectory(s, ms)[i].blockedBefore == |Blocked(s) - Named(ms[..i])|
    ensures Trajectory(s, ms)[i].blockedAfter == |Blocked(s) - Named(ms[..i + 1])|
    ensures Trajectory(s, ms)[i].remainingClassical == |Classical(s) - Named(ms[..i + 1])|
    ensures Trajectory(s, ms)[i].blockedAfter <= Trajectory(s, ms)[i].blockedBefore
    ensures i > 0 ==>
      Trajectory(s, ms)[i].remainingClassical <= Trajectory(s, ms)[i - 1].remainingClassical
  {
    RowEnds(s, ms, i);
    BlockedAfter(s, ms[..i]);
    BlockedAfter(s, ms[..i + 1]);
    NamedGrows(ms, i, i + 1);
    Smaller(Blocked(s) - Named(ms[..i + 1]), Blocked(s) - Named(ms[..i]));
    if i > 0 {
      RowEnds(s, ms, i - 1);
      Smaller(Classical(s) - Named(ms[..i + 1]), Classical(s) - Named(ms[..i]));
    }
  }

  lemma {:induction false} RowEnds(s: State, ms: seq<Milestone>, i: nat)
    requires i < |ms|
    ensures Trajectory(s, ms)[i].orgQBefore == Average(Scores(StateAfter(s, ms[..i])))
    ensures Trajectory(s, ms)[i].orgQAfter == Average(Scores(StateAfter(s, ms[..i + 1])))
    ensures Trajectory(s, ms)[i].blockedBefore == |Blocked(StateAfter(s, ms[..i]))|
    ensures Trajectory(s, ms)[i].blockedAfter == |Blocked(StateAfter(s, ms[..i + 1]))|
    ensures Trajectory(s, ms)[i].remainingClassical == |Classical(StateAfter(s, ms[..i + 1]))|
    ensures Trajectory(s, ms)[i].milestone == ms[i].name
    ensures Trajectory(s, ms)[i].date == ms[i].date
    ensures Trajectory(s, ms)[i].assetsMigrated == Hits(ms[i].assetIds, StateAfter(s, ms[..i]).Keys)
  {
    RowsAt(Row, s, ms, i);
    OneMilestoneMore(Row, s, ms, i);
  }

  /** The reported migration count is at least the number of distinct known assets the milestone
    * names, and equals it if and only if the milestone names no known asset twice. */
  lemma {:induction false} MigratedIsDistinctIffNoRepeat(s: State, ms: seq<Milestone>, i: nat)
    requires i < |ms|
    ensures var named := |set id | id in ms[i].assetIds && id in s|;
      && named <= Trajectory(s, ms)[i].assetsMigrated
      && (Trajectory(s, ms)[i].assetsMigrated == named <==> NoKnownIdRepeats(ms[i].assetIds, s.Keys))
  {
    RowEnds(s, ms, i);
    ExactlyTheNamedMove(s, ms[..i]);
    HitsCountDistinctIffNoRepeat(ms[i].assetIds, s.Keys);
    assert (set id | id in ms[i].assetIds && id in s) == (set id | id in ms[i].assetIds && id in s.Keys);
  }

  lemma {:induction false} RowFollows(s: State, ms: seq<Milestone>, j: nat)
    requires 0 < j < |ms|
    ensures Trajectory(s, ms)[j].orgQBefore == Trajectory(s, ms)[j - 1].orgQAfter
    ensures Trajectory(s, ms)[j].blockedBefore == Trajectory(s, ms)[j - 1].blockedAfter
  {
    RowEnds(s, ms, j);
    RowEnds(s, ms, j - 1);
  }

  /** The rows are in date order and each row starts where the one before it ended. */
  lemma {:induction false} RowsChain(inventory: seq<AssetSnapshot>, plan: seq<Milestone>, i: nat, j: nat)
    requires i < j < |plan|
    ensures |Trajectory(Index(inventory), SortByDate(plan))| == |plan|
    ensures Trajectory(Index(inventory), SortByDate(plan))[i].date
         <= Trajectory(Index(inventory), SortByDate(plan))[j].date
    ensures Trajectory(Index(inventory), SortByDate(plan))[j].orgQBefore
         == Trajectory(Index(inventory), SortByDate(plan))[j - 1].orgQAfter
    ensures Trajectory(Index(inventory), SortByDate(plan))[j].blockedBefore
         == Trajectory(Index(inventory), SortByDate(plan))[j - 1].blockedAfter
  {
    var s, ms := Index(inventory), SortByDate(plan);
    SortIsStable(DateOf, plan);
    assert |multiset(ms)| == |ms| && |multiset(plan)| == |plan|;
    RowEnds(s, ms, i);
    RowEnds(s, ms, j);
    RowFollows(s, ms, j);
  }

  /// Where today's figures and the first row agree.

  // The entry shares its identity with a later one, so the working copy does not hold it.
  ghost predicate Shadowed(items: seq<AssetSnapshot>, i: nat) {
    i < |items| && exists j :: i < j < |items| && items[j].identity == items[i].identity
  }

  ghost predicate ShadowedBlocked(items: seq<AssetSnapshot>) {
    exists i: nat :: Shadowed(items, i) && items[i].blocked
  }

  // The last entry of each identity is the one held.
  lemma {:induction false} IndexHoldsLast(items: seq<AssetSnapshot>, id: string) returns (k: nat)
    requires id in Index(items)
    ensures k < |items| && items[k].identity == id && Index(items)[id] == items[k] && !Shadowed(items, k)
  {
    var n := |items| - 1;
    if items[n].identity == id {
      k := n;
    } else {
      k := IndexHoldsLast(items[..n], id);
      forall j | k < j < |items|
        ensures items[j].identity != id
      {
        if j < n {
          assert items[..n][j].identity != items[..n][k].identity;
        }
      }
    }
  }

  lemma {:induction false} ShadowedBlockedSplit(items: seq<AssetSnapshot>)
    requires |items| > 0
    ensures var (front, last) := (items[..|items| - 1], items[|items| - 1]);
      ShadowedBlocked(items) <==> ShadowedBlocked(front) || last.identity in Blocked(Index(front))
  {
    var n := |items| - 1;
    var front, last := items[..n], items[n];
    if i: nat :| Shadowed(front, i) && front[i].blocked {
      var j :| i < j < |front| && front[j].identity == front[i].identity;
      assert items[j].identity == items[i].identity;
      assert Shadowed(items, i) && items[i].blocked;
    }
    if last.identity in Blocked(Index(front)) {
      var k := IndexHoldsLast(front, last.identity);
      assert items[n].identity == items[k].identity;
      assert Shadowed(items, k) && items[k].blocked;
    }
    if i: nat :| Shadowed(items, i) && items[i].blocked {
      if !ShadowedBlocked(front) {
        BlockedAndShadowedByLast(items, i);
      }
    }
  }

  lemma {:induction false} BlockedAndShadowedByLast(items: seq<AssetSnapshot>, i: nat)
    requires Shadowed(items, i) && items[i].blocked && !ShadowedBlocked(items[..|items| - 1])
    ensures items[|items| - 1].identity in Blocked(Index(items[..|items| - 1]))
  {
    var n := |items| - 1;
    var front := items[..n];
    assert front[i] == items[i] && !Shadowed(front, i);
    forall m | i < m < n
      ensures items[m].identity != items[i].identity
    {
      assert front[m].identity != front[i].identity;
    }
    IndexHolds(front, items[i].identity);
    assert front[i].identity == items[i].identity;
    var k := IndexHoldsLast(front, items[i].identity);
    assert !(i < k < n);
    assert forall m :: k < m < n ==> front[m].identity != front[k].identity;
    assert k == i;
  }

  // The blocked ids of the working copy after one more snapshot.
  lemma {:induction false} BlockedStep(s: State, a: AssetSnapshot)
    ensures |Blocked(s[a.identity := a])|
         == |Blocked(s)| - (if a.identity in Blocked(s) then 1 else 0) + if a.blocked then 1 else 0
  {
    var kept := Blocked(s) - {a.identity};
    assert Blocked(s[a.identity := a]) == if a.blocked then kept + {a.identity} else kept;
    assert Blocked(s) == if a.identity in Blocked(s) then kept + {a.identity} else kept;
  }

  lemma {:induction false} BlockedAtMost(items: seq<AssetSnapshot>)
    ensures |Blocked(Index(items))| <= CountBlocked(items)
    ensures |Blocked(Index(items))| == CountBlocked(items) <==> !ShadowedBlocked(items)
  {
    if |items| == 0 {
      assert Blocked(Index(items)) == {};
    } else {
      var n := |items| - 1;
      BlockedAtMost(items[..n]);
      BlockedStep(Index(items[..n]), items[n]);
      ShadowedBlockedSplit(items);
    }
  }

  lemma {:induction false} FirstRowStarts(s: State, plan: seq<Milestone>)
    requires |plan| > 0
    ensures Trajectory(s, SortByDate(plan))[0].orgQBefore == Average(Scores(s))
    ensures Trajectory(s, SortByDate(plan))[0].blockedBefore == |Blocked(s)|
  {
    var ms := SortByDate(plan);
    SortIsStable(DateOf, plan);
    assert |multiset(ms)| == |ms| && |multiset(plan)| == |plan|;
    RowEnds(s, ms, 0);
    assert ms[..0] == [];
  }

  /** Today's blocked count is that of the first row if and only if no entry that shares its
    * identity with a later one is blocked. */
  lemma {:induction false} BlockedTodayIsTheStartIff(inventory: seq<AssetSnapshot>, plan: seq<Milestone>)
    requires |plan| > 0
    ensures |Trajectory(Index(inventory), SortByDate(plan))| > 0
    ensures Trajectory(Index(inventory), SortByDate(plan))[0].blockedBefore == CountBlocked(inventory)
            <==> !ShadowedBlocked(inventory)
  {
    FirstRowStarts(Index(inventory), plan);
    BlockedAtMost(inventory);
  }

  ghost predicate SameIdentities(a: seq<AssetSnapshot>, b: seq<AssetSnapshot>) {
    |a| == |b| && forall i :: 0 <= i < |a| ==> a[i].identity == b[i].identity
  }

  ghost predicate AveragesAgree(items: seq<AssetSnapshot>) {
    AvgQ(items) == Average(Scores(Index(items)))
  }

  // The list with the score 1 at one place and 0 everywhere else.
  function OneAt(items: seq<AssetSnapshot>, i: nat): seq<AssetSnapshot> {
    seq(|items|, k requires 0 <= k < |items| => items[k].(q := if k == i then 1.0 else 0.0))
  }

  lemma {:induction false} SumOfOneAt(items: seq<AssetSnapshot>, i: nat)
    ensures SumOfList(OneAt(items, i)) == if i < |items| then 1.0 else 0.0
  {
    if |items| > 0 {
      var n := |items| - 1;
      SumOfOneAt(items[..n], i);
      assert OneAt(items, i)[..n] == OneAt(items[..n], i);
    }
  }

  lemma {:induction false} SumOfZeros(q: map<string, real>)
    requires forall id :: id in q ==> q[id] == 0.0
    ensures SumOf(q) == 0.0
  {
    SumWithoutZeros(q, q.Keys);
    assert q - q.Keys == map[];
  }

  // A score that only a shadowed entry has is in the list's average and not in the map's.
  lemma {:induction false} ShadowedScoreIsLost(items: seq<AssetSnapshot>, i: nat)
    requires Shadowed(items, i)
    ensures SameIdentities(OneAt(items, i), items) && !AveragesAgree(OneAt(items, i))
  {
    var xs := OneAt(items, i);
    var j :| i < j < |items| && items[j].identity == items[i].identity;
    assert xs[j].identity == xs[i].identity;
    assert Shadowed(xs, i);
    SumOfOneAt(items, i);
    var q := Scores(Index(xs));
    forall id | id in q
      ensures q[id] == 0.0
    {
      var k := IndexHoldsLast(xs, id);
    }
    SumOfZeros(q);
    assert AvgQ(xs) == 1.0 / |items| as real;
    assert Average(q) == 0.0;
  }

  /** Today's average is that of the first row whatever the scores, if and only if no identity is
    * listed twice: otherwise some scores of the same assets tell the two apart. */
  lemma {:induction false} TodayIsTheStartIff(inventory: seq<AssetSnapshot>, plan: seq<Milestone>)
    requires |plan| > 0
    ensures forall xs {:trigger Index(xs)} :: |Trajectory(Index(xs), SortByDate(plan))| > 0
    ensures (forall xs :: SameIdentities(xs, inventory) ==>
               Trajectory(Index(xs), SortByDate(plan))[0].orgQBefore == AvgQ(xs))
            <==> UniqueIdentities(inventory)
  {
    forall xs
      ensures |Trajectory(Index(xs), SortByDate(plan))| > 0
      ensures Trajectory(Index(xs), SortByDate(plan))[0].orgQBefore == Average(Scores(Index(xs)))
    {
      FirstRowStarts(Index(xs), plan);
    }
    if UniqueIdentities(inventory) {
      forall xs | SameIdentities(xs, inventory)
        ensures AveragesAgree(xs)
      {
        ListAndStateAgree(xs);
      }
    } else {
      var i, j :| 0 <= i < j < |inventory| && inventory[i].identity == inventory[j].identity;
      assert Shadowed(inventory, i);
      ShadowedScoreIsLost(inventory, i);
      assert !AveragesAgree(OneAt(inventory, i));
    }
  }

  /** With one snapshot per identity both of today's figures are those of the first row. */
  lemma {:induction false} TodayIsTheStart(inventory: seq<AssetSnapshot>, plan: seq<Milestone>)
    requires UniqueIdentities(inventory) && |SortByDate(plan)| > 0
    ensures Trajectory(Index(inventory), SortByDate(plan))[0].orgQBefore == AvgQ(inventory)
    ensures Trajectory(Index(inventory), SortByDate(plan))[0].blockedBefore == CountBlocked(inventory)
  {
    assert |plan| > 0;
    FirstRowStarts(Index(inventory), plan);
    ListAndStateAgree(inventory);
  }

  /** So one host listed twice is enough for today's average to differ from the first row's. */
  lemma {:induction false} RepeatedIdentityBreaksTheStart(a: AssetSnapshot, b: AssetSnapshot,
                                                          plan: seq<Milestone>)
    requires a.identity == b.identity && |plan| > 0
    ensures exists xs :: SameIdentities(xs, [a, b])
              && |Trajectory(Index(xs), SortByDate(plan))| > 0
              && Trajectory(Index(xs), SortByDate(plan))[0].orgQBefore != AvgQ(xs)
  {
    assert [a, b][0].identity == [a, b][1].identity;
    assert !UniqueIdentities([a, b]);
    TodayIsTheStartIff([a, b], plan);
  }

  // The known assets a milestone names for the first time, with how far each is above the baseline.
  function NewlyNamed(s: State, ms: seq<Milestone>, i: nat): map<string, real>
    requires i < |ms|
  {
    map id | id in s && id in Named(ms[..i + 1]) - Named(ms[..i]) :: s[id].q - BASELINE
  }

  lemma {:induction false} ScoresAfter(s: State, ms: seq<Milestone>)
    ensures Scores(StateAfter(s, ms)).Keys == s.Keys
    ensures forall id :: id in s ==>
      Scores(StateAfter(s, ms))[id] == if id in Named(ms) then BASELINE else s[id].q
  {
    ExactlyTheNamedMove(s, ms);
  }

  // Two sums differ by the differences of the entries that moved.
  lemma {:induction false} SumOfMoved(a: map<string, real>, b: map<string, real>,
                                      moved: map<string, real>)
    requires a.Keys == b.Keys && moved.Keys <= a.Keys
    requires forall id :: id in a ==> a[id] - b[id] == if id in moved then moved[id] else 0.0
    ensures SumOf(a) - SumOf(b) == SumOf(moved)
  {
    SumOfDifferences(a, b);
    var d := map id | id in a :: a[id] - b[id];
    SumWithoutZeros(d, d.Keys - moved.Keys);
    assert d - (d.Keys - moved.Keys) == moved;
  }

  lemma {:induction false} SumDrop(s: State, ms: seq<Milestone>, i: nat)
    requires i < |ms|
    ensures SumOf(Scores(StateAfter(s, ms[..i]))) - SumOf(Scores(StateAfter(s, ms[..i + 1])))
         == SumOf(NewlyNamed(s, ms, i))
  {
    NamedGrows(ms, i, i + 1);
    ScoresAfter(s, ms[..i]);
    ScoresAfter(s, ms[..i + 1]);
    SumOfMoved(Scores(StateAfter(s, ms[..i])), Scores(StateAfter(s, ms[..i + 1])),
               NewlyNamed(s, ms, i));
  }

  lemma {:induction false} ScoresSize(s: State, ms: seq<Milestone>)
    ensures |Scores(StateAfter(s, ms))| == |s|
  {
    ExactlyTheNamedMove(s, ms);
    var q := Scores(StateAfter(s, ms));
    assert q.Keys == s.Keys;
    assert |q.Keys| == |q| && |s.Keys| == |s|;
  }

  lemma {:induction false} AverageDrop(a: map<string, real>, b: map<string, real>,
                                       moved: map<string, real>, n: nat)
    requires |a| == |b| == n > 0
    requires SumOf(a) - SumOf(b) == SumOf(moved)
    ensures Average(a) - Average(b) == SumOf(moved) / n as real
  {
  }

  /** Each milestone lowers the average by exactly what its newly named assets were above the
    * baseline at the start, divided by the number of assets. */
  lemma {:induction false} DropIsTheExcess(s: State, ms: seq<Milestone>, i: nat)
    requires i < |ms| && |s| > 0
    ensures Trajectory(s, ms)[i].orgQBefore - Trajectory(s, ms)[i].orgQAfter
         == SumOf(NewlyNamed(s, ms, i)) / |s| as real
  {
    RowEnds(s, ms, i);
    SumDrop(s, ms, i);
    ScoresSize(s, ms[..i]);
    ScoresSize(s, ms[..i + 1]);
    AverageDrop(Scores(StateAfter(s, ms[..i])), Scores(StateAfter(s, ms[..i + 1])),
                NewlyNamed(s, ms, i), |s|);
  }

  ghost predicate NeverRises(s: State, ms: seq<Milestone>) {
    forall i :: 0 <= i < |ms| ==> Trajectory(s, ms)[i].orgQAfter <= Trajectory(s, ms)[i].orgQBefore
  }

  lemma {:induction false} EmptyStaysFlat(s: State, ms: seq<Milestone>, i: nat)
    requires i < |ms| && |s| == 0
    ensures Trajectory(s, ms)[i].orgQAfter == Trajectory(s, ms)[i].orgQBefore == 0.0
  {
    RowEnds(s, ms, i);
    ScoresSize(s, ms[..i]);
    ScoresSize(s, ms[..i + 1]);
  }

  lemma {:induction false} NoRiseAbove(s: State, ms: seq<Milestone>)
    requires forall id :: id in s ==> s[id].q >= BASELINE
    ensures NeverRises(s, ms)
  {
    forall i | 0 <= i < |ms|
      ensures Trajectory(s, ms)[i].orgQAfter <= Trajectory(s, ms)[i].orgQBefore
    {
      NoRiseAt(s, ms, i);
    }
  }

  lemma {:induction false} NoRiseAt(s: State, ms: seq<Milestone>, i: nat)
    requires i < |ms| && forall id :: id in s ==> s[id].q >= BASELINE
    ensures Trajectory(s, ms)[i].orgQAfter <= Trajectory(s, ms)[i].orgQBefore
  {
    if |s| == 0 {
      EmptyStaysFlat(s, ms, i);
    } else {
      DropIsTheExcess(s, ms, i);
      SumNonNegative(NewlyNamed(s, ms, i));
      DropIsDown(Trajectory(s, ms)[i].orgQBefore, Trajectory(s, ms)[i].orgQAfter,
                 SumOf(NewlyNamed(s, ms, i)), |s| as real);
    }
  }

  lemma {:induction false} DropIsDown(before: real, after: real, excess: real, n: real)
    requires n > 0.0 && excess >= 0.0 && before - after == excess / n
    ensures after <= before
  {
  }

  lemma {:induction false} SumOfOne(id: string, x: real)
    ensures SumOf(map[id := x]) == x
  {
    var q := map[id := x];
    SumPick(q, id);
    assert q - {id} == map[];
  }

  lemma {:induction false} RiseBelow(s: State, id: string)
    requires id in s && s[id].q < BASELINE
    ensures exists ms :: !NeverRises(s, ms)
  {
    var ms := [Milestone("rise", 0, [id], [])];
    OneNamed(s, id, ms[0]);
    SumOfOne(id, s[id].q - BASELINE);
    assert |s| > 0;
    DropIsTheExcess(s, ms, 0);
    DropIsUp(Trajectory(s, ms)[0].orgQBefore, Trajectory(s, ms)[0].orgQAfter, s[id].q - BASELINE, |s| as real);
    assert !NeverRises(s, ms);
  }

  lemma {:induction false} DropIsUp(before: real, after: real, excess: real, n: real)
    requires n > 0.0 && excess < 0.0 && before - after == excess / n
    ensures before < after
  {
  }

  lemma {:induction false} OneNamed(s: State, id: string, m: Milestone)
    requires id in s && m.assetIds == [id]
    ensures NewlyNamed(s, [m], 0) == map[id := s[id].q - BASELINE]
  {
    var ms := [m];
    assert ms[..0] == [] && ms[..1] == ms;
    assert Named(ms[..0]) == {};
    assert Named(ms) == {id} by {
      assert id in ms[0].assetIds;
    }
  }

  /** No plan ever raises the organisation's score if and only if no asset starts below the
    * baseline that migration assigns. */
  lemma {:induction false} NeverRisesIffNoneBelowBaseline(s: State)
    ensures (forall ms :: NeverRises(s, ms)) <==> (forall id :: id in s ==> s[id].q >= BASELINE)
  {
    if forall id :: id in s ==> s[id].q >= BASELINE {
      forall ms
        ensures NeverRises(s, ms)
      {
        NoRiseAbove(s, ms);
      }
    } else {
      var id :| id in s && s[id].q < BASELINE;
      RiseBelow(s, id);
    }
  }

  lemma {:induction false} NamedFromMembers(a: seq<Milestone>, b: seq<Milestone>)
    requires forall m :: m in a ==> m in b
    ensures Named(a) <= Named(b)
  {
    forall id | id in Named(a)
      ensures id in Named(b)
    {
      var i :| 0 <= i < |a| && id in a[i].assetIds;
      assert a[i] in b;
      var j :| 0 <= j < |b| && b[j] == a[i];
      assert id in b[j].assetIds;
    }
  }

  // The two plans leave the same scores, the same average and the same BLOCKED set.
  ghost predicate SameEnd(s: State, a: seq<Milestone>, b: seq<Milestone>) {
    && Scores(StateAfter(s, a)) == Scores(StateAfter(s, b))
    && Average(Scores(StateAfter(s, a))) == Average(Scores(StateAfter(s, b)))
    && Blocked(StateAfter(s, a)) == Blocked(StateAfter(s, b))
  }

  /** Where a plan ends depends only on which known assets it names: reordering it, re-dating it,
    * splitting, merging or repeating milestones and changing targets leave the final scores and the
    * final BLOCKED set as they were. */
  lemma {:induction false} EndIgnoresOrder(s: State, a: seq<Milestone>, b: seq<Milestone>)
    requires Named(a) * s.Keys == Named(b) * s.Keys
    ensures SameEnd(s, a, b)
  {
    ScoresAlike(s, a, b);
    BlockedAfter(s, a);
    BlockedAfter(s, b);
    forall id | id in Blocked(s)
      ensures id in Named(a) <==> id in Named(b)
    {
      NamedAlike(s, a, b, id);
    }
    assert Blocked(s) - Named(a) == Blocked(s) - Named(b);
  }

  lemma {:induction false} ScoresAlike(s: State, a: seq<Milestone>, b: seq<Milestone>)
    requires Named(a) * s.Keys == Named(b) * s.Keys
    ensures Scores(StateAfter(s, a)) == Scores(StateAfter(s, b))
  {
    ExactlyTheNamedMove(s, a);
    ExactlyTheNamedMove(s, b);
    forall id | id in s
      ensures StateAfter(s, a)[id].q == StateAfter(s, b)[id].q
    {
      NamedAlike(s, a, b, id);
    }
  }

  lemma {:induction false} NamedAlike(s: State, a: seq<Milestone>, b: seq<Milestone>, id: string)
    requires Named(a) * s.Keys == Named(b) * s.Keys && id in s
    ensures id in Named(a) <==> id in Named(b)
  {
    assert id in Named(a) * s.Keys <==> id in Named(b) * s.Keys;
  }

  /** And on nothing less: two plans end alike from every state of the same assets if and only if
    * they name the same of them. */
  lemma {:induction false} EndAlikeIffSameNamed(ids: set<string>, a: seq<Milestone>, b: seq<Milestone>)
    ensures (forall s: State :: s.Keys == ids ==> SameEnd(s, a, b)) <==> Named(a) * ids == Named(b) * ids
  {
    if Named(a) * ids == Named(b) * ids {
      forall s: State | s.Keys == ids
        ensures SameEnd(s, a, b)
      {
        EndIgnoresOrder(s, a, b);
      }
    } else {
      var s: State := map id | id in ids :: AssetSnapshot(id, 1.0, true, []);
      assert s.Keys == ids;
      BlockedAfter(s, a);
      BlockedAfter(s, b);
      var id :| id in Named(a) * ids <==> id !in Named(b) * ids;
      assert id in Blocked(s);
      assert !SameEnd(s, a, b);
    }
  }

  /** In particular sorting the plan does not change where it ends. */
  lemma {:induction false} SortingKeepsTheEnd(s: State, plan: seq<Milestone>)
    ensures Average(Scores(StateAfter(s, SortByDate(plan)))) == Average(Scores(StateAfter(s, plan)))
  {
    SortIsStable(DateOf, plan);
    forall m
      ensures m in SortByDate(plan) <==> m in plan
    {
      assert m in multiset(SortByDate(plan)) <==> m in multiset(plan);
    }
    NamedFromMembers(SortByDate(plan), plan);
    NamedFromMembers(plan, SortByDate(plan));
    EndIgnoresOrder(s, SortByDate(plan), plan);
  }
}
