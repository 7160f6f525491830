/** What the certificate-transparency scanner guarantees over any number of visits and runs. */
module CtLaws {
  import Wrappers
  import opened Sorting
  import opened CtScan

  /// Runs join.

  function Run(cursor: Cursor, vs: seq<Visit>): Progress {
    AfterVisits(Start(cursor), vs)
  }

  lemma {:induction false} RunStep(cursor: Cursor, vs: seq<Visit>, v: Visit)
    ensures Run(cursor, vs + [v]) == AfterVisit(Run(cursor, vs), v)
  {
    assert (vs + [v])[..|vs|] == vs;
  }

  // The requests of one visit.
  function VisitRequests(cursor: Cursor, v: Visit): seq<Request> {
    match v.listing
    case ListFailed => []
    case Listed(entries) =>
      Requests(v.domain, SortByKey(IdOf, entries), Seen(cursor, v.domain))
  }

  // The events of one visit.
  function VisitEvents(cursor: Cursor, v: Visit): seq<CertEvent> {
    match v.listing
    case ListFailed => []
    case Listed(entries) =>
      Events(v.domain, SortByKey(IdOf, entries), Seen(cursor, v.domain))
  }

  // What a visit adds, and what it leaves alone.
  lemma {:induction false} VisitMoves(p: Progress, v: Visit)
    ensures AfterVisit(p, v).requests == p.requests + VisitRequests(p.cursor, v)
    ensures AfterVisit(p, v).events == p.events + VisitEvents(p.cursor, v)
    ensures v.listing.Listed? ==>
      Seen(AfterVisit(p, v).cursor, v.domain)
        == HighWater(VisitRequests(p.cursor, v), Seen(p.cursor, v.domain))
    ensures v.listing.ListFailed? ==> AfterVisit(p, v).cursor == p.cursor
    ensures forall d :: d != v.domain ==> Seen(AfterVisit(p, v).cursor, d) == Seen(p.cursor, d)
  {
  }

  /** Scanning a and later, from the saved cursor, b makes the same requests, emits the same events
    * and saves the same cursor as one run over both. */
  lemma {:induction false} RunsJoin(cursor: Cursor, a: seq<Visit>, b: seq<Visit>)
    ensures Run(cursor, a + b).cursor == Run(Run(cursor, a).cursor, b).cursor
    ensures Run(cursor, a + b).requests
         == Run(cursor, a).requests + Run(Run(cursor, a).cursor, b).requests
    ensures Run(cursor, a + b).events
         == Run(cursor, a).events + Run(Run(cursor, a).cursor, b).events
  {
    if |b| == 0 {
      assert a + b == a;
    } else {
      var front, last := b[..|b| - 1], b[|b| - 1];
      RunsJoin(cursor, a, front);
      assert a + b == (a + front) + [last] && b == front + [last];
      JoinOne(cursor, a, front, last);
    }
  }

  lemma {:induction false} JoinOne(cursor: Cursor, a: seq<Visit>, b: seq<Visit>, v: Visit)
    requires Run(cursor, a + b).cursor == Run(Run(cursor, a).cursor, b).cursor
    requires Run(cursor, a + b).requests
          == Run(cursor, a).requests + Run(Run(cursor, a).cursor, b).requests
    requires Run(cursor, a + b).events
          == Run(cursor, a).events + Run(Run(cursor, a).cursor, b).events
    ensures Run(cursor, a + b + [v]).cursor == Run(Run(cursor, a).cursor, b + [v]).cursor
    ensures Run(cursor, a + b + [v]).requests
         == Run(cursor, a).requests + Run(Run(cursor, a).cursor, b + [v]).requests
    ensures Run(cursor, a + b + [v]).events
         == Run(cursor, a).events + Run(Run(cursor, a).cursor, b + [v]).events
  {
    RunStep(cursor, a + b, v);
    RunStep(Run(cursor, a).cursor, b, v);
    JoinStep(Run(cursor, a + b), Run(Run(cursor, a).cursor, b), Run(cursor, a), v);
  }

  lemma {:induction false} JoinStep(p: Progress, q: Progress, base: Progress, v: Visit)
    requires p.cursor == q.cursor
    requires p.requests == base.requests + q.requests && p.events == base.events + q.events
    ensures AfterVisit(p, v).cursor == AfterVisit(q, v).cursor
    ensures AfterVisit(p, v).requests == base.requests + AfterVisit(q, v).requests
    ensures AfterVisit(p, v).events == base.events + AfterVisit(q, v).events
  {
    VisitMoves(p, v);
    VisitMoves(q, v);
  }

  /// Accounting.

  /** Every listed entry is counted once: as below the cursor, fetched, or failed. */
  lemma {:induction false} Accounting(cursor: Cursor, vs: seq<Visit>)
    ensures var p := Run(cursor, vs); var s := p.stats;
      && s.domainsScanned == |vs|
      && s.entriesListed == s.entriesBelowCursor + s.certsFetched + s.fetchFailures
      && s.certsFetched == CountUsable(p.requests)
      && s.certsFetched + s.fetchFailures == |p.requests|
      && s.eventsEmitted == |p.events|
  {
    if |vs| > 0 {
      var front, v := vs[..|vs| - 1], vs[|vs| - 1];
      Accounting(cursor, front);
      if v.listing.Listed? {
        var p := Run(cursor, front);
        var es := SortByKey(IdOf, v.listing.entries);
        var mark := Seen(p.cursor, v.domain);
        SortIsStable(IdOf, v.listing.entries);
        assert |es| == |multiset(es)| == |multiset(v.listing.entries)| == |v.listing.entries|;
        RequestCounts(v.domain, es, mark);
        UsableAtMost(Requests(v.domain, es, mark));
        UsableOfJoined(p.requests, Requests(v.domain, es, mark));
      }
    }
  }

  lemma {:induction false} UsableOfJoined(a: seq<Request>, b: seq<Request>)
    ensures CountUsable(a + b) == CountUsable(a) + CountUsable(b)
  {
    if |b| == 0 {
      assert a + b == a;
    } else {
      UsableOfJoined(a, b[..|b| - 1]);
      assert (a + b)[..|a + b| - 1] == a + b[..|b| - 1];
    }
  }

  /// The mark.

  lemma {:induction false} HighWaterIs(rs: seq<Request>, mark: nat)
    ensures HighWater(rs, mark) >= mark
    ensures forall r :: r in rs && r.usable ==> r.id <= HighWater(rs, mark)
    ensures HighWater(rs, mark) == mark
         || exists r :: r in rs && r.usable && r.id == HighWater(rs, mark)
  {
    if |rs| > 0 {
      var front, last := rs[..|rs| - 1], rs[|rs| - 1];
      HighWaterIs(front, mark);
      assert rs == front + [last];
      assert last in rs;
      if HighWater(rs, mark) == HighWater(front, mark) != mark {
        var r :| r in front && r.usable && r.id == HighWater(front, mark);
        assert r in rs;
      }
    }
  }

  lemma {:induction false} RequestsAre(domain: string, es: seq<Entry>, mark: nat, r: Request)
    ensures r in Requests(domain, es, mark) <==>
            exists e :: e in es && e.id > mark && r == Request(domain, e.id, Usable(e))
  {
    if |es| > 0 {
      var front, last := es[..|es| - 1], es[|es| - 1];
      RequestsAre(domain, front, mark, r);
      assert es == front + [last];
      if e :| e in es && e.id > mark && r == Request(domain, e.id, Usable(e)) {
        assert e in front || e == last;
      }
      if e :| e in front && e.id > mark && r == Request(domain, e.id, Usable(e)) {
        assert e in es;
      }
      assert last in es;
    }
  }

  lemma {:induction false} SortKeepsMembers(es: seq<Entry>, e: Entry)
    ensures e in SortByKey(IdOf, es) <==> e in es
  {
    SortIsStable(IdOf, es);
    assert e in multiset(SortByKey(IdOf, es)) <==> e in multiset(es);
  }

  /** A visit requests exactly the listed ids above the domain's mark. */
  lemma {:induction false} RequestedIffAbove(cursor: Cursor, v: Visit, d: string, id: nat, usable: bool)
    ensures Request(d, id, usable) in VisitRequests(cursor, v) <==>
            && v.listing.Listed? && d == v.domain && id > Seen(cursor, d)
            && exists e :: e in v.listing.entries && e.id == id && Usable(e) == usable
  {
    if v.listing.Listed? {
      var es, mark := SortByKey(IdOf, v.listing.entries), Seen(cursor, v.domain);
      var r := Request(d, id, usable);
      RequestsAre(v.domain, es, mark, r);
      if r in Requests(v.domain, es, mark) {
        var e :| e in es && e.id > mark && r == Request(v.domain, e.id, Usable(e));
        SortKeepsMembers(v.listing.entries, e);
      }
      if e :| d == v.domain && id > mark && e in v.listing.entries && e.id == id && Usable(e) == usable {
        SortKeepsMembers(v.listing.entries, e);
      }
    }
  }

  /** A domain's cursor never decreases, and it is where it started or the greatest id of the domain
    * that has given a usable certificate. */
  lemma {:induction false} CursorIsGreatestUsable(cursor: Cursor, vs: seq<Visit>, d: string)
    ensures var p := Run(cursor, vs);
      && Seen(p.cursor, d) >= Seen(cursor, d)
      && (forall r :: r in p.requests && r.domain == d && r.usable ==> r.id <= Seen(p.cursor, d))
      && (Seen(p.cursor, d) == Seen(cursor, d)
          || Request(d, Seen(p.cursor, d), true) in p.requests)
  {
    if |vs| > 0 {
      var front, v := vs[..|vs| - 1], vs[|vs| - 1];
      CursorIsGreatestUsable(cursor, front, d);
      MarkStep(Run(cursor, front), v, d, Seen(cursor, d));
    }
  }

  ghost predicate MarkHolds(p: Progress, d: string, start: nat) {
    && Seen(p.cursor, d) >= start
    && (forall r :: r in p.requests && r.domain == d && r.usable ==> r.id <= Seen(p.cursor, d))
    && (Seen(p.cursor, d) == start || Request(d, Seen(p.cursor, d), true) in p.requests)
  }

  lemma {:induction false} MarkStep(p: Progress, v: Visit, d: string, start: nat)
    requires MarkHolds(p, d, start)
    ensures MarkHolds(AfterVisit(p, v), d, start)
  {
    VisitMoves(p, v);
    var rs := VisitRequests(p.cursor, v);
    forall r | r in rs
      ensures r.domain == v.domain
    {
      RequestedIffAbove(p.cursor, v, r.domain, r.id, r.usable);
    }
    if v.listing.Listed? && d == v.domain {
      HighWaterIs(rs, Seen(p.cursor, d));
    }
  }

  /** The scanner sorts each listing so that the cursor should advance in order, but the mark it
    * saves is the same for every order of the listing. */
  lemma {:induction false} SortDoesNotMoveTheMark(d: string, es: seq<Entry>, mark: nat)
    ensures HighWater(Requests(d, SortByKey(IdOf, es), mark), mark)
         == HighWater(Requests(d, es, mark), mark)
  {
    var a, b := Requests(d, SortByKey(IdOf, es), mark), Requests(d, es, mark);
    HighWaterIs(a, mark);
    HighWaterIs(b, mark);
    forall r
      ensures r in a <==> r in b
    {
      RequestsAre(d, SortByKey(IdOf, es), mark, r);
      RequestsAre(d, es, mark, r);
      if e :| e in es && e.id > mark && r == Request(d, e.id, Usable(e)) {
        SortKeepsMembers(es, e);
      }
      if e :| e in SortByKey(IdOf, es) && e.id > mark && r == Request(d, e.id, Usable(e)) {
        SortKeepsMembers(es, e);
      }
    }
  }

  /// The mark and the requests, read off the listings.

  // The visit lists the id, with or without a usable certificate behind it.
  ghost predicate Lists(v: Visit, d: string, id: nat, usable: bool) {
    v.listing.Listed? && v.domain == d
    && exists e :: e in v.listing.entries && e.id == id && Usable(e) == usable
  }

  // The id is above every usable id the visit lists.
  ghost predicate AboveListed(v: Visit, d: string, id: nat) {
    forall x: nat :: Lists(v, d, x, true) ==> x < id
  }

  ghost predicate UsableEarlier(vs: seq<Visit>, d: string, id: nat) {
    exists k :: 0 <= k < |vs| && Lists(vs[k], d, id, true)
  }

  // The id is above where the cursor started and above every usable id listed in the visits.
  ghost predicate Exceeds(cursor: Cursor, vs: seq<Visit>, d: string, id: nat) {
    id > Seen(cursor, d) && forall x: nat :: UsableEarlier(vs, d, x) ==> x < id
  }

  ghost predicate RequestedAt(cursor: Cursor, vs: seq<Visit>, d: string, id: nat, usable: bool, k: nat)
    requires k < |vs|
  {
    Lists(vs[k], d, id, usable) && Exceeds(cursor, vs[..k], d, id)
  }

  lemma {:induction false} UsableSplit(vs: seq<Visit>, d: string, id: nat)
    requires |vs| > 0
    ensures UsableEarlier(vs, d, id) <==>
            UsableEarlier(vs[..|vs| - 1], d, id) || Lists(vs[|vs| - 1], d, id, true)
  {
    var front := vs[..|vs| - 1];
    if k :| 0 <= k < |vs| && Lists(vs[k], d, id, true) {
      if k < |front| {
        assert Lists(front[k], d, id, true);
      }
    }
    if k :| 0 <= k < |front| && Lists(front[k], d, id, true) {
      assert Lists(vs[k], d, id, true);
    }
  }

  lemma {:induction false} UsableInPrefix(vs: seq<Visit>, d: string, id: nat, j: nat, k: nat)
    requires j < k <= |vs| && Lists(vs[j], d, id, true)
    ensures UsableEarlier(vs[..k], d, id)
  {
    assert Lists(vs[..k][j], d, id, true);
  }

  // The mark after one more visit, in terms of that visit's requests.
  lemma {:induction false} OneVisit(p: Progress, v: Visit, d: string)
    ensures var top := Seen(AfterVisit(p, v).cursor, d);
      && top >= Seen(p.cursor, d)
      && (forall id: nat :: Request(d, id, true) in VisitRequests(p.cursor, v) ==> id <= top)
      && (top == Seen(p.cursor, d) || Request(d, top, true) in VisitRequests(p.cursor, v))
  {
    VisitMoves(p, v);
    var rs := VisitRequests(p.cursor, v);
    forall r | r in rs
      ensures r.domain == v.domain
    {
      RequestedIffAbove(p.cursor, v, r.domain, r.id, r.usable);
    }
    if v.listing.Listed? && d == v.domain {
      HighWaterIs(rs, Seen(p.cursor, d));
    }
  }

  lemma {:induction false} AboveAfterVisit(p: Progress, v: Visit, d: string, id: nat)
    ensures id > Seen(AfterVisit(p, v).cursor, d) <==>
            id > Seen(p.cursor, d) && AboveListed(v, d, id)
  {
    OneVisit(p, v, d);
    var top := Seen(AfterVisit(p, v).cursor, d);
    forall x: nat
      ensures Request(d, x, true) in VisitRequests(p.cursor, v) <==>
              Lists(v, d, x, true) && x > Seen(p.cursor, d)
    {
      RequestedIffAbove(p.cursor, v, d, x, true);
    }
    if id > Seen(p.cursor, d) && AboveListed(v, d, id) {
      assert top == Seen(p.cursor, d) || Lists(v, d, top, true);
    }
  }

  /** An id is above the mark a run leaves if and only if it is above the mark the run started from
    * and above every id the listings offered a usable certificate for. */
  lemma {:induction false} MarkFromListings(cursor: Cursor, vs: seq<Visit>, d: string, id: nat)
    ensures id > Seen(Run(cursor, vs).cursor, d) <==> Exceeds(cursor, vs, d, id)
  {
    if |vs| > 0 {
      var front, v := vs[..|vs| - 1], vs[|vs| - 1];
      MarkFromListings(cursor, front, d, id);
      AboveAfterVisit(Run(cursor, front), v, d, id);
      ExceedsSplit(cursor, vs, d, id);
    }
  }

  lemma {:induction false} ExceedsSplit(cursor: Cursor, vs: seq<Visit>, d: string, id: nat)
    requires |vs| > 0
    ensures Exceeds(cursor, vs, d, id) <==>
            Exceeds(cursor, vs[..|vs| - 1], d, id) && AboveListed(vs[|vs| - 1], d, id)
  {
    var front, v := vs[..|vs| - 1], vs[|vs| - 1];
    if Exceeds(cursor, vs, d, id) {
      forall x: nat | UsableEarlier(front, d, x) || Lists(v, d, x, true)
        ensures x < id
      {
        UsableSplit(vs, d, x);
      }
    }
    if Exceeds(cursor, front, d, id) && AboveListed(v, d, id) {
      forall x: nat | UsableEarlier(vs, d, x)
        ensures x < id
      {
        UsableSplit(vs, d, x);
      }
    }
  }

  /** What a run requests, read off its input: an id is requested if and only if some visit lists it
    * while it is above the starting mark and above every usable id listed in the visits before. Any
    * failures, any repeats and any starting cursor are allowed. */
  lemma {:induction false} RequestedIffExceeds(cursor: Cursor, vs: seq<Visit>, d: string, id: nat,
                                               usable: bool)
    ensures Request(d, id, usable) in Run(cursor, vs).requests <==>
            exists k :: 0 <= k < |vs| && RequestedAt(cursor, vs, d, id, usable, k)
  {
    if |vs| > 0 {
      var n := |vs| - 1;
      var front, v := vs[..n], vs[n];
      RequestedIffExceeds(cursor, front, d, id, usable);
      VisitMoves(Run(cursor, front), v);
      RequestedIffAbove(Run(cursor, front).cursor, v, d, id, usable);
      MarkFromListings(cursor, front, d, id);
      RequestedSplit(cursor, vs, d, id, usable);
    }
  }

  lemma {:induction false} RequestedSplit(cursor: Cursor, vs: seq<Visit>, d: string, id: nat, usable: bool)
    requires |vs| > 0
    ensures var front := vs[..|vs| - 1];
      (exists k :: 0 <= k < |vs| && RequestedAt(cursor, vs, d, id, usable, k)) <==>
      || (exists k :: 0 <= k < |front| && RequestedAt(cursor, front, d, id, usable, k))
      || (Lists(vs[|vs| - 1], d, id, usable) && Exceeds(cursor, front, d, id))
  {
    var n := |vs| - 1;
    var front := vs[..n];
    forall k | 0 <= k < n
      ensures RequestedAt(cursor, front, d, id, usable, k) <==> RequestedAt(cursor, vs, d, id, usable, k)
    {
      assert front[..k] == vs[..k];
    }
    assert vs[..n] == front;
    if Lists(vs[n], d, id, usable) && Exceeds(cursor, front, d, id) {
      assert RequestedAt(cursor, vs, d, id, usable, n);
    }
  }

  /// How often an id is fetched.

  // How many requests for the id gave a usable certificate.
  function Times(rs: seq<Request>, d: string, id: nat): nat {
    if |rs| == 0 then 0
    else Times(rs[..|rs| - 1], d, id) + if rs[|rs| - 1] == Request(d, id, true) then 1 else 0
  }

  // How many usable entries of the id a listing holds.
  function Copies(es: seq<Entry>, id: nat): nat {
    if |es| == 0 then 0
    else (if es[0].id == id && Usable(es[0]) then 1 else 0) + Copies(es[1..], id)
  }

  lemma {:induction false} TimesOfJoined(a: seq<Request>, b: seq<Request>, d: string, id: nat)
    ensures Times(a + b, d, id) == Times(a, d, id) + Times(b, d, id)
  {
    if |b| == 0 {
      assert a + b == a;
    } else {
      TimesOfJoined(a, b[..|b| - 1], d, id);
      assert (a + b)[..|a + b| - 1] == a + b[..|b| - 1];
    }
  }

  lemma {:induction false} TimesPositive(rs: seq<Request>, d: string, id: nat)
    ensures Times(rs, d, id) > 0 <==> Request(d, id, true) in rs
  {
    if |rs| > 0 {
      TimesPositive(rs[..|rs| - 1], d, id);
      assert rs == rs[..|rs| - 1] + [rs[|rs| - 1]];
    }
  }

  lemma {:induction false} CopiesAppend(es: seq<Entry>, e: Entry, id: nat)
    ensures Copies(es + [e], id) == Copies(es, id) + if e.id == id && Usable(e) then 1 else 0
  {
    if |es| == 0 {
      assert es + [e] == [e] && [e][1..] == [];
    } else {
      CopiesAppend(es[1..], e, id);
      assert (es + [e])[1..] == es[1..] + [e];
    }
  }

  lemma {:induction false} TimesAreCopies(d: string, es: seq<Entry>, mark: nat, id: nat)
    ensures Times(Requests(d, es, mark), d, id) == if id > mark then Copies(es, id) else 0
  {
    if |es| > 0 {
      var front, last := es[..|es| - 1], es[|es| - 1];
      TimesAreCopies(d, front, mark, id);
      assert es == front + [last];
      CopiesAppend(front, last, id);
      if last.id > mark {
        var r := Request(d, last.id, Usable(last));
        var rs := Requests(d, front, mark);
        assert (rs + [r])[..|rs|] == rs;
      } else {
        assert Requests(d, es, mark) == Requests(d, front, mark);
      }
    }
  }

  // The number of copies depends only on the entries of that id, which a stable sort keeps.
  lemma {:induction false} CopiesOfId(es: seq<Entry>, id: nat)
    ensures Copies(es, id) == Copies(WithKey(IdOf, es, id), id)
  {
    if |es| > 0 {
      CopiesOfId(es[1..], id);
      var rest := WithKey(IdOf, es[1..], id);
      assert ([es[0]] + rest)[1..] == rest;
      assert [] + rest == rest;
    }
  }

  lemma {:induction false} SortKeepsCopies(es: seq<Entry>, id: nat)
    ensures Copies(SortByKey(IdOf, es), id) == Copies(es, id)
  {
    SortIsStable(IdOf, es);
    CopiesOfId(es, id);
    CopiesOfId(SortByKey(IdOf, es), id);
  }

  lemma {:induction false} VisitTimes(p: Progress, v: Visit, d: string, id: nat)
    ensures Times(AfterVisit(p, v).requests, d, id) == Times(p.requests, d, id)
          + if v.listing.Listed? && d == v.domain && id > Seen(p.cursor, d)
            then Copies(v.listing.entries, id) else 0
  {
    VisitMoves(p, v);
    var rs := VisitRequests(p.cursor, v);
    TimesOfJoined(p.requests, rs, d, id);
    if v.listing.Listed? && d == v.domain {
      TimesAreCopies(d, SortByKey(IdOf, v.listing.entries), Seen(p.cursor, d), id);
      SortKeepsCopies(v.listing.entries, id);
    } else {
      TimesPositive(rs, d, id);
      RequestedIffAbove(p.cursor, v, d, id, true);
    }
  }

  lemma {:induction false} CopiesPositive(es: seq<Entry>, id: nat)
    ensures Copies(es, id) > 0 <==> exists e :: e in es && e.id == id && Usable(e)
  {
    if |es| > 0 {
      CopiesPositive(es[1..], id);
      assert es == [es[0]] + es[1..];
      if e :| e in es && e.id == id && Usable(e) {
        assert e == es[0] || e in es[1..];
      }
    }
  }

  /** How often an id gives a usable certificate, read off the input: as often as it stands in the
    * first listing to offer one, if it exceeds everything usable before that; otherwise never. */
  lemma {:induction false} TimesFromListings(cursor: Cursor, vs: seq<Visit>, d: string, id: nat)
    ensures forall k :: 0 <= k < |vs| && RequestedAt(cursor, vs, d, id, true, k) ==>
              Times(Run(cursor, vs).requests, d, id) == Copies(vs[k].listing.entries, id)
    ensures (forall k :: 0 <= k < |vs| ==> !RequestedAt(cursor, vs, d, id, true, k)) ==>
              Times(Run(cursor, vs).requests, d, id) == 0
  {
    RequestedIffExceeds(cursor, vs, d, id, true);
    TimesPositive(Run(cursor, vs).requests, d, id);
    forall k | 0 <= k < |vs| && RequestedAt(cursor, vs, d, id, true, k)
      ensures Times(Run(cursor, vs).requests, d, id) == Copies(vs[k].listing.entries, id)
    {
      TimesAt(cursor, vs, d, id, k);
    }
  }

  lemma {:induction false} TimesAt(cursor: Cursor, vs: seq<Visit>, d: string, id: nat, k: nat)
    requires k < |vs| && RequestedAt(cursor, vs, d, id, true, k)
    ensures Times(Run(cursor, vs).requests, d, id) == Copies(vs[k].listing.entries, id)
  {
    var n := |vs| - 1;
    var front := vs[..n];
    VisitTimes(Run(cursor, front), vs[n], d, id);
    MarkFromListings(cursor, front, d, id);
    if k < n {
      assert front[..k] == vs[..k];
      TimesAt(cursor, front, d, id, k);
      assert Lists(front[k], d, id, true);
      assert UsableEarlier(front, d, id);
    } else {
      assert vs[..k] == front;
      NotBefore(cursor, front, d, id);
    }
  }

  lemma {:induction false} NotBefore(cursor: Cursor, vs: seq<Visit>, d: string, id: nat)
    requires Exceeds(cursor, vs, d, id)
    ensures Times(Run(cursor, vs).requests, d, id) == 0
  {
    RequestedIffExceeds(cursor, vs, d, id, true);
    TimesPositive(Run(cursor, vs).requests, d, id);
    assert !UsableEarlier(vs, d, id);
  }

  ghost predicate NoneTwice(rs: seq<Request>) {
    forall d, id: nat :: Times(rs, d, id) <= 1
  }

  // No listing repeats a usable id that exceeds everything usable before it.
  ghost predicate NoListingRepeats(cursor: Cursor, vs: seq<Visit>) {
    forall k, id: nat ::
      0 <= k < |vs| && vs[k].listing.Listed? && Exceeds(cursor, vs[..k], vs[k].domain, id) ==>
        Copies(vs[k].listing.entries, id) <= 1
  }

  /** Over any number of visits no id of a domain gives a usable certificate twice, if and only if
    * no listing repeats a usable id that exceeds everything usable before it. */
  lemma {:induction false} NoneTwiceIffNoListingRepeats(cursor: Cursor, vs: seq<Visit>)
    ensures NoneTwice(Run(cursor, vs).requests) <==> NoListingRepeats(cursor, vs)
  {
    if NoListingRepeats(cursor, vs) {
      forall d, id: nat
        ensures Times(Run(cursor, vs).requests, d, id) <= 1
      {
        TimesFromListings(cursor, vs, d, id);
        if k :| 0 <= k < |vs| && RequestedAt(cursor, vs, d, id, true, k) {
          assert Exceeds(cursor, vs[..k], vs[k].domain, id);
        }
      }
    }
    if NoneTwice(Run(cursor, vs).requests) {
      forall k, id: nat | 0 <= k < |vs| && vs[k].listing.Listed?
        && Exceeds(cursor, vs[..k], vs[k].domain, id)
        ensures Copies(vs[k].listing.entries, id) <= 1
      {
        CopiesPositive(vs[k].listing.entries, id);
        if Copies(vs[k].listing.entries, id) > 0 {
          assert RequestedAt(cursor, vs, vs[k].domain, id, true, k);
          TimesAt(cursor, vs, vs[k].domain, id, k);
          assert Times(Run(cursor, vs).requests, vs[k].domain, id) <= 1;
        }
      }
    }
  }

  /** A listing that repeats an id has it fetched twice: any usable entry but one of id 0 will do. */
  lemma {:induction false} RepeatedEntryIsFetchedTwice(d: string, e: Entry)
    requires Usable(e) && e.id > 0
    ensures !NoneTwice(Run(map[], [Visit(d, Listed([e, e]))]).requests)
  {
    var vs := [Visit(d, Listed([e, e]))];
    CopiesAppend([], e, e.id);
    CopiesAppend([e], e, e.id);
    assert [] + [e] == [e] && [e] + [e] == [e, e];
    assert Exceeds(map[], vs[..0], d, e.id);
    NoneTwiceIffNoListingRepeats(map[], vs);
  }

  /// What is never fetched.

  /** Once an id is at or below its domain's mark it is never requested again; above the mark it
    * still can be. A fetch that failed is therefore lost exactly when the id is not above the
    * starting mark and every usable id listed since. */
  lemma {:induction false} StillReachableIffAbove(cursor: Cursor, vs: seq<Visit>, d: string, id: nat)
    ensures (exists ws, usable ::
               Request(d, id, usable) in Run(Run(cursor, vs).cursor, ws).requests)
            <==> id > Seen(Run(cursor, vs).cursor, d)
    ensures id > Seen(Run(cursor, vs).cursor, d) <==> Exceeds(cursor, vs, d, id)
  {
    MarkFromListings(cursor, vs, d, id);
    var c := Run(cursor, vs).cursor;
    if id > Seen(c, d) {
      var e := Entry(id, HttpError);
      var v := Visit(d, Listed([e]));
      var ws := [v];
      RunStep(c, [], v);
      assert [] + [v] == ws;
      VisitMoves(Run(c, []), v);
      assert e in v.listing.entries;
      RequestedIffAbove(c, v, d, id, false);
      assert Request(d, id, false) in Run(c, ws).requests;
    } else {
      forall ws, usable
        ensures Request(d, id, usable) !in Run(c, ws).requests
      {
        NeverRequested(c, ws, d, id, usable);
      }
    }
  }

  lemma {:induction false} NeverRequested(cursor: Cursor, vs: seq<Visit>, d: string, id: nat, usable: bool)
    requires id <= Seen(cursor, d)
    ensures Request(d, id, usable) !in Run(cursor, vs).requests
  {
    if |vs| > 0 {
      var front, v := vs[..|vs| - 1], vs[|vs| - 1];
      NeverRequested(cursor, front, d, id, usable);
      CursorIsGreatestUsable(cursor, front, d);
      VisitMoves(Run(cursor, front), v);
      RequestedIffAbove(Run(cursor, front).cursor, v, d, id, usable);
    }
  }

  /** A failed fetch below a later success is passed for ever, though the log would now answer. */
  lemma {:induction false} FailedFetchCanBeLost(cert: FetchReply, ws: seq<Visit>, usable: bool)
    requires cert.Bundle? && |cert.certs| > 0
    ensures var run := Visit("example.org", Listed([Entry(1, HttpError), Entry(2, cert)]));
      && Request("example.org", 1, false) in Run(map[], [run]).requests
      && Request("example.org", 1, usable) !in Run(Run(map[], [run]).cursor, ws).requests
  {
    var d := "example.org";
    var run := Visit(d, Listed([Entry(1, HttpError), Entry(2, cert)]));
    RunStep(map[], [], run);
    assert [] + [run] == [run];
    VisitMoves(Run(map[], []), run);
    assert Entry(1, HttpError) in run.listing.entries;
    RequestedIffAbove(map[], run, d, 1, false);
    assert Entry(2, cert) in run.listing.entries;
    RequestedIffAbove(map[], run, d, 2, true);
    CursorIsGreatestUsable(map[], [run], d);
    NeverRequested(Run(map[], [run]).cursor, ws, d, 1, usable);
  }

  /// When nothing is missed.

  // A usable id above the starting mark exceeds, when it is first listed, every usable id before it,
  // and stands in that listing once.
  ghost predicate NewUsableExceedOld(cursor: Cursor, vs: seq<Visit>) {
    forall k, id: nat :: 0 <= k < |vs| && NewAt(cursor, vs, vs[k].domain, id, k) ==>
      Exceeds(cursor, vs[..k], vs[k].domain, id) && Copies(vs[k].listing.entries, id) == 1
  }

  ghost predicate NewAt(cursor: Cursor, vs: seq<Visit>, d: string, id: nat, k: nat)
    requires k < |vs|
  {
    Lists(vs[k], d, id, true) && id > Seen(cursor, d) && !UsableEarlier(vs[..k], d, id)
  }

  ghost predicate OnceEach(cursor: Cursor, vs: seq<Visit>) {
    forall d, id: nat :: UsableEarlier(vs, d, id) && id > Seen(cursor, d) ==>
      Times(Run(cursor, vs).requests, d, id) == 1
  }

  lemma {:induction false} FirstUsable(vs: seq<Visit>, d: string, id: nat) returns (k: nat)
    requires UsableEarlier(vs, d, id)
    ensures k < |vs| && Lists(vs[k], d, id, true) && !UsableEarlier(vs[..k], d, id)
  {
    var n := |vs| - 1;
    UsableSplit(vs, d, id);
    if UsableEarlier(vs[..n], d, id) {
      k := FirstUsable(vs[..n], d, id);
      assert vs[..n][..k] == vs[..k];
    } else {
      k := n;
    }
  }

  /** Every id above the starting mark that any listing offers a usable certificate for gives one
    * exactly once, if and only if such ids exceed the usable ones before them when they first
    * appear, once in their listing. Failures, repeats and the starting cursor are arbitrary. */
  lemma {:induction false} OnceEachIffNewExceed(cursor: Cursor, vs: seq<Visit>)
    ensures OnceEach(cursor, vs) <==> NewUsableExceedOld(cursor, vs)
  {
    if NewUsableExceedOld(cursor, vs) {
      forall d, id: nat | UsableEarlier(vs, d, id) && id > Seen(cursor, d)
        ensures Times(Run(cursor, vs).requests, d, id) == 1
      {
        var k := FirstUsable(vs, d, id);
        assert NewAt(cursor, vs, vs[k].domain, id, k);
        TimesAt(cursor, vs, d, id, k);
      }
    }
    if OnceEach(cursor, vs) {
      forall k, id: nat | 0 <= k < |vs| && NewAt(cursor, vs, vs[k].domain, id, k)
        ensures Exceeds(cursor, vs[..k], vs[k].domain, id) && Copies(vs[k].listing.entries, id) == 1
      {
        var d := vs[k].domain;
        assert UsableEarlier(vs, d, id);
        TimesFromListings(cursor, vs, d, id);
        var j :| 0 <= j < |vs| && RequestedAt(cursor, vs, d, id, true, j);
        SameFirst(cursor, vs, d, id, j, k);
      }
    }
  }

  lemma {:induction false} SameFirst(cursor: Cursor, vs: seq<Visit>, d: string, id: nat, j: nat, k: nat)
    requires j < |vs| && k < |vs|
    requires RequestedAt(cursor, vs, d, id, true, j)
    requires Lists(vs[k], d, id, true) && !UsableEarlier(vs[..k], d, id)
    ensures j == k
  {
    if j < k {
      UsableInPrefix(vs, d, id, j, k);
    } else if k < j {
      UsableInPrefix(vs, d, id, k, j);
      assert false;
    }
  }

  // The visit lists the id, whatever a fetch of it gives.
  ghost predicate Mentions(v: Visit, d: string, id: nat) {
    Lists(v, d, id, true) || Lists(v, d, id, false)
  }

  ghost predicate MentionedEarlier(vs: seq<Visit>, d: string, id: nat) {
    exists k :: 0 <= k < |vs| && Mentions(vs[k], d, id)
  }

  // No fetch of a listed entry fails and no listing repeats an id.
  ghost predicate Smooth(v: Visit) {
    v.listing.Listed? ==>
      && (forall e :: e in v.listing.entries ==> Usable(e))
      && (forall i, j :: 0 <= i < j < |v.listing.entries| ==>
            v.listing.entries[i].id != v.listing.entries[j].id)
  }

  ghost predicate AboveAll(vs: seq<Visit>, d: string, id: nat) {
    forall x: nat :: MentionedEarlier(vs, d, x) ==> x < id
  }

  // Whenever an id appears for the first time it is above every id listed before it.
  ghost predicate NewIdsExceedOld(vs: seq<Visit>) {
    forall k, id: nat :: 0 <= k < |vs| && Mentions(vs[k], vs[k].domain, id) && id > 0 ==>
      MentionedEarlier(vs[..k], vs[k].domain, id) || AboveAll(vs[..k], vs[k].domain, id)
  }

  lemma {:induction false} CopiesOfDistinct(es: seq<Entry>, id: nat)
    requires forall e :: e in es ==> Usable(e)
    requires forall i, j :: 0 <= i < j < |es| ==> es[i].id != es[j].id
    ensures Copies(es, id) == if exists e :: e in es && e.id == id then 1 else 0
  {
    if |es| > 0 {
      CopiesOfDistinct(es[1..], id);
      assert es == [es[0]] + es[1..];
      if e :| e in es[1..] && e.id == id {
        var j :| 0 <= j < |es[1..]| && es[1..][j] == e;
        assert es[0].id != es[j + 1].id;
      }
    }
  }

  lemma {:induction false} SmoothMentions(vs: seq<Visit>, d: string, id: nat)
    requires forall v :: v in vs ==> Smooth(v)
    ensures MentionedEarlier(vs, d, id) <==> UsableEarlier(vs, d, id)
  {
    forall k | 0 <= k < |vs|
      ensures Mentions(vs[k], d, id) <==> Lists(vs[k], d, id, true)
    {
      assert vs[k] in vs;
    }
  }

  // Without failures and repeats the two conditions are the same.
  lemma {:induction false} SmoothExceed(vs: seq<Visit>)
    requires forall v :: v in vs ==> Smooth(v)
    ensures NewUsableExceedOld(map[], vs) <==> NewIdsExceedOld(vs)
  {
    forall k, d, id: nat | 0 <= k <= |vs|
      ensures MentionedEarlier(vs[..k], d, id) <==> UsableEarlier(vs[..k], d, id)
    {
      SmoothMentions(vs[..k], d, id);
    }
    forall k, id: nat | 0 <= k < |vs|
      ensures Mentions(vs[k], vs[k].domain, id) <==> Lists(vs[k], vs[k].domain, id, true)
      ensures Lists(vs[k], vs[k].domain, id, true) ==> Copies(vs[k].listing.entries, id) == 1
    {
      assert vs[k] in vs;
      if vs[k].listing.Listed? {
        CopiesOfDistinct(vs[k].listing.entries, id);
      }
    }
    SmoothSides(vs);
  }

  lemma {:induction false} SmoothSides(vs: seq<Visit>)
    requires forall k, d, id: nat :: 0 <= k <= |vs| ==>
      (MentionedEarlier(vs[..k], d, id) <==> UsableEarlier(vs[..k], d, id))
    requires forall k, id: nat :: 0 <= k < |vs| ==>
      (Mentions(vs[k], vs[k].domain, id) <==> Lists(vs[k], vs[k].domain, id, true))
    requires forall k, id: nat :: 0 <= k < |vs| && Lists(vs[k], vs[k].domain, id, true) ==>
      Copies(vs[k].listing.entries, id) == 1
    ensures NewUsableExceedOld(map[], vs) <==> NewIdsExceedOld(vs)
  {
    if NewUsableExceedOld(map[], vs) {
      forall k, id: nat | 0 <= k < |vs| && Mentions(vs[k], vs[k].domain, id) && id > 0
        ensures MentionedEarlier(vs[..k], vs[k].domain, id) || AboveAll(vs[..k], vs[k].domain, id)
      {
        if !UsableEarlier(vs[..k], vs[k].domain, id) {
          assert NewAt(map[], vs, vs[k].domain, id, k);
        }
      }
    }
    if NewIdsExceedOld(vs) {
      forall k, id: nat | 0 <= k < |vs| && NewAt(map[], vs, vs[k].domain, id, k)
        ensures Exceeds(map[], vs[..k], vs[k].domain, id) && Copies(vs[k].listing.entries, id) == 1
      {
        assert Mentions(vs[k], vs[k].domain, id);
        assert AboveAll(vs[..k], vs[k].domain, id);
      }
    }
  }

  /** So over failure-free runs from an empty cursor, every listed id but 0 gives a usable
    * certificate exactly once, if and only if new ids always exceed the old ones. */
  lemma {:induction false} CompleteIffNewIdsExceed(vs: seq<Visit>)
    requires forall v :: v in vs ==> Smooth(v)
    ensures (forall d, id: nat :: MentionedEarlier(vs, d, id) && id > 0 ==>
               Times(Run(map[], vs).requests, d, id) == 1)
            <==> NewIdsExceedOld(vs)
  {
    OnceEachIffNewExceed(map[], vs);
    SmoothExceed(vs);
    forall d, id: nat
      ensures MentionedEarlier(vs, d, id) <==> UsableEarlier(vs, d, id)
    {
      SmoothMentions(vs, d, id);
    }
  }

  /** The id 0 is never requested, from any cursor. */
  lemma {:induction false} ZeroIsNeverFetched(cursor: Cursor, vs: seq<Visit>, d: string, usable: bool)
    ensures Request(d, 0, usable) !in Run(cursor, vs).requests
  {
    NeverRequested(cursor, vs, d, 0, usable);
  }

  /// Events.

  /** Every emitted event names a host: its own, or the queried domain. */
  lemma {:induction false} EventsAreHosted(cursor: Cursor, vs: seq<Visit>)
    ensures forall ev :: ev in Run(cursor, vs).events ==> ev.host.Some?
  {
    if |vs| > 0 {
      var v := vs[|vs| - 1];
      EventsAreHosted(cursor, vs[..|vs| - 1]);
      if v.listing.Listed? {
        ListingHosted(v.domain, SortByKey(IdOf, v.listing.entries),
                      Seen(Run(cursor, vs[..|vs| - 1]).cursor, v.domain));
      }
    }
  }

  lemma {:induction false} ListingHosted(d: string, es: seq<Entry>, mark: nat)
    ensures forall ev :: ev in Events(d, es, mark) ==> ev.host.Some?
  {
    if |es| > 0 {
      ListingHosted(d, es[..|es| - 1], mark);
      if Usable(es[|es| - 1]) {
        CertsHosted(d, es[|es| - 1].reply.certs);
      }
    }
  }

  lemma {:induction false} CertsHosted(d: string, certs: seq<Wrappers.Option<CertEvent>>)
    ensures forall ev :: ev in BundleEvents(certs, d) ==> ev.host.Some?
  {
    if |certs| > 0 {
      CertsHosted(d, certs[..|certs| - 1]);
    }
  }
}
