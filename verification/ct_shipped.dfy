/** The scanner's cursor against its description, the highest id already seen and shipped an event
  * for. Events carry no id, so each is first traced to the listed entry it came from. */
module CtShipped {
  import opened Wrappers
  import opened Sorting
  import opened CtScan
  import opened CtLaws

  /// Where an event came from.

  datatype Shipment = Shipment(domain: string, id: nat, event: CertEvent)

  function Tagged(domain: string, id: nat, events: seq<CertEvent>): seq<Shipment> {
    seq(|events|, i requires 0 <= i < |events| => Shipment(domain, id, events[i]))
  }

  function EventOf(s: seq<Shipment>): seq<CertEvent> {
    seq(|s|, i requires 0 <= i < |s| => s[i].event)
  }

  // What one listing ships.
  function ListingShips(domain: string, es: seq<Entry>, mark: nat): seq<Shipment> {
    if |es| == 0 then []
    else
      var e := es[|es| - 1];
      ListingShips(domain, es[..|es| - 1], mark)
      + if e.id > mark && Usable(e) then Tagged(domain, e.id, BundleEvents(e.reply.certs, domain)) else []
  }

  function VisitShips(cursor: Cursor, v: Visit): seq<Shipment> {
    match v.listing
    case ListFailed => []
    case Listed(entries) =>
      ListingShips(v.domain, SortByKey(IdOf, entries), Seen(cursor, v.domain))
  }

  function Shipments(cursor: Cursor, vs: seq<Visit>): seq<Shipment> {
    if |vs| == 0 then []
    else
      var front := vs[..|vs| - 1];
      Shipments(cursor, front) + VisitShips(Run(cursor, front).cursor, vs[|vs| - 1])
  }

  lemma {:induction false} EventOfJoined(a: seq<Shipment>, b: seq<Shipment>)
    ensures EventOf(a + b) == EventOf(a) + EventOf(b)
  {
  }

  lemma {:induction false} ListingTraced(domain: string, es: seq<Entry>, mark: nat)
    ensures EventOf(ListingShips(domain, es, mark)) == Events(domain, es, mark)
  {
    if |es| > 0 {
      var front, e := es[..|es| - 1], es[|es| - 1];
      ListingTraced(domain, front, mark);
      if e.id > mark && Usable(e) {
        var evs := BundleEvents(e.reply.certs, domain);
        EventOfJoined(ListingShips(domain, front, mark), Tagged(domain, e.id, evs));
        assert EventOf(Tagged(domain, e.id, evs)) == evs;
      }
    }
  }

  /** The events a run emits are the shipments of its entries, in order. */
  lemma {:induction false} EventsAreShipments(cursor: Cursor, vs: seq<Visit>)
    ensures EventOf(Shipments(cursor, vs)) == Run(cursor, vs).events
  {
    if |vs| > 0 {
      var front, v := vs[..|vs| - 1], vs[|vs| - 1];
      var p := Run(cursor, front);
      EventsAreShipments(cursor, front);
      VisitMoves(p, v);
      EventOfJoined(Shipments(cursor, front), VisitShips(p.cursor, v));
      if v.listing.Listed? {
        ListingTraced(v.domain, SortByKey(IdOf, v.listing.entries), Seen(p.cursor, v.domain));
      }
    }
  }

  /// Which ids are shipped.

  // A fetch of the entry gives at least one certificate that converts to an event.
  ghost predicate Converts(e: Entry) {
    Usable(e) && exists i :: 0 <= i < |e.reply.certs| && e.reply.certs[i].Some?
  }

  // The visit lists a copy of the id that converts.
  ghost predicate ListsConverting(v: Visit, d: string, id: nat) {
    v.listing.Listed? && v.domain == d
    && exists e :: e in v.listing.entries && e.id == id && Converts(e)
  }

  ghost predicate ShippedIn(ships: seq<Shipment>, d: string, id: nat) {
    exists s :: s in ships && s.domain == d && s.id == id
  }

  ghost predicate Shipped(cursor: Cursor, vs: seq<Visit>, d: string, id: nat) {
    ShippedIn(Shipments(cursor, vs), d, id)
  }

  lemma {:induction false} BundleConverts(certs: seq<Option<CertEvent>>, domain: string)
    ensures |BundleEvents(certs, domain)| > 0 <==> exists i :: 0 <= i < |certs| && certs[i].Some?
  {
    if |certs| > 0 {
      var front := certs[..|certs| - 1];
      BundleConverts(front, domain);
      if i :| 0 <= i < |certs| && certs[i].Some? {
        assert i < |front| ==> front[i].Some?;
      }
      if i :| 0 <= i < |front| && front[i].Some? {
        assert certs[i].Some?;
      }
    }
  }

  lemma {:induction false} TaggedShips(domain: string, e: Entry, d: string, id: nat)
    requires Usable(e)
    ensures ShippedIn(Tagged(domain, e.id, BundleEvents(e.reply.certs, domain)), d, id) <==>
            d == domain && id == e.id && Converts(e)
  {
    var evs := BundleEvents(e.reply.certs, domain);
    BundleConverts(e.reply.certs, domain);
    if |evs| > 0 {
      assert Tagged(domain, e.id, evs)[0] in Tagged(domain, e.id, evs);
    }
  }

  lemma {:induction false} ShippedInJoined(a: seq<Shipment>, b: seq<Shipment>, d: string, id: nat)
    ensures ShippedIn(a + b, d, id) <==> ShippedIn(a, d, id) || ShippedIn(b, d, id)
  {
    if s :| s in a && s.domain == d && s.id == id {
      assert s in a + b;
    }
    if s :| s in b && s.domain == d && s.id == id {
      assert s in a + b;
    }
  }

  lemma {:induction false} ListingShipsIff(domain: string, es: seq<Entry>, mark: nat, d: string, id: nat)
    ensures ShippedIn(ListingShips(domain, es, mark), d, id) <==>
            d == domain && id > mark && exists e :: e in es && e.id == id && Converts(e)
  {
    if |es| > 0 {
      var front, last := es[..|es| - 1], es[|es| - 1];
      ListingShipsIff(domain, front, mark, d, id);
      assert es == front + [last];
      assert (exists e :: e in es && e.id == id && Converts(e)) <==>
             (exists e :: e in front && e.id == id && Converts(e)) || (last.id == id && Converts(last)) by {
        assert last in es;
        assert forall e :: e in es <==> e in front || e == last;
      }
      if last.id > mark && Usable(last) {
        TaggedShips(domain, last, d, id);
        ShippedInJoined(ListingShips(domain, front, mark),
                        Tagged(domain, last.id, BundleEvents(last.reply.certs, domain)), d, id);
      }
    }
  }

  lemma {:induction false} VisitShipsIff(cursor: Cursor, v: Visit, d: string, id: nat)
    ensures ShippedIn(VisitShips(cursor, v), d, id) <==>
            ListsConverting(v, d, id) && id > Seen(cursor, d)
  {
    if v.listing.Listed? {
      var entries := v.listing.entries;
      ListingShipsIff(v.domain, SortByKey(IdOf, entries), Seen(cursor, v.domain), d, id);
      forall e
        ensures e in SortByKey(IdOf, entries) <==> e in entries
      {
        SortKeepsMembers(entries, e);
      }
    }
  }

  ghost predicate ShippedAt(cursor: Cursor, vs: seq<Visit>, d: string, id: nat, k: nat)
    requires k < |vs|
  {
    ListsConverting(vs[k], d, id) && Exceeds(cursor, vs[..k], d, id)
  }

  /** An event is shipped for an id if and only if some visit lists a copy of it that converts while
    * the id exceeds the starting mark and every usable id listed before. */
  lemma {:induction false} ShippedIffConvertsAbove(cursor: Cursor, vs: seq<Visit>, d: string, id: nat)
    ensures Shipped(cursor, vs, d, id) <==>
            exists k :: 0 <= k < |vs| && ShippedAt(cursor, vs, d, id, k)
  {
    if |vs| > 0 {
      var n := |vs| - 1;
      var front, v := vs[..n], vs[n];
      var c := Run(cursor, front).cursor;
      ShippedIffConvertsAbove(cursor, front, d, id);
      MarkFromListings(cursor, front, d, id);
      VisitShipsIff(c, v, d, id);
      ShippedInJoined(Shipments(cursor, front), VisitShips(c, v), d, id);
      ShippedSplit(cursor, vs, d, id);
    }
  }

  lemma {:induction false} ShippedSplit(cursor: Cursor, vs: seq<Visit>, d: string, id: nat)
    requires |vs| > 0
    ensures var front := vs[..|vs| - 1];
      (exists k :: 0 <= k < |vs| && ShippedAt(cursor, vs, d, id, k)) <==>
      || (exists k :: 0 <= k < |front| && ShippedAt(cursor, front, d, id, k))
      || (ListsConverting(vs[|vs| - 1], d, id) && Exceeds(cursor, front, d, id))
  {
    var n := |vs| - 1;
    var front := vs[..n];
    forall k | 0 <= k < n
      ensures ShippedAt(cursor, front, d, id, k) <==> ShippedAt(cursor, vs, d, id, k)
    {
      assert front[..k] == vs[..k];
    }
    assert vs[..n] == front;
    if ListsConverting(vs[n], d, id) && Exceeds(cursor, front, d, id) {
      assert ShippedAt(cursor, vs, d, id, n);
    }
  }

  /// The cursor as described.

  // The mark is where it started or the greatest id an event has been shipped for.
  ghost predicate AsDescribed(cursor: Cursor, vs: seq<Visit>, d: string) {
    var mark := Seen(Run(cursor, vs).cursor, d);
    && mark >= Seen(cursor, d)
    && (forall id: nat :: Shipped(cursor, vs, d, id) ==> id <= mark)
    && (mark == Seen(cursor, d) || Shipped(cursor, vs, d, mark))
  }

  // The greatest usable id any visit lists, above the starting mark, and the first visit to list it
  // as usable.
  ghost predicate TopAt(cursor: Cursor, vs: seq<Visit>, d: string, id: nat, k: nat)
    requires k < |vs|
  {
    && Lists(vs[k], d, id, true)
    && id > Seen(cursor, d)
    && (forall x: nat :: UsableEarlier(vs, d, x) ==> x <= id)
    && !UsableEarlier(vs[..k], d, id)
  }

  // When it is first listed, the greatest usable id of the domain has a copy that converts.
  ghost predicate TopConverts(cursor: Cursor, vs: seq<Visit>, d: string) {
    forall k, id: nat :: 0 <= k < |vs| && TopAt(cursor, vs, d, id, k) ==> ListsConverting(vs[k], d, id)
  }

  lemma {:induction false} UsableInFront(vs: seq<Visit>, d: string, id: nat, k: nat)
    requires k <= |vs| && UsableEarlier(vs[..k], d, id)
    ensures UsableEarlier(vs, d, id)
  {
    var j :| 0 <= j < k && Lists(vs[..k][j], d, id, true);
    assert Lists(vs[j], d, id, true);
  }

  lemma {:induction false} ConvertingIsUsable(v: Visit, d: string, id: nat)
    requires ListsConverting(v, d, id)
    ensures Lists(v, d, id, true)
  {
  }

  // The mark, if it moved, is the greatest usable id listed.
  lemma {:induction false} MarkIsTop(cursor: Cursor, vs: seq<Visit>, d: string) returns (k: nat)
    requires Seen(Run(cursor, vs).cursor, d) > Seen(cursor, d)
    ensures k < |vs| && TopAt(cursor, vs, d, Seen(Run(cursor, vs).cursor, d), k)
  {
    var mark := Seen(Run(cursor, vs).cursor, d);
    MarkFromListings(cursor, vs, d, mark);
    MarkFromListings(cursor, vs, d, mark + 1);
    var x: nat :| UsableEarlier(vs, d, x) && x >= mark;
    assert x < mark + 1;
    k := FirstUsable(vs, d, mark);
  }

  lemma {:induction false} TopIsMark(cursor: Cursor, vs: seq<Visit>, d: string, id: nat, k: nat)
    requires k < |vs| && TopAt(cursor, vs, d, id, k)
    ensures Seen(Run(cursor, vs).cursor, d) == id
    ensures Exceeds(cursor, vs[..k], d, id)
  {
    MarkFromListings(cursor, vs, d, id);
    MarkFromListings(cursor, vs, d, id + 1);
    assert UsableEarlier(vs, d, id);
    forall x: nat | UsableEarlier(vs[..k], d, x)
      ensures x < id
    {
      UsableInFront(vs, d, x, k);
    }
  }

  lemma {:induction false} ShippedAtMostMark(cursor: Cursor, vs: seq<Visit>, d: string, id: nat)
    requires Shipped(cursor, vs, d, id)
    ensures id <= Seen(Run(cursor, vs).cursor, d)
  {
    ShippedIffConvertsAbove(cursor, vs, d, id);
    var k :| 0 <= k < |vs| && ShippedAt(cursor, vs, d, id, k);
    assert UsableEarlier(vs, d, id) by {
      assert Lists(vs[k], d, id, true);
    }
    MarkFromListings(cursor, vs, d, id);
  }

  /** The cursor of a domain is what its description says, the highest id shipped an event for, if
    * and only if the greatest usable id listed above the starting mark has a copy that converts in
    * the first visit that lists it as usable. */
  lemma {:induction false} AsDescribedIffTopConverts(cursor: Cursor, vs: seq<Visit>, d: string)
    ensures AsDescribed(cursor, vs, d) <==> TopConverts(cursor, vs, d)
  {
    var mark := Seen(Run(cursor, vs).cursor, d);
    CursorIsGreatestUsable(cursor, vs, d);
    forall id: nat | Shipped(cursor, vs, d, id)
      ensures id <= mark
    {
      ShippedAtMostMark(cursor, vs, d, id);
    }
    ShippedIffConvertsAbove(cursor, vs, d, mark);
    if TopConverts(cursor, vs, d) && mark > Seen(cursor, d) {
      var k := MarkIsTop(cursor, vs, d);
      TopIsMark(cursor, vs, d, mark, k);
      assert ShippedAt(cursor, vs, d, mark, k);
    }
    if AsDescribed(cursor, vs, d) {
      forall k, id: nat | 0 <= k < |vs| && TopAt(cursor, vs, d, id, k)
        ensures ListsConverting(vs[k], d, id)
      {
        TopIsMark(cursor, vs, d, id, k);
        var j :| 0 <= j < |vs| && ShippedAt(cursor, vs, d, id, j);
        ConvertingIsUsable(vs[j], d, id);
        SameFirst(cursor, vs, d, id, j, k);
      }
    }
  }

  /** It fails for any entry whose certificates all refuse to convert: the mark moves to its id,
    * no event is shipped, and no later visit requests the id again. */
  lemma {:induction false} UnconvertedIsPassed(d: string, id: nat, certs: seq<Option<CertEvent>>,
                                               ws: seq<Visit>, usable: bool)
    requires id > 0 && |certs| > 0 && forall i :: 0 <= i < |certs| ==> certs[i].None?
    ensures var run := Run(map[], [Visit(d, Listed([Entry(id, Bundle(certs))]))]);
      && run.events == [] && Seen(run.cursor, d) == id
      && Request(d, id, usable) !in Run(run.cursor, ws).requests
    ensures !AsDescribed(map[], [Visit(d, Listed([Entry(id, Bundle(certs))]))], d)
  {
    var e := Entry(id, Bundle(certs));
    var vs := [Visit(d, Listed([e]))];
    assert e in [e];
    assert Lists(vs[0], d, id, true);
    assert TopAt(map[], vs, d, id, 0);
    TopIsMark(map[], vs, d, id, 0);
    NeverRequested(Run(map[], vs).cursor, ws, d, id, usable);
    AsDescribedIffTopConverts(map[], vs, d);
    NothingShipped(vs, e);
  }

  lemma {:induction false} NothingShipped(vs: seq<Visit>, e: Entry)
    requires |vs| == 1 && vs[0].listing == Listed([e]) && !Converts(e)
    ensures Run(map[], vs).events == []
  {
    EventsAreShipments(map[], vs);
    var ships := Shipments(map[], vs);
    if |ships| > 0 {
      var s := ships[0];
      assert ShippedIn(ships, s.domain, s.id);
      ShippedIffConvertsAbove(map[], vs, s.domain, s.id);
      assert false;
    }
  }
}
