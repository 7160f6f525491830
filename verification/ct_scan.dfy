/** The certificate-transparency scanner and its high-water-mark cursor across runs. The log is an
  * arbitrary oracle: every visit to a domain comes with the listing it answers and, for each
  * listed entry, what a fetch of it at that time would give. */
module CtScan {
  import opened Wrappers
  import opened Sorting

  // What event_from_cert makes of one certificate, if it succeeds.
  datatype CertEvent = CertEvent(subject: string, host: Option<string>)

  // A bundle of no certificate is a failure, as are a bundle that does not parse and a failed request.
  datatype FetchReply = Bundle(certs: seq<Option<CertEvent>>) | ParseError | HttpError

  datatype Entry = Entry(id: nat, reply: FetchReply)

  datatype Listing = ListFailed | Listed(entries: seq<Entry>)

  datatype Visit = Visit(domain: string, listing: Listing)

  datatype Stats = Stats(domainsScanned: nat, entriesListed: nat, entriesBelowCursor: nat,
                         certsFetched: nat, fetchFailures: nat, eventsEmitted: nat)

  const NO_STATS := Stats(0, 0, 0, 0, 0, 0)

  type Cursor = map<string, nat>

  // One request made to the log and whether it gave a usable certificate.
  datatype Request = Request(domain: string, id: nat, usable: bool)

  predicate Usable(e: Entry) {
    e.reply.Bundle? && |e.reply.certs| > 0
  }

  function Seen(cursor: Cursor, domain: string): nat {
    if domain in cursor then cursor[domain] else 0
  }

  function Max(a: nat, b: nat): nat {
    if a >= b then a else b
  }

  function IdOf(e: Entry): int {
    e.id
  }

  /// What one visit does.

  function CountBelow(es: seq<Entry>, mark: nat): nat {
    if |es| == 0 then 0
    else CountBelow(es[..|es| - 1], mark) + if es[|es| - 1].id <= mark then 1 else 0
  }

  function Requests(domain: string, es: seq<Entry>, mark: nat): seq<Request> {
    if |es| == 0 then []
    else
      var e := es[|es| - 1];
      Requests(domain, es[..|es| - 1], mark)
      + if e.id > mark then [Request(domain, e.id, Usable(e))] else []
  }

  function CountUsable(rs: seq<Request>): nat {
    if |rs| == 0 then 0
    else CountUsable(rs[..|rs| - 1]) + if rs[|rs| - 1].usable then 1 else 0
  }

  // The greatest id of a usable request, or the mark when there is none.
  function HighWater(rs: seq<Request>, mark: nat): nat {
    if |rs| == 0 then mark
    else
      var r := rs[|rs| - 1];
      var before := HighWater(rs[..|rs| - 1], mark);
      if r.usable then Max(before, r.id) else before
  }

  function Hosted(ev: CertEvent, domain: string): CertEvent {
    if ev.host.None? then ev.(host := Some(domain)) else ev
  }

  function BundleEvents(certs: seq<Option<CertEvent>>, domain: string): seq<CertEvent> {
    if |certs| == 0 then []
    else
      BundleEvents(certs[..|certs| - 1], domain)
      + match certs[|certs| - 1]
        case Some(ev) => [Hosted(ev, domain)]
        case None => []
  }

  function Events(domain: string, es: seq<Entry>, mark: nat): seq<CertEvent> {
    if |es| == 0 then []
    else
      var e := es[|es| - 1];
      Events(domain, es[..|es| - 1], mark)
      + if e.id > mark && Usable(e) then BundleEvents(e.reply.certs, domain) else []
  }

  function Tally(s: Stats, below: nat, usable: nat, failed: nat, emitted: nat): Stats {
    Stats(s.domainsScanned, s.entriesListed, s.entriesBelowCursor + below,
          s.certsFetched + usable, s.fetchFailures + failed, s.eventsEmitted + emitted)
  }

  // The counters of one listing, read off the requests it causes.
  function ListingStats(stats: Stats, domain: string, es: seq<Entry>, mark: nat): Stats {
    var rs := Requests(domain, es, mark);
    UsableAtMost(rs);
    Tally(stats, CountBelow(es, mark), CountUsable(rs), |rs| - CountUsable(rs),
          |Events(domain, es, mark)|)
  }

  lemma {:induction false} UsableAtMost(rs: seq<Request>)
    ensures CountUsable(rs) <= |rs|
  {
    if |rs| > 0 {
      UsableAtMost(rs[..|rs| - 1]);
    }
  }

  lemma {:induction false} RequestAppend(rs: seq<Request>, r: Request, mark: nat)
    ensures CountUsable(rs + [r]) == CountUsable(rs) + if r.usable then 1 else 0
    ensures HighWater(rs + [r], mark)
         == if r.usable then Max(HighWater(rs, mark), r.id) else HighWater(rs, mark)
  {
    assert (rs + [r])[..|rs|] == rs;
  }

  /** Every listed entry is either passed over as known or requested. */
  lemma {:induction false} RequestCounts(domain: string, es: seq<Entry>, mark: nat)
    ensures |Requests(domain, es, mark)| + CountBelow(es, mark) == |es|
  {
    if |es| > 0 {
      RequestCounts(domain, es[..|es| - 1], mark);
    }
  }

  // What the whole run has done so far.
  datatype Progress = Progress(cursor: Cursor, stats: Stats, requests: seq<Request>, events: seq<CertEvent>)

  function AfterVisit(p: Progress, v: Visit): Progress {
    var scanned := p.stats.(domainsScanned := p.stats.domainsScanned + 1);
    match v.listing
    case ListFailed => p.(stats := scanned)
    case Listed(entries) =>
      var es := SortByKey(IdOf, entries);
      var mark := Seen(p.cursor, v.domain);
      var rs := Requests(v.domain, es, mark);
      var stats := scanned.(entriesListed := scanned.entriesListed + |entries|);
      Progress(p.cursor[v.domain := HighWater(rs, mark)],
               ListingStats(stats, v.domain, es, mark),
               p.requests + rs,
               p.events + Events(v.domain, es, mark))
  }

  function AfterVisits(p: Progress, vs: seq<Visit>): Progress {
    if |vs| == 0 then p else AfterVisit(AfterVisits(p, vs[..|vs| - 1]), vs[|vs| - 1])
  }

  function Start(cursor: Cursor): Progress {
    Progress(cursor, NO_STATS, [], [])
  }

  // The cursor file: absent or blank it gives the empty cursor.
  datatype CursorFile = Absent | BlankText | Unreadable | Holds(cursor: Cursor)

  datatype ScanError = CannotLoadCursor | CannotSaveCursor

  function Load(file: CursorFile): Result<Cursor, ScanError> {
    match file
    case Absent => Ok(map[])
    case BlankText => Ok(map[])
    case Unreadable => Err(CannotLoadCursor)
    case Holds(cursor) => Ok(cursor)
  }

  /// The scanner.

  // The loop over one parsed bundle.
  method EmitCerts(certs: seq<Option<CertEvent>>, domain: string) returns (events: seq<CertEvent>)
    ensures events == BundleEvents(certs, domain)
  {
    events := [];
    for i := 0 to |certs|
      invariant events == BundleEvents(certs[..i], domain)
    {
      assert certs[..i + 1][..i] == certs[..i];
      match certs[i]
      case Some(ev) =>
        if ev.host.None? {
          events := events + [ev.(host := Some(domain))];
        } else {
          events := events + [ev];
        }
      case None =>
    }
    assert certs[..|certs|] == certs;
  }

  // The variables of the loop over one domain's entries.
  datatype Loop = Loop(newMax: nat, stats: Stats, requests: seq<Request>, events: seq<CertEvent>)

  function LoopEntry(p: Loop, domain: string, e: Entry, mark: nat): Loop {
    if e.id <= mark then
      p.(stats := p.stats.(entriesBelowCursor := p.stats.entriesBelowCursor + 1))
    else
      var requests := p.requests + [Request(domain, e.id, Usable(e))];
      if Usable(e) then
        var emitted := BundleEvents(e.reply.certs, domain);
        Loop(Max(p.newMax, e.id),
             p.stats.(certsFetched := p.stats.certsFetched + 1,
                      eventsEmitted := p.stats.eventsEmitted + |emitted|),
             requests, p.events + emitted)
      else
        p.(requests := requests, stats := p.stats.(fetchFailures := p.stats.fetchFailures + 1))
  }

  function LoopOver(domain: string, es: seq<Entry>, mark: nat, start: Stats): Loop {
    if |es| == 0 then Loop(mark, start, [], [])
    else LoopEntry(LoopOver(domain, es[..|es| - 1], mark, start), domain, es[|es| - 1], mark)
  }

  lemma {:induction false} LoopRequests(domain: string, es: seq<Entry>, mark: nat, start: Stats)
    ensures LoopOver(domain, es, mark, start).requests == Requests(domain, es, mark)
    ensures LoopOver(domain, es, mark, start).events == Events(domain, es, mark)
  {
    if |es| > 0 {
      LoopRequests(domain, es[..|es| - 1], mark, start);
    }
  }

  lemma {:induction false} LoopMark(domain: string, es: seq<Entry>, mark: nat, start: Stats)
    ensures LoopOver(domain, es, mark, start).newMax == HighWater(Requests(domain, es, mark), mark)
  {
    if |es| > 0 {
      var front, e := es[..|es| - 1], es[|es| - 1];
      LoopMark(domain, front, mark, start);
      if e.id <= mark {
        assert Requests(domain, es, mark) == Requests(domain, front, mark);
      }
      RequestAppend(Requests(domain, front, mark), Request(domain, e.id, Usable(e)), mark);
    }
  }

  lemma {:induction false} LoopStats(domain: string, es: seq<Entry>, mark: nat, start: Stats)
    ensures LoopOver(domain, es, mark, start).stats == ListingStats(start, domain, es, mark)
  {
    if |es| > 0 {
      var front, e := es[..|es| - 1], es[|es| - 1];
      LoopStats(domain, front, mark, start);
      if e.id <= mark {
        assert Requests(domain, es, mark) == Requests(domain, front, mark);
        assert Events(domain, es, mark) == Events(domain, front, mark);
      }
      RequestAppend(Requests(domain, front, mark), Request(domain, e.id, Usable(e)), mark);
      UsableAtMost(Requests(domain, front, mark));
    }
  }

  // The loop over one domain's entries.
  method ScanEntries(domain: string, es: seq<Entry>, mark: nat, start: Stats)
    returns (newMax: nat, stats: Stats, requests: seq<Request>, events: seq<CertEvent>)
    ensures requests == Requests(domain, es, mark)
    ensures newMax == HighWater(requests, mark)
    ensures stats == ListingStats(start, domain, es, mark)
    ensures events == Events(domain, es, mark)
  {
    newMax, stats, requests, events := mark, start, [], [];
    for i := 0 to |es|
      invariant Loop(newMax, stats, requests, events) == LoopOver(domain, es[..i], mark, start)
    {
      var entry := es[i];
      assert es[..i + 1][..i] == es[..i];
      if entry.id <= mark {
        stats := stats.(entriesBelowCursor := stats.entriesBelowCursor + 1);
      } else {
        requests := requests + [Request(domain, entry.id, Usable(entry))];
        if entry.reply.Bundle? && |entry.reply.certs| > 0 {
          var emitted := EmitCerts(entry.reply.certs, domain);
          stats := stats.(certsFetched := stats.certsFetched + 1,
                          eventsEmitted := stats.eventsEmitted + |emitted|);
          events := events + emitted;
          newMax := Max(newMax, entry.id);
        } else {
          stats := stats.(fetchFailures := stats.fetchFailures + 1);
        }
      }
    }
    assert es[..|es|] == es;
    LoopRequests(domain, es, mark, start);
    LoopMark(domain, es, mark, start);
    LoopStats(domain, es, mark, start);
  }

  // The loop over the domains.
  method ScanDomains(visits: seq<Visit>, start: Cursor)
    returns (cursor: Cursor, stats: Stats, requests: seq<Request>, events: seq<CertEvent>)
    ensures Progress(cursor, stats, requests, events) == AfterVisits(Start(start), visits)
  {
    cursor, stats, requests, events := start, NO_STATS, [], [];
    for i := 0 to |visits|
      invariant Progress(cursor, stats, requests, events) == AfterVisits(Start(start), visits[..i])
    {
      var v := visits[i];
      assert visits[..i + 1][..i] == visits[..i];
      stats := stats.(domainsScanned := stats.domainsScanned + 1);
      match v.listing
      case ListFailed =>
      case Listed(listed) =>
        var entries := SortByKey(IdOf, listed);
        stats := stats.(entriesListed := stats.entriesListed + |listed|);
        var prevMax := Seen(cursor, v.domain);
        var newMax, newStats, rs, evs := ScanEntries(v.domain, entries, prevMax, stats);
        stats := newStats;
        requests := requests + rs;
        events := events + evs;
        cursor := cursor[v.domain := newMax];
    }
    assert visits[..|visits|] == visits;
  }

  // One run: the cursor is read from its file when one is configured and written back at the end. A
  // cursor that cannot be read stops the run before the log is asked anything; one that cannot be
  // written is reported after everything has been fetched and emitted.
  method Scan(visits: seq<Visit>, file: Option<CursorFile>, saves: bool)
    returns (r: Result<Stats, ScanError>, saved: Option<CursorFile>,
             requests: seq<Request>, events: seq<CertEvent>)
    ensures file == Some(Unreadable) ==>
      r == Err(CannotLoadCursor) && saved == file && requests == [] && events == []
    ensures file != Some(Unreadable) ==>
      var end := AfterVisits(Start(if file.Some? then Load(file.value).value else map[]), visits);
      && requests == end.requests && events == end.events
      && (file.None? ==> r == Ok(end.stats) && saved == None)
      && (file.Some? && saves ==> r == Ok(end.stats) && saved == Some(Holds(end.cursor)))
      && (file.Some? && !saves ==> r == Err(CannotSaveCursor) && saved == file)
  {
    requests, events, saved := [], [], file;
    var start: Cursor := map[];
    if file.Some? {
      var loaded := Load(file.value);
      if loaded.Err? {
        return Err(loaded.error), saved, requests, events;
      }
      start := loaded.value;
    }
    var cursor, stats;
    cursor, stats, requests, events := ScanDomains(visits, start);
    if file.Some? {
      if !saves {
        return Err(CannotSaveCursor), saved, requests, events;
      }
      saved := Some(Holds(cursor));
    }
    r := Ok(stats);
  }
}
