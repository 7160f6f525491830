/** The disk spool: an NDJSON file of undelivered events, drained through a temporary file. */
module Spooling {
  import opened Events
  import opened Seqs
  import opened Wrappers

  /** A line of the file. A record line parses back to the event it was written from; an undecodable
      one is not UTF-8, which the reader reports as a read error. */
  datatype Line = Blank | Corrupt | Undecodable | Record(ev: Event)

  /** A file, and whether a torn write left its last line without a line end. */
  datatype File = File(lines: seq<Line>, torn: bool)

  datatype DrainStats = DrainStats(seen: nat, delivered: nat, retained: nat, corruptDropped: nat)

  const NO_STATS := DrainStats(0, 0, 0, 0)

  /** What a POST does: the collector may also store an event whose acknowledgement is lost. */
  datatype Reply = Accepted | AcceptedUnacknowledged | Refused

  function Lines(file: Option<File>): seq<Line> {
    if file.Some? then file.value.lines else []
  }

  /** The events of the record lines, in order. */
  function Records(lines: seq<Line>): seq<Event> {
    if lines == [] then [] else
      var n := |lines| - 1;
      Records(lines[..n]) + if lines[n].Record? then [lines[n].ev] else []
  }

  function RecordLines(evs: seq<Event>): seq<Line> {
    seq(|evs|, i requires 0 <= i < |evs| => Record(evs[i]))
  }

  /// One drain pass over the lines read.

  /** Events kept for the next pass, events the collector stored, POSTs made so far, statistics. */
  datatype Pass = Pass(kept: seq<Event>, stored: seq<Event>, posts: nat, stats: DrainStats)

  function PassLine(p: Pass, line: Line, reply: nat -> Reply): Pass {
    match line
    case Blank => p
    case Undecodable => p
    case Corrupt =>
      p.(stats := p.stats.(seen := p.stats.seen + 1, corruptDropped := p.stats.corruptDropped + 1))
    case Record(ev) =>
      match reply(p.posts)
      case Accepted =>
        Pass(p.kept, p.stored + [ev], p.posts + 1,
             p.stats.(seen := p.stats.seen + 1, delivered := p.stats.delivered + 1))
      case AcceptedUnacknowledged =>
        Pass(p.kept + [ev], p.stored + [ev], p.posts + 1,
             p.stats.(seen := p.stats.seen + 1, retained := p.stats.retained + 1))
      case Refused =>
        Pass(p.kept + [ev], p.stored, p.posts + 1,
             p.stats.(seen := p.stats.seen + 1, retained := p.stats.retained + 1))
  }

  function PassOver(lines: seq<Line>, posts: nat, reply: nat -> Reply): Pass {
    if lines == [] then Pass([], [], posts, NO_STATS) else
      PassLine(PassOver(lines[..|lines| - 1], posts, reply), lines[|lines| - 1], reply)
  }

  /** The members of `evs`, in order, whose reply is one of `wanted` when they are POSTed in turn. */
  ghost function Select(evs: seq<Event>, posts: nat, reply: nat -> Reply, wanted: set<Reply>): seq<Event> {
    if evs == [] then [] else
      var n := |evs| - 1;
      Select(evs[..n], posts, reply, wanted) + if reply(posts + n) in wanted then [evs[n]] else []
  }

  ghost const ACKNOWLEDGED: set<Reply> := {Accepted}
  ghost const UNACKNOWLEDGED: set<Reply> := {AcceptedUnacknowledged, Refused}
  ghost const STORED: set<Reply> := {Accepted, AcceptedUnacknowledged}

  lemma {:induction false} SelectOneMore(evs: seq<Event>, ev: Event, posts: nat, reply: nat -> Reply, wanted: set<Reply>)
    ensures reply(posts + |evs|) in wanted ==>
      Select(evs + [ev], posts, reply, wanted) == Select(evs, posts, reply, wanted) + [ev]
    ensures reply(posts + |evs|) !in wanted ==>
      Select(evs + [ev], posts, reply, wanted) == Select(evs, posts, reply, wanted)
  {
    assert (evs + [ev])[..|evs|] == evs;
  }

  /** How many lines failed to parse. */
  function CorruptLines(lines: seq<Line>): nat {
    if lines == [] then 0 else CorruptLines(lines[..|lines| - 1]) + if lines[|lines| - 1].Corrupt? then 1 else 0
  }

  /** The pass has posted `evs` in turn: it kept exactly those whose POST was not acknowledged, in order,
      the collector gained exactly those it did not refuse, and seen = delivered + retained + corrupt. */
  ghost predicate Selects(p: Pass, evs: seq<Event>, corrupt: nat, posts: nat, reply: nat -> Reply) {
    && p.posts == posts + |evs|
    && p.kept == Select(evs, posts, reply, UNACKNOWLEDGED)
    && p.stored == Select(evs, posts, reply, STORED)
    && p.stats.seen == |evs| + corrupt
    && p.stats.seen == p.stats.delivered + p.stats.retained + p.stats.corruptDropped
    && p.stats.corruptDropped == corrupt
    && p.stats.retained == |p.kept|
  }

  lemma {:induction false} RecordSelects(p: Pass, evs: seq<Event>, corrupt: nat, ev: Event, posts: nat, reply: nat -> Reply)
    requires Selects(p, evs, corrupt, posts, reply)
    ensures Selects(PassLine(p, Record(ev), reply), evs + [ev], corrupt, posts, reply)
  {
    SelectOneMore(evs, ev, posts, reply, UNACKNOWLEDGED);
    SelectOneMore(evs, ev, posts, reply, STORED);
    RepliesSplit(reply(posts + |evs|));
  }

  /** A pass posts every record once, in order. */
  lemma {:induction false} PassSelects(lines: seq<Line>, posts: nat, reply: nat -> Reply)
    ensures Selects(PassOver(lines, posts, reply), Records(lines), CorruptLines(lines), posts, reply)
    decreases |lines|
  {
    if lines != [] {
      var (front, last) := (lines[..|lines| - 1], lines[|lines| - 1]);
      PassSelects(front, posts, reply);
      if last.Record? {
        RecordSelects(PassOver(front, posts, reply), Records(front), CorruptLines(front), last.ev, posts, reply);
      } else {
        assert Records(lines) == Records(front);
      }
    }
  }

  lemma {:induction false} RepliesSplit(r: Reply)
    ensures r in ACKNOWLEDGED <==> r == Accepted
    ensures r in UNACKNOWLEDGED <==> r != Accepted
    ensures r in STORED <==> r != Refused
  {
    match r
    case Accepted =>
    case AcceptedUnacknowledged =>
    case Refused =>
  }

  lemma {:induction false} OneMore(evs: seq<Event>, ev: Event)
    ensures multiset(evs + [ev]) == multiset(evs) + multiset{ev}
    ensures multiset(evs + []) == multiset(evs)
  {
    assert evs + [] == evs;
  }

  lemma {:induction false} OneOnEitherSide(evs: seq<Event>, ev: Event, a: seq<Event>, b: seq<Event>,
                                           a': seq<Event>, b': seq<Event>)
    requires multiset(evs) == multiset(a) + multiset(b)
    requires (a' == a + [ev] && b' == b) || (a' == a && b' == b + [ev])
    ensures multiset(evs + [ev]) == multiset(a') + multiset(b')
  {
    OneMore(evs, ev);
    OneMore(a, ev);
    OneMore(b, ev);
  }

  lemma {:induction false} PartitionOneMore(evs: seq<Event>, ev: Event, posts: nat, reply: nat -> Reply)
    requires multiset(evs) == multiset(Select(evs, posts, reply, UNACKNOWLEDGED))
                            + multiset(Select(evs, posts, reply, ACKNOWLEDGED))
    ensures multiset(evs + [ev]) == multiset(Select(evs + [ev], posts, reply, UNACKNOWLEDGED))
                                  + multiset(Select(evs + [ev], posts, reply, ACKNOWLEDGED))
  {
    RepliesSplit(reply(posts + |evs|));
    SelectOneMore(evs, ev, posts, reply, UNACKNOWLEDGED);
    SelectOneMore(evs, ev, posts, reply, ACKNOWLEDGED);
    OneOnEitherSide(evs, ev,
                    Select(evs, posts, reply, UNACKNOWLEDGED), Select(evs, posts, reply, ACKNOWLEDGED),
                    Select(evs + [ev], posts, reply, UNACKNOWLEDGED),
                    Select(evs + [ev], posts, reply, ACKNOWLEDGED));
  }

  lemma {:induction false} SelectPartition(evs: seq<Event>, posts: nat, reply: nat -> Reply)
    ensures multiset(evs) == multiset(Select(evs, posts, reply, UNACKNOWLEDGED))
                           + multiset(Select(evs, posts, reply, ACKNOWLEDGED))
    decreases |evs|
  {
    if evs != [] {
      var (front, last) := (evs[..|evs| - 1], evs[|evs| - 1]);
      FrontAndLast(evs);
      SelectPartition(front, posts, reply);
      PartitionOneMore(front, last, posts, reply);
    }
  }

  /// What a read error loses.

  /** How many lines the reader gives before one that is not UTF-8. */
  function Decodable(lines: seq<Line>): (n: nat)
    ensures n <= |lines|
  {
    if lines == [] || lines[0].Undecodable? then 0 else 1 + Decodable(lines[1..])
  }

  /** The lines a drain reads: up to the first undecodable one, or up to a disk error before it. */
  function Readable(lines: seq<Line>, readable: nat): seq<Line> {
    lines[..if readable < Decodable(lines) then readable else Decodable(lines)]
  }

  lemma {:induction false} DecodableIsFirst(lines: seq<Line>)
    ensures forall i :: 0 <= i < Decodable(lines) ==> !lines[i].Undecodable?
    ensures Decodable(lines) < |lines| ==> lines[Decodable(lines)].Undecodable?
    decreases |lines|
  {
    if lines != [] && !lines[0].Undecodable? {
      DecodableIsFirst(lines[1..]);
      forall i | 0 < i < Decodable(lines)
        ensures !lines[i].Undecodable?
      {
        assert lines[i] == lines[1..][i - 1];
      }
    }
  }

  /** A read error ends the scan early, yet the file is still replaced or removed: the records are,
      as a multiset, the acknowledged ones, the kept ones and those of the lines never read; nothing
      is lost exactly when no record was left unread. */
  lemma {:induction false} DrainLosesExactlyTheUnread(lines: seq<Line>, readable: nat, posts: nat, reply: nat -> Reply)
    ensures var read := Readable(lines, readable);
      var kept := PassOver(read, posts, reply).kept;
      var delivered := Select(Records(read), posts, reply, ACKNOWLEDGED);
      var unread := Records(lines[|read|..]);
      && multiset(Records(lines)) == multiset(kept) + multiset(delivered) + multiset(unread)
      && (multiset(Records(lines)) == multiset(kept) + multiset(delivered) <==> unread == [])
  {
    var read := Readable(lines, readable);
    PassSelects(read, posts, reply);
    SelectPartition(Records(read), posts, reply);
    RecordsSplit(lines, |read|);
    var lost := Records(lines[|read|..]);
    assert lost != [] ==> lost[0] in multiset(lost);
  }

  lemma {:induction false} RecordsSplit(lines: seq<Line>, k: nat)
    requires k <= |lines|
    ensures Records(lines) == Records(lines[..k]) + Records(lines[k..])
    decreases |lines|
  {
    if k == |lines| {
      assert lines[..k] == lines;
    } else {
      var n := |lines| - 1;
      RecordsSplit(lines[..n], k);
      assert lines[..n][..k] == lines[..k] && lines[..n][k..] == lines[k..][..n - k];
    }
  }

  lemma {:induction false} RecordsOfRecordLines(evs: seq<Event>)
    ensures Records(RecordLines(evs)) == evs
    decreases |evs|
  {
    if evs != [] {
      var n := |evs| - 1;
      RecordsOfRecordLines(evs[..n]);
      assert RecordLines(evs)[..n] == RecordLines(evs[..n]);
      assert evs == evs[..n] + [evs[n]];
    }
  }

  /** What a drain leaves in the file. */
  function SpoolAfter(p: Pass): Option<File> {
    if p.stats.retained == 0 then None else Some(File(RecordLines(p.kept), false))
  }

  /// Appending, and what a torn append does to the next one.

  predicate Torn(file: Option<File>) {
    file.Some? && file.value.torn && file.value.lines != []
  }

  /** A line continued by more bytes. Only blanks may stand before a record, nothing repairs bytes that
      are not UTF-8, and what is written starts with an ASCII character. */
  function Glued(last: Line, piece: Line): Line {
    if last.Undecodable? || piece.Undecodable? then Undecodable
    else if last.Blank? then piece
    else Corrupt
  }

  /** The file with some bytes more, which continue a torn line or else start a new one. */
  function WithPiece(file: Option<File>, piece: Line, torn: bool): File {
    var lines := Lines(file);
    if Torn(file) then
      var n := |lines| - 1;
      File(lines[..n] + [Glued(lines[n], piece)], torn)
    else
      File(lines + [piece], torn)
  }

  function Appended(file: Option<File>, ev: Event): File {
    WithPiece(file, Record(ev), false)
  }

  /** How far an append that fails has got: the file not opened; created or opened but nothing
      written; some of the record written, perhaps ending inside a character; all of it but the line
      end; everything written but not synced. */
  datatype Failure = NotOpened | NotWritten | PartWritten(cut: bool) | NoLineEnd | NotSynced

  function AfterFailure(file: Option<File>, ev: Event, failure: Failure): Option<File> {
    match failure
    case NotOpened => file
    case NotWritten => Some(if file.Some? then file.value else File([], false))
    case PartWritten(cut) => Some(WithPiece(file, if cut then Undecodable else Corrupt, true))
    case NoLineEnd => Some(WithPiece(file, Record(ev), true))
    case NotSynced => Some(WithPiece(file, Record(ev), false))
  }

  function EventsOf(line: Line): seq<Event> {
    if line.Record? then [line.ev] else []
  }

  /** The records that continuing a torn line destroys: its own and the one written onto it. */
  function Ruined(file: Option<File>, piece: Line): seq<Event> {
    if Torn(file) && !file.value.lines[|file.value.lines| - 1].Blank?
    then EventsOf(file.value.lines[|file.value.lines| - 1]) + EventsOf(piece)
    else []
  }

  lemma {:induction false} RecordsAppend(lines: seq<Line>, line: Line)
    ensures Records(lines + [line]) == Records(lines) + EventsOf(line)
  {
    assert (lines + [line])[..|lines|] == lines;
  }

  /** Records before and written are records after and ruined. */
  lemma {:induction false} PieceRuins(file: Option<File>, piece: Line, torn: bool)
    ensures multiset(Records(WithPiece(file, piece, torn).lines)) + multiset(Ruined(file, piece))
         == multiset(Records(Lines(file))) + multiset(EventsOf(piece))
  {
    var lines := Lines(file);
    if Torn(file) {
      var n := |lines| - 1;
      var (front, last) := (lines[..n], lines[n]);
      assert lines == front + [last];
      RecordsAppend(front, last);
      RecordsAppend(front, Glued(last, piece));
    } else {
      RecordsAppend(lines, piece);
    }
  }

  /** The record a failing append writes in full, and the records it ruins. */
  function WrittenBy(ev: Event, failure: Failure): seq<Event> {
    if failure.NoLineEnd? || failure.NotSynced? then [ev] else []
  }

  function RuinedBy(file: Option<File>, ev: Event, failure: Failure): seq<Event> {
    match failure
    case NotOpened => []
    case NotWritten => []
    case PartWritten(cut) => Ruined(file, if cut then Undecodable else Corrupt)
    case NoLineEnd => Ruined(file, Record(ev))
    case NotSynced => Ruined(file, Record(ev))
  }

  lemma {:induction false} FailureRuins(file: Option<File>, ev: Event, failure: Failure)
    ensures multiset(Records(Lines(AfterFailure(file, ev, failure)))) + multiset(RuinedBy(file, ev, failure))
         == multiset(Records(Lines(file))) + multiset(WrittenBy(ev, failure))
  {
    var after := AfterFailure(file, ev, failure);
    if failure.NotOpened? || failure.NotWritten? {
      assert Lines(after) == Lines(file);
    } else {
      var piece := if failure.PartWritten? then if failure.cut then Undecodable else Corrupt else Record(ev);
      PieceRuins(file, piece, !failure.NotSynced?);
      assert EventsOf(piece) == WrittenBy(ev, failure) && Ruined(file, piece) == RuinedBy(file, ev, failure);
    }
  }

  predicate AppendsCleanly(file: Option<File>) {
    Torn(file) ==> file.value.lines[|file.value.lines| - 1].Blank?
  }

  /** After an append that succeeds, a drain that meets no disk error posts all the records the file
      held and then the new one, if and only if every line was UTF-8 and the last one, unless blank,
      had its line end. */
  lemma {:induction false} AppendedIsPostedIff(file: Option<File>, ev: Event)
    ensures var lines := Appended(file, ev).lines;
      Records(Readable(lines, |lines|)) == Records(Lines(file)) + [ev] <==>
      AppendsCleanly(file) && forall line <- Lines(file) :: !line.Undecodable?
  {
    if AppendsCleanly(file) && forall line <- Lines(file) :: !line.Undecodable? {
      AppendedReadInFull(file, ev);
    } else {
      AppendedReadShort(file, ev);
    }
  }

  lemma {:induction false} AppendedReadInFull(file: Option<File>, ev: Event)
    requires AppendsCleanly(file) && forall line <- Lines(file) :: !line.Undecodable?
    ensures var lines := Appended(file, ev).lines;
      Readable(lines, |lines|) == lines && Records(lines) == Records(Lines(file)) + [ev]
  {
    var (before, after) := (Lines(file), Appended(file, ev).lines);
    DecodableIsFirst(after);
    if Torn(file) {
      var n := |before| - 1;
      assert before == before[..n] + [before[n]];
      RecordsAppend(before[..n], before[n]);
      RecordsAppend(before[..n], Record(ev));
    } else {
      RecordsAppend(before, Record(ev));
    }
  }

  // How many lines an append leaves alone.
  function Untouched(file: Option<File>): (n: nat)
    ensures n <= |Lines(file)|
  {
    if Torn(file) then |file.value.lines| - 1 else |Lines(file)|
  }

  lemma {:induction false} RecordsOfPrefix(lines: seq<Line>, n: nat)
    requires n <= |lines|
    ensures |Records(lines[..n])| <= |Records(lines)|
  {
    RecordsSplit(lines, n);
  }

  lemma {:induction false} AppendedReadShort(file: Option<File>, ev: Event)
    requires !AppendsCleanly(file) || exists line <- Lines(file) :: line.Undecodable?
    ensures var lines := Appended(file, ev).lines;
      |Records(Readable(lines, |lines|))| <= |Records(Lines(file))|
  {
    var (before, after) := (Lines(file), Appended(file, ev).lines);
    var (n, d) := (Untouched(file), Decodable(after));
    assert after[..n] == before[..n];
    RecordsOfPrefix(before, n);
    if d <= n {
      assert after[..n][..d] == after[..d];
      RecordsOfPrefix(after[..n], d);
    } else {
      AllDecodable(file, ev);
      RecordsAppend(after[..n], after[n]);
      assert after == after[..n] + [after[n]];
      assert Readable(after, |after|) == after;
    }
  }

  // If everything is read although a precondition of a clean read fails, the new record was glued on.
  lemma {:induction false} AllDecodable(file: Option<File>, ev: Event)
    requires !AppendsCleanly(file) || exists line <- Lines(file) :: line.Undecodable?
    requires Decodable(Appended(file, ev).lines) > Untouched(file)
    ensures EventsOf(Appended(file, ev).lines[Untouched(file)]) == []
  {
    var (before, after, n) := (Lines(file), Appended(file, ev).lines, Untouched(file));
    DecodableIsFirst(after);
    forall i | 0 <= i < n
      ensures !before[i].Undecodable?
    {
      assert after[i] == before[i];
    }
    assert after[n] == if Torn(file) then Glued(before[n], Record(ev)) else Record(ev);
  }

  /// The code.

  /** The collector as the agent sees it; `reply` fixes what happens to each POST. */
  class Collector {
    const reply: nat -> Reply
    var posts: nat
    var stored: seq<Event>

    constructor (reply: nat -> Reply)
      ensures this.reply == reply && posts == 0 && stored == []
    {
      this.reply, posts, stored := reply, 0, [];
    }

    method Post(ev: Event) returns (ok: bool)
      modifies this
      ensures posts == old(posts) + 1
      ensures stored == old(stored) + if reply(old(posts)) == Refused then [] else [ev]
      ensures ok <==> reply(old(posts)) == Accepted
    {
      var r := reply(posts);
      posts := posts + 1;
      if r != Refused {
        stored := stored + [ev];
      }
      ok := r == Accepted;
    }
  }

  datatype SpoolError = CannotAppend | CannotStart | CannotWrite | CannotFlush | CannotRename

  /** Where a drain meets a disk error: opening the files, writing the retained line of that number,
      flushing and syncing the temporary file, or renaming it. */
  datatype DrainFault = NoFault | AtStart | AtWrite(nth: nat) | AtFlush | AtRename

  /** The error is met: a line of that number is retained, or the rename is reached. */
  predicate Bites(fault: DrainFault, p: Pass) {
    match fault
    case NoFault => false
    case AtStart => true
    case AtWrite(nth) => p.stats.retained > nth
    case AtFlush => true
    case AtRename => p.stats.retained > 0
  }

  lemma {:induction false} RetainedGrows(lines: seq<Line>, m: nat, posts: nat, reply: nat -> Reply)
    requires m <= |lines|
    ensures PassOver(lines[..m], posts, reply).stats.retained <= PassOver(lines, posts, reply).stats.retained
    decreases |lines|
  {
    if m < |lines| {
      RetainedGrows(lines[..|lines| - 1], m, posts, reply);
      assert lines[..|lines| - 1][..m] == lines[..m];
    } else {
      assert lines[..m] == lines;
    }
  }

  lemma {:induction false} RetainedByThen(lines: seq<Line>, readable: nat, n: nat, posts: nat, reply: nat -> Reply)
    requires n <= |Readable(lines, readable)|
    ensures PassOver(lines[..n], posts, reply).stats.retained
         <= PassOver(Readable(lines, readable), posts, reply).stats.retained
  {
    RetainedGrows(Readable(lines, readable), n, posts, reply);
    assert Readable(lines, readable)[..n] == lines[..n];
  }

  lemma {:induction false} PassOneMore(lines: seq<Line>, n: nat, posts: nat, reply: nat -> Reply)
    requires n < |lines|
    ensures PassOver(lines[..n + 1], posts, reply) == PassLine(PassOver(lines[..n], posts, reply), lines[n], reply)
  {
    assert lines[..n + 1][..n] == lines[..n];
  }

  /** The loop of a drain. It stops at a read error, which a line that is not UTF-8 is too, and it fails,
      after `n` lines, only when a retained line cannot be written. */
  method PostLines(c: Collector, lines: seq<Line>, readable: nat, fault: DrainFault)
    returns (kept: seq<Event>, stats: DrainStats, failed: bool, ghost n: nat)
    modifies c
    ensures Drained(lines, n, old(c.posts), old(c.stored), c)
    ensures kept == PassOver(lines[..n], old(c.posts), c.reply).kept
    ensures stats == PassOver(lines[..n], old(c.posts), c.reply).stats
    ensures failed <==>
      fault.AtWrite? && PassOver(Readable(lines, readable), old(c.posts), c.reply).stats.retained > fault.nth
    ensures !failed ==> lines[..n] == Readable(lines, readable)
  {
    kept, stats, failed, n := [], NO_STATS, false, 0;
    DecodableIsFirst(lines);
    for idx := 0 to |lines|
      invariant n == idx <= |Readable(lines, readable)| && !failed
      invariant var p := PassOver(lines[..idx], old(c.posts), c.reply);
        kept == p.kept && stats == p.stats && c.posts == p.posts && c.stored == old(c.stored) + p.stored
      invariant fault.AtWrite? ==> stats.retained <= fault.nth
    {
      if idx >= readable || lines[idx].Undecodable? {
        return;
      }
      PassOneMore(lines, idx, old(c.posts), c.reply);
      n := n + 1;
      match lines[idx] {
        case Blank =>
        case Corrupt =>
          stats := stats.(seen := stats.seen + 1, corruptDropped := stats.corruptDropped + 1);
        case Record(ev) =>
          stats := stats.(seen := stats.seen + 1);
          var ok := c.Post(ev);
          if ok {
            stats := stats.(delivered := stats.delivered + 1);
          } else {
            stats := stats.(retained := stats.retained + 1);
            kept := kept + [ev];
            if fault.AtWrite? && stats.retained > fault.nth {
              RetainedByThen(lines, readable, n, old(c.posts), c.reply);
              failed := true;
              return;
            }
          }
      }
    }
  }

  class Spool {
    var file: Option<File>
    var draining: Option<File>

    constructor (file: Option<File>, draining: Option<File>)
      ensures this.file == file && this.draining == draining
    {
      this.file, this.draining := file, draining;
    }

    /** Write one record and its line end at the end of the file. An append that fails leaves what it had
        written by then. */
    method Append(ev: Event, failure: Option<Failure>) returns (r: Result<(), SpoolError>)
      modifies this
      ensures r.Ok? <==> failure.None?
      ensures file == if failure.None? then Some(Appended(old(file), ev))
                      else AfterFailure(old(file), ev, failure.value)
      ensures draining == old(draining)
    {
      if failure == Some(NotOpened) {
        return Err(CannotAppend);
      }
      if file.None? {
        file := Some(File([], false));
      }
      if failure == Some(NotWritten) {
        return Err(CannotAppend);
      }
      if failure.Some? && failure.value.PartWritten? {
        file := Some(WithPiece(file, if failure.value.cut then Undecodable else Corrupt, true));
        return Err(CannotAppend);
      }
      file := Some(WithPiece(file, Record(ev), true));
      if failure == Some(NoLineEnd) {
        return Err(CannotAppend);
      }
      file := Some(file.value.(torn := false));
      if failure == Some(NotSynced) {
        return Err(CannotAppend);
      }
      r := Ok(());
    }

    method Len() returns (n: nat)
      ensures n == |Lines(file)|
    {
      if file.None? {
        return 0;
      }
      n := |file.value.lines|;
    }

    /** Post every line that can be read, keep what was not acknowledged, and replace or remove the file.
        `readable` is where the disk would fail to read; that, or a line that is not UTF-8, ends the scan
        only. Any other error ends the drain with the file as it was, whatever has been posted by then. */
    method Drain(c: Collector, readable: nat, fault: DrainFault) returns (r: Result<DrainStats, SpoolError>)
      modifies this, c
      ensures old(file).None? ==> r == Ok(NO_STATS) && unchanged(this) && unchanged(c)
      ensures old(file).Some? ==>
        var p := PassOver(Readable(Lines(old(file)), readable), old(c.posts), c.reply);
        && (r.Err? <==> Bites(fault, p))
        && (r.Ok? ==> r.value == p.stats && file == SpoolAfter(p) && draining == None
                      && c.posts == p.posts && c.stored == old(c.stored) + p.stored)
      ensures r.Err? ==> file == old(file) && exists n: nat :: Drained(Lines(old(file)), n, old(c.posts), old(c.stored), c)
    {
      if file.None? {
        return Ok(NO_STATS);
      }
      if fault.AtStart? {
        assert Drained(file.value.lines, 0, c.posts, c.stored, c);
        return Err(CannotStart);
      }
      draining := Some(File([], false));
      var kept, stats, failed;
      ghost var n;
      kept, stats, failed, n := PostLines(c, file.value.lines, readable, fault);
      if failed {
        return Err(CannotWrite);
      }
      if fault.AtFlush? {
        return Err(CannotFlush);
      }
      draining := Some(File(RecordLines(kept), false));
      if stats.retained == 0 {
        draining := None;
        file := None;
      } else {
        if fault.AtRename? {
          assert Drained(file.value.lines, n, old(c.posts), old(c.stored), c);
          return Err(CannotRename);
        }
        file := draining;
        draining := None;
      }
      r := Ok(stats);
    }
  }

  /** The collector has been posted the records of the first `n` lines. */
  predicate Drained(lines: seq<Line>, n: nat, posts: nat, stored: seq<Event>, c: Collector)
    reads c
  {
    && n <= |lines|
    && var p := PassOver(lines[..n], posts, c.reply);
       c.posts == p.posts && c.stored == stored + p.stored
  }

  /** The delivery sink: POST if there is a collector, spool what it did not acknowledge if there is
      a spool, and print otherwise. */
  class Sink {
    const collector: Collector?
    const spool: Spool?
    var printed: seq<Event>

    /** A spool without a collector is ignored; a spool with one is drained before anything is sent, and an
        error that ends the drain is only logged. */
    constructor (collector: Collector?, spool: Spool?, readable: nat, fault: DrainFault)
      modifies if collector != null && spool != null then {collector as object, spool} else {}
      ensures this.collector == collector && printed == []
      ensures this.spool == if collector == null then null else spool
      ensures collector != null && spool != null && old(spool.file).Some? ==>
        var p := PassOver(Readable(Lines(old(spool.file)), readable), old(collector.posts), collector.reply);
        if Bites(fault, p) then
          && spool.file == old(spool.file)
          && exists n: nat :: Drained(Lines(old(spool.file)), n, old(collector.posts), old(collector.stored), collector)
        else
          && spool.file == SpoolAfter(p) && spool.draining == None
          && collector.posts == p.posts && collector.stored == old(collector.stored) + p.stored
      ensures collector != null && spool != null && old(spool.file).None? ==>
        unchanged(spool) && unchanged(collector)
    {
      this.collector := collector;
      this.spool := if collector == null then null else spool;
      printed := [];
      new;
      if collector != null && spool != null {
        var _ := spool.Drain(collector, readable, fault);
      }
    }

    /** An event that can be neither delivered nor appended is logged and forgotten. */
    method Send(ev: Event, failure: Option<Failure>)
      modifies this, if collector != null then {collector as object} else {},
               if collector != null && spool != null then {spool as object} else {}
      ensures collector == null ==> printed == old(printed) + [ev]
      ensures collector != null ==>
        && printed == old(printed)
        && collector.posts == old(collector.posts) + 1
        && collector.stored == old(collector.stored) + if collector.reply(old(collector.posts)) == Refused then [] else [ev]
      ensures collector != null && spool != null ==>
        && spool.draining == old(spool.draining)
        && spool.file == if collector.reply(old(collector.posts)) == Accepted then old(spool.file)
                         else if failure.None? then Some(Appended(old(spool.file), ev))
                         else AfterFailure(old(spool.file), ev, failure.value)
    {
      if collector == null {
        printed := printed + [ev];
        return;
      }
      var ok := collector.Post(ev);
      if ok {
        return;
      }
      if spool != null {
        var _ := spool.Append(ev, failure);
      }
    }
  }
}
