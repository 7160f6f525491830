/** The delivery path as a machine whose steps are single disk or network effects, so that a crash can
    fall between any two of them, from the agent's spool to the collector's per-asset view. */
module Delivery {
  import opened Events
  import opened Wrappers
  import opened Spooling
  import EventStore

  /** What the agent is doing. A scan reads the lines up to `end`, which a read error moves to where it
      stands; `before` is what drains had delivered when it began, `unread` what it did not read. */
  datatype Phase =
    | Down
    | Up
    | Scanning(lines: seq<Line>, next: nat, end: nat, kept: seq<Event>, before: multiset<Event>)
    | Flushed(kept: seq<Event>, unread: seq<Event>)
    | TmpRemoved(unread: seq<Event>)
    | Pending(ev: Event)

  /** The two files, the phase, the events sent and those the collector stored, and the history that
      the theorems are about: events acknowledged when sent, events whose spooling completed, spooled
      events acknowledged by a drain, events that could not be spooled, records lost from the file
      (unread when it was replaced, or ruined by writing onto a torn line), and the number of faults
      (crashes within an operation, disk errors and lost acknowledgements). */
  datatype World = World(
    file: Option<File>,
    tmp: Option<File>,
    phase: Phase,
    sent: seq<Event>,
    stored: seq<Event>,
    acked: multiset<Event>,
    spooled: multiset<Event>,
    redelivered: multiset<Event>,
    dropped: multiset<Event>,
    lost: multiset<Event>,
    faults: nat)

  datatype Step =
    | Start
    | SkipDrain
    | Scan(reply: Reply)
    | ReadError
    | Flush
    | Rename
    | RemoveTmp(removed: bool)
    | RemoveFile(removed: bool)
    | DrainFails(left: Option<File>)
    | Send(ev: Event, reply: Reply)
    | AppendSpool
    | AppendFails(failure: Failure)
    | Stop
    | Crash(left: Option<File>, failure: Failure)

  predicate Enabled(w: World, s: Step) {
    match s
    case Start => w.phase.Down?
    case SkipDrain => w.phase.Down? && w.file.Some?
    case Scan(_) =>
      w.phase.Scanning? && w.phase.next < w.phase.end <= |w.phase.lines| && !w.phase.lines[w.phase.next].Undecodable?
    case ReadError => w.phase.Scanning? && w.phase.next < w.phase.end
    case Flush => w.phase.Scanning? && w.phase.next == w.phase.end <= |w.phase.lines|
    case Rename => w.phase.Flushed? && w.phase.kept != []
    case RemoveTmp(_) => w.phase.Flushed? && w.phase.kept == []
    case RemoveFile(_) => w.phase.TmpRemoved?
    case DrainFails(_) => w.phase.Scanning? || (w.phase.Flushed? && w.phase.kept != [])
    case Send(_, _) => w.phase.Up?
    case AppendSpool => w.phase.Pending?
    case AppendFails(_) => w.phase.Pending?
    case Stop => w.phase.Up?
    case Crash(_, _) => !w.phase.Down? && !w.phase.Up?
  }

  function Fault(reply: Reply): nat {
    if reply.AcceptedUnacknowledged? then 1 else 0
  }

  function Stored(ev: Event, reply: Reply): seq<Event> {
    if reply.Refused? then [] else [ev]
  }

  function ScanRecord(w: World, ev: Event, reply: Reply): World
    requires w.phase.Scanning?
  {
    var p := w.phase;
    var w' := w.(stored := w.stored + Stored(ev, reply), faults := w.faults + Fault(reply));
    if reply.Accepted? then
      w'.(phase := p.(next := p.next + 1), redelivered := w.redelivered + multiset{ev})
    else
      w'.(phase := p.(next := p.next + 1, kept := p.kept + [ev]))
  }

  function ScanLine(w: World, reply: Reply): World
    requires Enabled(w, Scan(reply))
  {
    var line := w.phase.lines[w.phase.next];
    if line.Record? then ScanRecord(w, line.ev, reply) else w.(phase := w.phase.(next := w.phase.next + 1))
  }

  /** The append of the event in hand breaks off. */
  function BreakOff(w: World, failure: Failure): World
    requires w.phase.Pending?
  {
    w.(file := AfterFailure(w.file, w.phase.ev, failure),
       lost := w.lost + multiset(RuinedBy(w.file, w.phase.ev, failure)),
       dropped := w.dropped + multiset{w.phase.ev}, faults := w.faults + 1)
  }

  /** A crash, and an error on the temporary file, leave anything at all in the temporary file, and the
      spool file as it was unless an append was under way; after the error the agent goes on. Without an
      open file or temporary file there is no drain at all, and a file that cannot be removed stays. */
  function Apply(w: World, s: Step): World
    requires Enabled(w, s)
  {
    match s
    case Start =>
      if w.file.None? then w.(phase := Up)
      else
        var lines := w.file.value.lines;
        w.(tmp := Some(File([], false)), phase := Scanning(lines, 0, |lines|, [], w.redelivered))
    case SkipDrain => w.(phase := Up, faults := w.faults + 1)
    case Scan(reply) => ScanLine(w, reply)
    case ReadError => w.(phase := w.phase.(end := w.phase.next), faults := w.faults + 1)
    case Flush =>
      w.(tmp := Some(File(RecordLines(w.phase.kept), false)),
         phase := Flushed(w.phase.kept, Records(w.phase.lines[w.phase.end..])))
    case Rename => w.(file := w.tmp, tmp := None, phase := Up, lost := w.lost + multiset(w.phase.unread))
    case RemoveTmp(removed) =>
      w.(tmp := if removed then None else w.tmp, phase := TmpRemoved(w.phase.unread))
    case RemoveFile(removed) =>
      if removed then w.(file := None, phase := Up, lost := w.lost + multiset(w.phase.unread))
      else w.(phase := Up, faults := w.faults + 1)
    case DrainFails(left) => w.(tmp := left, phase := Up, faults := w.faults + 1)
    case Send(ev, reply) =>
      var w' := w.(sent := w.sent + [ev], stored := w.stored + Stored(ev, reply), faults := w.faults + Fault(reply));
      if reply.Accepted? then w'.(acked := w.acked + multiset{ev}) else w'.(phase := Pending(ev))
    case AppendSpool =>
      var ev := w.phase.ev;
      w.(file := Some(Appended(w.file, ev)), spooled := w.spooled + multiset{ev},
         lost := w.lost + multiset(Ruined(w.file, Record(ev))), phase := Up)
    case AppendFails(failure) => BreakOff(w, failure).(phase := Up)
    case Stop => w.(phase := Down)
    case Crash(left, failure) =>
      if w.phase.Pending? then BreakOff(w, failure).(tmp := left, phase := Down)
      else w.(tmp := left, phase := Down, faults := w.faults + 1)
  }

  /** Any spool file and any leftover temporary file; what the file holds counts as sent and spooled. */
  predicate Init(w: World) {
    && w.phase == Down
    && w.sent == Records(Lines(w.file)) && w.spooled == multiset(w.sent)
    && w.stored == [] && w.acked == w.redelivered == w.dropped == w.lost == multiset{} && w.faults == 0
  }

  /** The steps can be taken one after the other from `w`, ending in `w'`. */
  predicate Run(w: World, steps: seq<Step>, w': World)
    decreases |steps|
  {
    if steps == [] then w' == w
    else Enabled(w, steps[0]) && Run(Apply(w, steps[0]), steps[1..], w')
  }

  function InFile(w: World): multiset<Event> {
    multiset(Records(Lines(w.file)))
  }

  function InHand(w: World): multiset<Event> {
    if w.phase.Pending? then multiset{w.phase.ev} else multiset{}
  }

  /// The invariant.

  /** Every spooled event has been delivered by a drain, is in the file, or is booked as lost. */
  predicate NothingForgotten(w: World) {
    w.spooled <= w.redelivered + InFile(w) + w.lost && (w.faults == 0 ==> w.lost == multiset{})
  }

  /** What each phase of a drain knows about the events it read, and what a fault-free history adds. */
  predicate PhaseHolds(w: World) {
    match w.phase
    case Scanning(lines, next, end, kept, before) =>
      && w.file.Some? && w.file.value.lines == lines && next <= end <= |lines|
      && w.redelivered + multiset(kept) == before + multiset(Records(lines[..next]))
      && w.spooled <= before + InFile(w) + w.lost
      && (w.faults == 0 ==> w.spooled == before + InFile(w) && end == |lines|)
    case Flushed(kept, unread) =>
      && w.tmp == Some(File(RecordLines(kept), false))
      && w.spooled <= w.redelivered + multiset(kept) + multiset(unread) + w.lost
      && (w.faults == 0 ==> w.spooled == w.redelivered + multiset(kept) && unread == [])
    case TmpRemoved(unread) =>
      && w.spooled <= w.redelivered + multiset(unread) + w.lost
      && (w.faults == 0 ==> w.spooled == w.redelivered && unread == [])
    case Down =>
      w.faults == 0 ==> w.spooled == w.redelivered + InFile(w)
    case _ =>
      w.faults == 0 ==> w.spooled == w.redelivered + InFile(w) && !Torn(w.file)
  }

  /** Each event sent was acknowledged, spooled or dropped, or is about to be spooled. */
  predicate Accounted(w: World) {
    multiset(w.sent) == w.acked + w.spooled + w.dropped + InHand(w) && (w.faults == 0 ==> w.dropped == multiset{})
  }

  /** The collector stored what it acknowledged, and without faults nothing else. */
  predicate AckedAreStored(w: World) {
    && w.acked + w.redelivered <= multiset(w.stored)
    && (w.faults == 0 ==> multiset(w.stored) == w.acked + w.redelivered)
  }

  /** Nothing is made up: what is stored, in the file, in hand or about to be written was sent. */
  predicate OnlySent(w: World) {
    && AllSent(w.stored, w.sent)
    && AllSent(Records(Lines(w.file)), w.sent)
    && (w.phase.Pending? ==> w.phase.ev in w.sent)
    && (w.phase.Scanning? || w.phase.Flushed? ==> AllSent(w.phase.kept, w.sent))
  }

  predicate AllSent(evs: seq<Event>, sent: seq<Event>) {
    forall e <- evs :: e in sent
  }

  predicate Inv(w: World) {
    NothingForgotten(w) && PhaseHolds(w) && Accounted(w) && AckedAreStored(w) && OnlySent(w)
  }

  lemma {:induction false} InitHolds(w: World)
    requires Init(w)
    ensures Inv(w)
  {
  }

  lemma {:induction false} AppendRecord(lines: seq<Line>, ev: Event)
    ensures Records(lines + [Record(ev)]) == Records(lines) + [ev]
  {
    assert (lines + [Record(ev)])[..|lines|] == lines;
  }

  lemma {:induction false} RecordsUpTo(lines: seq<Line>, n: nat)
    requires n < |lines|
    ensures Records(lines[..n + 1]) == Records(lines[..n]) + if lines[n].Record? then [lines[n].ev] else []
    ensures lines[n].Record? ==> lines[n].ev in Records(lines)
  {
    assert lines[..n + 1][..n] == lines[..n];
    RecordsSplit(lines, n + 1);
  }

  /** The bookkeeping of one record: acknowledged it counts as delivered, else as kept. */
  lemma {:induction false} OneRecord(delivered: multiset<Event>, kept: multiset<Event>, before: multiset<Event>,
                                     read: multiset<Event>, ev: multiset<Event>)
    requires delivered + kept == before + read
    ensures delivered + ev + kept == before + (read + ev)
    ensures delivered + (kept + ev) == before + (read + ev)
  {
    assert delivered + ev + kept == delivered + kept + ev;
    assert before + (read + ev) == before + read + ev;
  }

  lemma {:induction false} OneStored(acked: multiset<Event>, redelivered: multiset<Event>,
                                     stored: multiset<Event>, ev: multiset<Event>)
    requires acked + redelivered <= stored
    ensures acked + redelivered <= stored + ev
    ensures acked + (redelivered + ev) <= stored + ev
    ensures acked + redelivered == stored ==> acked + (redelivered + ev) == stored + ev
  {
    assert acked + (redelivered + ev) == acked + redelivered + ev;
  }

  lemma {:induction false} ScanKeepsPhase(w: World, reply: Reply)
    requires NothingForgotten(w) && PhaseHolds(w) && Enabled(w, Scan(reply))
    ensures var w' := ScanLine(w, reply); NothingForgotten(w') && PhaseHolds(w')
  {
    var p := w.phase;
    var line := p.lines[p.next];
    RecordsUpTo(p.lines, p.next);
    var read := Records(p.lines[..p.next]);
    if line.Record? {
      ScanRecordForgetsNothing(w, line.ev, reply);
      ScanRecordKeepsPhase(w, line.ev, reply);
    } else {
      assert read + [] == read;
    }
  }

  lemma {:induction false} ScanRecordKeepsPhase(w: World, ev: Event, reply: Reply)
    requires PhaseHolds(w) && Enabled(w, Scan(reply)) && w.phase.lines[w.phase.next] == Record(ev)
    ensures PhaseHolds(ScanRecord(w, ev, reply))
  {
    var (p, w') := (w.phase, ScanRecord(w, ev, reply));
    ScanRecordSums(w, reply, ev);
    assert w'.phase.next == p.next + 1 && w'.phase.lines == p.lines && w'.phase.before == p.before;
    assert w'.spooled == w.spooled && w'.lost == w.lost && InFile(w') == InFile(w);
  }

  lemma {:induction false} ScanRecordForgetsNothing(w: World, ev: Event, reply: Reply)
    requires NothingForgotten(w) && w.phase.Scanning?
    ensures NothingForgotten(ScanRecord(w, ev, reply))
  {
    MoreIsEnough(w.spooled, w.redelivered, ScanRecord(w, ev, reply).redelivered, InFile(w), w.lost);
  }

  lemma {:induction false} MoreIsEnough(spooled: multiset<Event>, a: multiset<Event>, b: multiset<Event>,
                                        file: multiset<Event>, lost: multiset<Event>)
    requires spooled <= a + file + lost && a <= b
    ensures spooled <= b + file + lost
  {
  }

  lemma {:induction false} ScanRecordSums(w: World, reply: Reply, ev: Event)
    requires Enabled(w, Scan(reply)) && w.phase.lines[w.phase.next] == Record(ev)
    requires var p := w.phase; w.redelivered + multiset(p.kept) == p.before + multiset(Records(p.lines[..p.next]))
    ensures var (p, w') := (w.phase, ScanRecord(w, ev, reply));
      w'.redelivered + multiset(w'.phase.kept) == p.before + multiset(Records(p.lines[..p.next + 1]))
  {
    var p := w.phase;
    RecordsUpTo(p.lines, p.next);
    EventRead(w.redelivered, p.kept, p.before, Records(p.lines[..p.next]), ev);
  }

  lemma {:induction false} EventRead(delivered: multiset<Event>, kept: seq<Event>, before: multiset<Event>,
                                     read: seq<Event>, ev: Event)
    requires delivered + multiset(kept) == before + multiset(read)
    ensures delivered + multiset{ev} + multiset(kept) == before + multiset(read + [ev])
    ensures delivered + multiset(kept + [ev]) == before + multiset(read + [ev])
  {
    OneMore(read, ev);
    OneMore(kept, ev);
    OneRecord(delivered, multiset(kept), before, multiset(read), multiset{ev});
  }

  lemma {:induction false} ScanKeepsStored(w: World, reply: Reply)
    requires AckedAreStored(w) && Enabled(w, Scan(reply))
    ensures AckedAreStored(ScanLine(w, reply))
  {
    var line := w.phase.lines[w.phase.next];
    if line.Record? {
      ScanRecordKeepsStored(w, line.ev, reply);
    }
  }

  lemma {:induction false} ScanRecordKeepsStored(w: World, ev: Event, reply: Reply)
    requires AckedAreStored(w) && w.phase.Scanning?
    ensures AckedAreStored(ScanRecord(w, ev, reply))
  {
    OneMore(w.stored, ev);
    OneStored(w.acked, w.redelivered, multiset(w.stored), multiset{ev});
  }

  lemma {:induction false} ScanKeepsOnlySent(w: World, reply: Reply)
    requires PhaseHolds(w) && OnlySent(w) && Enabled(w, Scan(reply))
    ensures OnlySent(ScanLine(w, reply))
  {
    var line := w.phase.lines[w.phase.next];
    RecordsUpTo(w.phase.lines, w.phase.next);
    if line.Record? {
      assert line.ev in w.sent;
      AllSentOneMore(w.stored, line.ev, w.sent);
      AllSentOneMore(w.phase.kept, line.ev, w.sent);
    }
  }

  lemma {:induction false} AllSentOneMore(evs: seq<Event>, ev: Event, sent: seq<Event>)
    requires AllSent(evs, sent) && ev in sent
    ensures AllSent(evs + [ev], sent) && AllSent(evs + [], sent)
  {
  }

  lemma {:induction false} ScanKeepsAccounted(w: World, reply: Reply)
    requires Accounted(w) && Enabled(w, Scan(reply))
    ensures Accounted(ScanLine(w, reply))
  {
    var w' := ScanLine(w, reply);
    assert w'.sent == w.sent && w'.acked == w.acked && w'.spooled == w.spooled && w'.dropped == w.dropped;
    assert InHand(w') == InHand(w) == multiset{};
  }

  lemma {:induction false} ScanKeeps(w: World, reply: Reply)
    requires Inv(w) && Enabled(w, Scan(reply))
    ensures Inv(ScanLine(w, reply))
  {
    ScanKeepsPhase(w, reply);
    ScanKeepsAccounted(w, reply);
    ScanKeepsStored(w, reply);
    ScanKeepsOnlySent(w, reply);
  }

  /** A step that touches the files and the phase only keeps the books. */
  lemma {:induction false} BooksKept(w: World, w': World)
    requires Accounted(w) && AckedAreStored(w) && InHand(w') == InHand(w)
    requires w'.sent == w.sent && w'.stored == w.stored && w'.acked == w.acked && w'.spooled == w.spooled
    requires w'.redelivered == w.redelivered && w'.dropped == w.dropped && w'.faults >= w.faults
    ensures Accounted(w') && AckedAreStored(w')
  {
  }

  lemma {:induction false} FlushKeeps(w: World)
    requires Inv(w) && Enabled(w, Flush)
    ensures Inv(Apply(w, Flush))
  {
    var p := w.phase;
    var (read, unread) := (Records(p.lines[..p.end]), Records(p.lines[p.end..]));
    RecordsSplit(p.lines, p.end);
    assert multiset(read + unread) == multiset(read) + multiset(unread);
    assert p.end == |p.lines| ==> unread == [] && read == Records(p.lines) by {
      assert p.end == |p.lines| ==> p.lines[p.end..] == [] && p.lines[..p.end] == p.lines;
    }
    FlushSums(w.redelivered, multiset(p.kept), p.before, multiset(read), multiset(unread), w.lost, w.spooled);
  }

  lemma {:induction false} FlushSums(redelivered: multiset<Event>, kept: multiset<Event>, before: multiset<Event>,
                                     read: multiset<Event>, unread: multiset<Event>, lost: multiset<Event>,
                                     spooled: multiset<Event>)
    requires redelivered + kept == before + read && spooled <= before + (read + unread) + lost
    ensures spooled <= redelivered + kept + unread + lost
  {
    assert before + (read + unread) + lost == redelivered + kept + unread + lost;
  }

  lemma {:induction false} ReadErrorKeeps(w: World)
    requires Inv(w) && Enabled(w, ReadError)
    ensures Inv(Apply(w, ReadError))
  {
  }

  lemma {:induction false} RenameKeepsPhase(w: World)
    requires NothingForgotten(w) && PhaseHolds(w) && Enabled(w, Rename)
    ensures var w' := Apply(w, Rename); NothingForgotten(w') && PhaseHolds(w')
  {
    RecordsOfRecordLines(w.phase.kept);
    var (kept, unread) := (multiset(w.phase.kept), multiset(w.phase.unread));
    assert w.redelivered + kept + unread + w.lost == w.redelivered + kept + (w.lost + unread);
  }

  lemma {:induction false} RenameKeeps(w: World)
    requires Inv(w) && Enabled(w, Rename)
    ensures Inv(Apply(w, Rename))
  {
    RenameKeepsPhase(w);
    BooksKept(w, Apply(w, Rename));
    RecordsOfRecordLines(w.phase.kept);
  }

  lemma {:induction false} SendKeepsStored(w: World, ev: Event, reply: Reply)
    requires AckedAreStored(w) && Enabled(w, Send(ev, reply))
    ensures AckedAreStored(Apply(w, Send(ev, reply)))
  {
    OneMore(w.stored, ev);
    OneStored(w.redelivered, w.acked, multiset(w.stored), multiset{ev});
  }

  lemma {:induction false} SendKeepsAccounted(w: World, ev: Event, reply: Reply)
    requires Accounted(w) && Enabled(w, Send(ev, reply))
    ensures Accounted(Apply(w, Send(ev, reply)))
  {
    OneMore(w.sent, ev);
    OneSent(w.acked, w.spooled, w.dropped, multiset{ev});
  }

  lemma {:induction false} OneSent(acked: multiset<Event>, spooled: multiset<Event>,
                                   dropped: multiset<Event>, ev: multiset<Event>)
    ensures acked + spooled + dropped + multiset{} + ev == acked + ev + spooled + dropped + multiset{}
    ensures acked + spooled + dropped + multiset{} + ev == acked + spooled + dropped + ev
  {
  }

  lemma {:induction false} SendKeepsOnlySent(w: World, ev: Event, reply: Reply)
    requires OnlySent(w) && Enabled(w, Send(ev, reply))
    ensures OnlySent(Apply(w, Send(ev, reply)))
  {
    var sent := w.sent + [ev];
    assert forall e <- w.sent :: e in sent;
    AllSentOneMore(w.stored, ev, sent);
  }

  lemma {:induction false} SendKeepsPhase(w: World, ev: Event, reply: Reply)
    requires NothingForgotten(w) && PhaseHolds(w) && Enabled(w, Send(ev, reply))
    ensures var w' := Apply(w, Send(ev, reply)); NothingForgotten(w') && PhaseHolds(w')
  {
  }

  lemma {:induction false} SendKeeps(w: World, ev: Event, reply: Reply)
    requires Inv(w) && Enabled(w, Send(ev, reply))
    ensures Inv(Apply(w, Send(ev, reply)))
  {
    SendKeepsPhase(w, ev, reply);
    SendKeepsStored(w, ev, reply);
    SendKeepsAccounted(w, ev, reply);
    SendKeepsOnlySent(w, ev, reply);
  }

  /** Writing to the file moves records between the file and the lost ones, and adds what is written. */
  lemma {:induction false} WriteSums(spooled: multiset<Event>, redelivered: multiset<Event>,
                                     before: multiset<Event>, after: multiset<Event>, lost: multiset<Event>,
                                     ruined: multiset<Event>, written: multiset<Event>)
    requires spooled <= redelivered + before + lost && after + ruined == before + written
    ensures spooled <= redelivered + after + (lost + ruined)
    ensures spooled + written <= redelivered + after + (lost + ruined)
  {
    assert redelivered + after + (lost + ruined) == redelivered + (after + ruined) + lost;
    assert redelivered + (before + written) + lost == redelivered + before + lost + written;
  }

  lemma {:induction false} FromFileOrHand(before: seq<Event>, after: seq<Event>, ruined: seq<Event>,
                                          written: seq<Event>, sent: seq<Event>)
    requires multiset(after) + multiset(ruined) == multiset(before) + multiset(written)
    requires AllSent(before, sent) && AllSent(written, sent)
    ensures AllSent(after, sent)
  {
    forall e | e in after
      ensures e in sent
    {
      assert e in multiset(after) + multiset(ruined);
      assert e in multiset(before) || e in multiset(written);
    }
  }

  lemma {:induction false} AppendKeepsPhase(w: World)
    requires NothingForgotten(w) && PhaseHolds(w) && Enabled(w, AppendSpool)
    ensures var w' := Apply(w, AppendSpool); NothingForgotten(w') && PhaseHolds(w')
  {
    var (ev, w') := (w.phase.ev, Apply(w, AppendSpool));
    var ruined := Ruined(w.file, Record(ev));
    PieceRuins(w.file, Record(ev), false);
    assert EventsOf(Record(ev)) == [ev];
    WriteSums(w.spooled, w.redelivered, InFile(w), InFile(w'), w.lost, multiset(ruined), multiset{ev});
    if w.faults == 0 {
      assert ruined == [];
      EndedSums(w.redelivered, InFile(w), InFile(w'), multiset{ev});
    }
  }

  lemma {:induction false} EndedSums(redelivered: multiset<Event>, before: multiset<Event>, after: multiset<Event>,
                                     written: multiset<Event>)
    requires after + multiset{} == before + written
    ensures redelivered + before + written == redelivered + after
  {
    assert after == after + multiset{};
    assert redelivered + before + written == redelivered + (before + written);
  }

  lemma {:induction false} AppendKeepsAccounted(w: World)
    requires Accounted(w) && AckedAreStored(w) && Enabled(w, AppendSpool)
    ensures var w' := Apply(w, AppendSpool); Accounted(w') && AckedAreStored(w')
  {
    var ev := multiset{w.phase.ev};
    assert w.acked + w.spooled + w.dropped + ev == w.acked + (w.spooled + ev) + w.dropped + multiset{};
  }

  lemma {:induction false} AppendKeepsSent(w: World)
    requires OnlySent(w) && Enabled(w, AppendSpool)
    ensures OnlySent(Apply(w, AppendSpool))
  {
    var ev := w.phase.ev;
    PieceRuins(w.file, Record(ev), false);
    FromFileOrHand(Records(Lines(w.file)), Records(Appended(w.file, ev).lines), Ruined(w.file, Record(ev)),
                   [ev], w.sent);
  }

  lemma {:induction false} AppendKeeps(w: World)
    requires Inv(w) && Enabled(w, AppendSpool)
    ensures Inv(Apply(w, AppendSpool))
  {
    AppendKeepsPhase(w);
    AppendKeepsAccounted(w);
    AppendKeepsSent(w);
  }

  lemma {:induction false} BreakOffKeeps(w: World, failure: Failure)
    requires Inv(w) && w.phase.Pending?
    ensures NothingForgotten(BreakOff(w, failure))
    ensures AllSent(Records(Lines(BreakOff(w, failure).file)), w.sent)
  {
    var (ev, w') := (w.phase.ev, BreakOff(w, failure));
    var (ruined, written) := (RuinedBy(w.file, ev, failure), WrittenBy(ev, failure));
    FailureRuins(w.file, ev, failure);
    WriteSums(w.spooled, w.redelivered, InFile(w), InFile(w'), w.lost, multiset(ruined), multiset(written));
    FromFileOrHand(Records(Lines(w.file)), Records(Lines(w'.file)), ruined, written, w.sent);
  }

  lemma {:induction false} StartKeeps(w: World)
    requires Inv(w) && Enabled(w, Start)
    ensures Inv(Apply(w, Start))
  {
  }

  lemma {:induction false} CrashKeeps(w: World, left: Option<File>, failure: Failure)
    requires Inv(w) && Enabled(w, Crash(left, failure))
    ensures Inv(Apply(w, Crash(left, failure)))
  {
    if w.phase.Pending? {
      BreakOffKeeps(w, failure);
      DroppedFromHand(w);
    }
  }

  lemma {:induction false} DroppedFromHand(w: World)
    ensures w.acked + w.spooled + w.dropped + InHand(w) == w.acked + w.spooled + (w.dropped + InHand(w))
  {
  }

  lemma {:induction false} DrainFailsKeeps(w: World, left: Option<File>)
    requires Inv(w) && Enabled(w, DrainFails(left))
    ensures Inv(Apply(w, DrainFails(left)))
  {
  }

  lemma {:induction false} AppendFailsKeeps(w: World, failure: Failure)
    requires Inv(w) && Enabled(w, AppendFails(failure))
    ensures Inv(Apply(w, AppendFails(failure)))
  {
    BreakOffKeeps(w, failure);
    DroppedFromHand(w);
  }

  lemma {:induction false} RemoveTmpKeepsPhase(w: World, removed: bool)
    requires NothingForgotten(w) && PhaseHolds(w) && Enabled(w, RemoveTmp(removed))
    ensures var w' := Apply(w, RemoveTmp(removed)); NothingForgotten(w') && PhaseHolds(w')
  {
    assert w.redelivered + multiset([]) + multiset(w.phase.unread) == w.redelivered + multiset(w.phase.unread);
  }

  lemma {:induction false} RemoveTmpKeeps(w: World, removed: bool)
    requires Inv(w) && Enabled(w, RemoveTmp(removed))
    ensures Inv(Apply(w, RemoveTmp(removed)))
  {
    RemoveTmpKeepsPhase(w, removed);
    BooksKept(w, Apply(w, RemoveTmp(removed)));
  }

  lemma {:induction false} RemoveFileKeeps(w: World, removed: bool)
    requires Inv(w) && Enabled(w, RemoveFile(removed))
    ensures Inv(Apply(w, RemoveFile(removed)))
  {
    assert Records(Lines(None)) == [];
    var unread := multiset(w.phase.unread);
    assert w.redelivered + unread + w.lost == w.redelivered + multiset{} + (w.lost + unread);
  }

  lemma {:induction false} StopKeeps(w: World)
    requires Inv(w) && Enabled(w, Stop)
    ensures Inv(Apply(w, Stop))
  {
  }

  lemma {:induction false} SkipDrainKeeps(w: World)
    requires Inv(w) && Enabled(w, SkipDrain)
    ensures Inv(Apply(w, SkipDrain))
  {
  }

  lemma {:induction false} StepKeeps(w: World, s: Step)
    requires Inv(w) && Enabled(w, s)
    ensures Inv(Apply(w, s))
  {
    match s
    case Start => StartKeeps(w);
    case Crash(left, failure) => CrashKeeps(w, left, failure);
    case Scan(reply) => ScanKeeps(w, reply);
    case ReadError => ReadErrorKeeps(w);
    case Flush => FlushKeeps(w);
    case Rename => RenameKeeps(w);
    case Send(ev, reply) => SendKeeps(w, ev, reply);
    case AppendSpool => AppendKeeps(w);
    case AppendFails(failure) => AppendFailsKeeps(w, failure);
    case DrainFails(left) => DrainFailsKeeps(w, left);
    case RemoveTmp(removed) => RemoveTmpKeeps(w, removed);
    case RemoveFile(removed) => RemoveFileKeeps(w, removed);
    case Stop => StopKeeps(w);
    case SkipDrain => SkipDrainKeeps(w);
  }

  lemma {:induction false} RunKeeps(w: World, steps: seq<Step>, w': World)
    requires Inv(w) && Run(w, steps, w')
    ensures Inv(w')
    decreases |steps|
  {
    if steps != [] {
      StepKeeps(w, steps[0]);
      RunKeeps(Apply(w, steps[0]), steps[1..], w');
    }
  }

  /// The theorems, over every run with any crashes, refusals, lost acknowledgements and disk errors.

  /** Every event whose spooling completed has been stored by the collector, is in the spool file, or
      was a record left unread or written onto a torn line. */
  lemma {:induction false} CrashSafeAtLeastOnce(w: World, steps: seq<Step>, w': World)
    requires Init(w) && Run(w, steps, w')
    ensures w'.spooled <= multiset(w'.stored) + InFile(w') + w'.lost
    ensures multiset(w'.sent) <= multiset(w'.stored) + InFile(w') + w'.lost + w'.dropped + InHand(w')
  {
    InitHolds(w);
    RunKeeps(w, steps, w');
    AtLeastOnceSums(w'.spooled, w'.acked, w'.redelivered, multiset(w'.stored), InFile(w') + w'.lost,
                    w'.dropped + InHand(w'));
    assert w'.redelivered + InFile(w') + w'.lost == w'.redelivered + (InFile(w') + w'.lost);
    assert w'.acked + w'.spooled + w'.dropped + InHand(w') == w'.acked + w'.spooled + (w'.dropped + InHand(w'));
    assert multiset(w'.stored) + (InFile(w') + w'.lost) + (w'.dropped + InHand(w'))
        == multiset(w'.stored) + InFile(w') + w'.lost + w'.dropped + InHand(w');
    assert multiset(w'.stored) + (InFile(w') + w'.lost) == multiset(w'.stored) + InFile(w') + w'.lost;
  }

  lemma {:induction false} AtLeastOnceSums(spooled: multiset<Event>, acked: multiset<Event>,
                                           redelivered: multiset<Event>, stored: multiset<Event>,
                                           rest: multiset<Event>, other: multiset<Event>)
    requires spooled <= redelivered + rest && acked + redelivered <= stored
    ensures spooled <= stored + rest
    ensures acked + spooled + other <= stored + rest + other
  {
  }

  /** A failed append that leaves the last line without its end, and a read that breaks off. */
  predicate Tears(failure: Failure) {
    failure.PartWritten? || failure.NoLineEnd?
  }

  predicate Careful(s: Step) {
    match s
    case ReadError => false
    case AppendFails(failure) => !Tears(failure)
    case Crash(_, failure) => !Tears(failure)
    case _ => true
  }

  predicate Whole(w: World) {
    && w.lost == multiset{} && !Torn(w.file)
    && (w.phase.Scanning? ==> w.phase.end == |w.phase.lines|)
    && (w.phase.Flushed? ==> w.phase.unread == [] && w.tmp.Some? && !w.tmp.value.torn)
    && (w.phase.TmpRemoved? ==> w.phase.unread == [])
  }

  lemma {:induction false} CarefulKeepsWhole(w: World, s: Step)
    requires Whole(w) && Enabled(w, s) && Careful(s)
    ensures Whole(Apply(w, s))
  {
    match s
    case Flush => assert w.phase.lines[w.phase.end..] == [];
    case AppendSpool => assert Ruined(w.file, Record(w.phase.ev)) == [];
    case AppendFails(failure) => CarefulBreakOff(w, failure);
    case Crash(_, failure) =>
      if w.phase.Pending? {
        CarefulBreakOff(w, failure);
      }
    case _ =>
  }

  lemma {:induction false} CarefulBreakOff(w: World, failure: Failure)
    requires w.phase.Pending? && !Torn(w.file) && !Tears(failure)
    ensures BreakOff(w, failure).lost == w.lost && !Torn(BreakOff(w, failure).file)
  {
    assert RuinedBy(w.file, w.phase.ev, failure) == [];
  }

  /** Nothing is ever lost from a file that starts out with its last line ended, in a run without read
      errors and torn writes, whatever else crashes or fails; so every spooled event is stored or there. */
  lemma {:induction false} NothingLostWithoutTears(w: World, steps: seq<Step>, w': World)
    requires Init(w) && Run(w, steps, w') && !Torn(w.file) && forall s <- steps :: Careful(s)
    ensures w'.lost == multiset{}
    ensures w'.spooled <= multiset(w'.stored) + InFile(w')
  {
    StaysWhole(w, steps, w');
    CrashSafeAtLeastOnce(w, steps, w');
    assert multiset(w'.stored) + InFile(w') + w'.lost == multiset(w'.stored) + InFile(w');
  }

  lemma {:induction false} StaysWhole(w: World, steps: seq<Step>, w': World)
    requires Whole(w) && Run(w, steps, w') && forall s <- steps :: Careful(s)
    ensures Whole(w')
    decreases |steps|
  {
    if steps != [] {
      CarefulKeepsWhole(w, steps[0]);
      StaysWhole(Apply(w, steps[0]), steps[1..], w');
    }
  }

  /** Without faults, and outside an operation, nothing is lost or duplicated: the events sent are
      those the collector stored and those in the spool, each as often. */
  lemma {:induction false} FaultFreeConservation(w: World, steps: seq<Step>, w': World)
    requires Init(w) && Run(w, steps, w') && w'.faults == 0 && (w'.phase.Down? || w'.phase.Up?)
    ensures multiset(w'.sent) == multiset(w'.stored) + InFile(w')
  {
    InitHolds(w);
    RunKeeps(w, steps, w');
  }

  /** Once the spool is empty, if no event was dropped or lost, the collector's per-asset view is the one
      it would hold had every event arrived once and in order, provided the newest event of each key is
      unique. */
  lemma {:induction false} DeliveryDoesNotDisturbTheView(w: World, steps: seq<Step>, w': World)
    requires Init(w) && Run(w, steps, w')
    requires w'.phase.Down? || w'.phase.Up?
    requires Records(Lines(w'.file)) == [] && w'.dropped == w'.lost == multiset{}
    requires EventStore.UniqueNewest(Elements(w'.sent))
    ensures EventStore.LatestOf(w'.stored) == EventStore.LatestOf(w'.sent)
  {
    InitHolds(w);
    RunKeeps(w, steps, w');
    forall e ensures e in Elements(w'.stored) <==> e in Elements(w'.sent) {
      if e in w'.sent {
        assert e in multiset(w'.sent);
        assert e in multiset(w'.stored);
      }
    }
    EventStore.RedeliveryIsHarmless(w'.sent, w'.stored);
  }

  /// The whole drain, uninterrupted, is the drain of the code.

  function ScanSteps(lines: seq<Line>, posts: nat, reply: nat -> Reply): seq<Step> {
    if lines == [] then [] else
      ScanSteps(lines[..|lines| - 1], posts, reply)
      + [Scan(reply(PassOver(lines[..|lines| - 1], posts, reply).posts))]
  }

  lemma {:induction false} HeadFirst<T>(a: seq<T>, b: seq<T>)
    requires a != []
    ensures [a[0]] + (a[1..] + b) == a + b
  {
  }

  lemma {:induction false} RunFrom(w: World, s: Step, rest: seq<Step>, w': World)
    requires Enabled(w, s) && Run(Apply(w, s), rest, w')
    ensures Run(w, [s] + rest, w')
  {
    assert ([s] + rest)[1..] == rest;
  }

  lemma {:induction false} RunAppend(w: World, a: seq<Step>, mid: World, b: seq<Step>, w': World)
    requires Run(w, a, mid) && Run(mid, b, w')
    ensures Run(w, a + b, w')
    decreases |a|
  {
    if a == [] {
      assert a + b == b;
    } else {
      RunAppend(Apply(w, a[0]), a[1..], mid, b, w');
      RunFrom(w, a[0], a[1..] + b, w');
      HeadFirst(a, b);
    }
  }

  /** Where the files, the phase and the collector are, and what is lost; the rest is other history. */
  predicate Stands(w: World, file: Option<File>, tmp: Option<File>, phase: Phase, stored: seq<Event>,
                   lost: multiset<Event>) {
    w.file == file && w.tmp == tmp && w.phase == phase && w.stored == stored && w.lost == lost
  }

  lemma {:induction false} ScanOne(w: World, file: File, n: nat, p: Pass, reply: nat -> Reply,
                                   before: multiset<Event>, stored: seq<Event>)
    requires var lines := file.lines;
      && n < |lines| && !lines[n].Undecodable?
      && Stands(w, Some(file), Some(File([], false)), Scanning(lines, n, |lines|, p.kept, before),
                stored + p.stored, w.lost)
    ensures var (lines, w', p') := (file.lines, Apply(w, Scan(reply(p.posts))), PassLine(p, file.lines[n], reply));
      Stands(w', Some(file), Some(File([], false)), Scanning(lines, n + 1, |lines|, p'.kept, before),
             stored + p'.stored, w.lost)
  {
    if file.lines[n].Record? {
      assert stored + p.stored + [file.lines[n].ev] == stored + (p.stored + [file.lines[n].ev]);
    }
  }

  lemma {:induction false} ScanIsPass(w: World, file: File, n: nat, posts: nat, reply: nat -> Reply) returns (w': World)
    requires var lines := file.lines;
      && n <= Decodable(lines)
      && Stands(w, Some(file), Some(File([], false)), Scanning(lines, 0, |lines|, [], w.redelivered), w.stored, w.lost)
    ensures var (lines, p) := (file.lines, PassOver(file.lines[..n], posts, reply));
      && Run(w, ScanSteps(lines[..n], posts, reply), w')
      && Stands(w', Some(file), Some(File([], false)), Scanning(lines, n, |lines|, p.kept, w.redelivered),
                w.stored + p.stored, w.lost)
    decreases n
  {
    if n == 0 {
      w' := w;
    } else {
      var lines := file.lines;
      var (before, all) := (lines[..n - 1], lines[..n]);
      var mid := ScanIsPass(w, file, n - 1, posts, reply);
      assert all[..n - 1] == before;
      var p := PassOver(before, posts, reply);
      var step := Scan(reply(p.posts));
      DecodableIsFirst(lines);
      w' := Apply(mid, step);
      ScanOne(mid, file, n - 1, p, reply, w.redelivered, w.stored);
      assert Run(mid, [step], w') by { assert [step][1..] == []; }
      RunAppend(w, ScanSteps(before, posts, reply), mid, [step], w');
      assert PassOver(all, posts, reply) == PassLine(PassOver(before, posts, reply), lines[n - 1], reply);
    }
  }

  /** The end of a drain that has read all the lines it can. */
  lemma {:induction false} FinishSteps(w: World, file: Option<File>) returns (steps: seq<Step>, w': World)
    requires w.phase.Scanning? && w.phase.next == w.phase.end <= |w.phase.lines|
    requires file == if w.phase.kept == [] then None else Some(File(RecordLines(w.phase.kept), false))
    ensures Run(w, steps, w')
    ensures Stands(w', file, None, Up, w.stored, w.lost + multiset(Records(w.phase.lines[w.phase.end..])))
  {
    var flushed := Apply(w, Flush);
    if w.phase.kept == [] {
      var (tmp, file) := (RemoveTmp(true), RemoveFile(true));
      steps := [Flush, tmp, file];
      w' := Apply(Apply(flushed, tmp), file);
      assert steps[1..] == [tmp, file] && steps[1..][1..] == [file] && steps[1..][1..][1..] == [];
      assert Run(Apply(flushed, tmp), [file], w') by { assert [file][1..] == []; }
    } else {
      steps := [Flush, Rename];
      w' := Apply(flushed, Rename);
      assert steps[1..] == [Rename] && steps[1..][1..] == [];
    }
  }

  lemma {:induction false} StopReading(w: World) returns (steps: seq<Step>, w': World)
    requires w.phase.Scanning? && w.phase.next <= w.phase.end == |w.phase.lines|
    ensures Run(w, steps, w')
    ensures Stands(w', w.file, w.tmp, w.phase.(end := w.phase.next), w.stored, w.lost)
  {
    if w.phase.next < w.phase.end {
      steps, w' := [ReadError], Apply(w, ReadError);
      assert steps[1..] == [];
    } else {
      steps, w' := [], w;
    }
  }

  /** There is a run of the machine that starts the agent and takes the disk and the collector exactly
      where `Spool.Drain` takes them when no other disk error and no crash comes in between, and it
      loses the records not read. */
  lemma {:induction false} DrainIsARun(w: World, readable: nat, posts: nat, reply: nat -> Reply)
    returns (steps: seq<Step>, w': World)
    requires w.phase.Down? && w.file.Some?
    ensures var lines := w.file.value.lines;
      var read := Readable(lines, readable);
      var p := PassOver(read, posts, reply);
      && Run(w, steps, w')
      && Stands(w', SpoolAfter(p), None, Up, w.stored + p.stored, w.lost + multiset(Records(lines[|read|..])))
  {
    var (file, lines) := (w.file.value, w.file.value.lines);
    var read := Readable(lines, readable);
    var started := Apply(w, Start);
    var scanned := ScanIsPass(started, file, |read|, posts, reply);
    assert lines[..|read|] == read;
    PassSelects(read, posts, reply);
    var p := PassOver(read, posts, reply);
    var stop, stopped := StopReading(scanned);
    var finish;
    finish, w' := FinishSteps(stopped, SpoolAfter(p));
    var scans := ScanSteps(read, posts, reply);
    RunAppend(scanned, stop, stopped, finish, w');
    RunAppend(started, scans, scanned, stop + finish, w');
    steps := [Start] + (scans + (stop + finish));
    assert steps[1..] == scans + (stop + finish);
  }

  /** And a run that does what `Sink.Send` does with a collector and a spool. */
  lemma {:induction false} SendIsARun(w: World, ev: Event, reply: Reply, failure: Option<Failure>)
    returns (steps: seq<Step>, w': World)
    requires w.phase.Up?
    ensures Run(w, steps, w')
    ensures var file :=
        if reply == Accepted then w.file
        else if failure.None? then Some(Appended(w.file, ev))
        else AfterFailure(w.file, ev, failure.value);
      && w'.file == file && w'.tmp == w.tmp && w'.phase == Up
      && w'.stored == w.stored + if reply == Refused then [] else [ev]
  {
    var posted := Apply(w, Send(ev, reply));
    if reply == Accepted {
      steps, w' := [Send(ev, reply)], posted;
      assert steps[1..] == [];
    } else {
      var last := if failure.None? then AppendSpool else AppendFails(failure.value);
      steps, w' := [Send(ev, reply), last], Apply(posted, last);
      assert steps[1..] == [last] && [last][1..] == [];
      assert Run(posted, [last], w');
    }
  }
}
