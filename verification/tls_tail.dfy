/** What bytes after the end of a buffer can and cannot change about how it parses. */
module TlsTail {
  import opened Bytes
  import opened Wrappers
  import opened TlsParser

  /** How a result may move when `k` bytes arrive: a success stands, and an error that names
      missing bytes stays the same error, short by exactly `k` bytes less, until enough arrive. */
  ghost predicate Stable<T>(r: Result<T, ParseError>, later: Result<T, ParseError>, k: nat) {
    match r
    case Ok(_) => later == r
    case Err(Truncated(at, need)) => k < need ==> later == Err(Truncated(at, need - k))
    case Err(UnsupportedKind(_)) => later == r
    case Err(LengthMismatch(claimed, available)) =>
      claimed > available + k ==> later == Err(LengthMismatch(claimed, available + k))
  }

  /** The header parses and an extensions block follows it. */
  predicate HasBlock(buf: seq<Byte>) {
    ReadHeader(buf).Ok? && Remaining(buf, ReadHeader(buf).value.1) >= 2
  }

  lemma {:induction false} ReadsStable(buf: seq<Byte>, tail: seq<Byte>, pos: nat, n: nat)
    requires pos <= |buf|
    ensures Stable(ReadU8(buf, pos), ReadU8(buf + tail, pos), |tail|)
    ensures Stable(ReadU16(buf, pos), ReadU16(buf + tail, pos), |tail|)
    ensures Stable(ReadU24(buf, pos), ReadU24(buf + tail, pos), |tail|)
    ensures Stable(Skip(buf, pos, n), Skip(buf + tail, pos, n), |tail|)
  {
  }

  lemma {:induction false} ListStable(buf: seq<Byte>, tail: seq<Byte>, pos: nat, end: nat, acc: seq<U16>)
    requires pos <= |buf|
    ensures Stable(ReadList(buf, pos, end, acc), ReadList(buf + tail, pos, end, acc), |tail|)
    ensures ReadList(buf, pos, end, acc).Ok? ==> pos <= ReadList(buf, pos, end, acc).value.1 <= |buf|
    decreases end - pos
  {
    ReadsStable(buf, tail, pos, 0);
    if pos < end && ReadU16(buf, pos).Ok? {
      var (v, next) := ReadU16(buf, pos).value;
      ListStable(buf, tail, next, end, acc + [v]);
    }
  }

  lemma {:induction false} SizedListStable(buf: seq<Byte>, tail: seq<Byte>, pos: nat, acc: seq<U16>)
    requires pos <= |buf|
    ensures Stable(ReadList16(buf, pos, acc), ReadList16(buf + tail, pos, acc), |tail|)
    ensures Stable(ReadList8(buf, pos, acc), ReadList8(buf + tail, pos, acc), |tail|)
  {
    ReadsStable(buf, tail, pos, 0);
    if ReadU16(buf, pos).Ok? {
      var (len, start) := ReadU16(buf, pos).value;
      ListStable(buf, tail, start, start + len, acc);
    }
    if ReadU8(buf, pos).Ok? {
      var (len, start) := ReadU8(buf, pos).value;
      ListStable(buf, tail, start, start + len, acc);
    }
  }

  lemma {:induction false} ExtensionDataStable(buf: seq<Byte>, tail: seq<Byte>, extType: U16, pos: nat, s: HandshakeSummary)
    requires pos <= |buf|
    ensures Stable(ReadExtensionData(buf, extType, pos, s), ReadExtensionData(buf + tail, extType, pos, s), |tail|)
  {
    if extType == SUPPORTED_GROUPS {
      SizedListStable(buf, tail, pos, s.supportedGroups);
    } else if extType == SIGNATURE_ALGORITHMS {
      SizedListStable(buf, tail, pos, s.signatureSchemes);
    } else if extType == SUPPORTED_VERSIONS {
      SizedListStable(buf, tail, pos, s.supportedVersions);
      ReadsStable(buf, tail, pos, 0);
    }
  }

  /** One iteration of the extension loop: where the next one starts, and the summary by then. */
  function Iteration(buf: seq<Byte>, pos: nat, s: HandshakeSummary): Read<HandshakeSummary> {
    var (extType, lenAt) :- ReadU16(buf, pos);
    var (len, data) :- ReadU16(buf, lenAt);
    var s' :- ReadExtensionData(buf, extType, data, s);
    Ok((s', data + len))
  }

  lemma {:induction false} LoopIsIteration(buf: seq<Byte>, pos: nat, end: nat, s: HandshakeSummary)
    requires pos < end
    ensures Iteration(buf, pos, s).Ok? ==>
      var (s', next) := Iteration(buf, pos, s).value;
      next >= pos + 4 && ReadExtensions(buf, pos, end, s) == ReadExtensions(buf, next, end, s')
    ensures Iteration(buf, pos, s).Err? ==> ReadExtensions(buf, pos, end, s) == Err(Iteration(buf, pos, s).error)
  {
  }

  /** The same, for an iteration that succeeds with known results. */
  lemma {:induction false} LoopGoesOn(buf: seq<Byte>, pos: nat, end: nat, s: HandshakeSummary,
                                      next: nat, s': HandshakeSummary)
    requires pos < end && Iteration(buf, pos, s) == Ok((s', next))
    ensures ReadExtensions(buf, pos, end, s) == ReadExtensions(buf, next, end, s')
  {
    LoopIsIteration(buf, pos, end, s);
  }

  lemma {:induction false} IterationStable(buf: seq<Byte>, tail: seq<Byte>, pos: nat, s: HandshakeSummary)
    requires pos <= |buf|
    ensures Stable(Iteration(buf, pos, s), Iteration(buf + tail, pos, s), |tail|)
  {
    ReadsStable(buf, tail, pos, 0);
    if ReadU16(buf, pos).Ok? {
      var (extType, lenAt) := ReadU16(buf, pos).value;
      ReadsStable(buf, tail, lenAt, 0);
      if ReadU16(buf, lenAt).Ok? {
        ExtensionDataStable(buf, tail, extType, lenAt + 2, s);
      }
    }
  }

  lemma {:induction false} ExtensionsStable(buf: seq<Byte>, tail: seq<Byte>, pos: nat, end: nat, s: HandshakeSummary)
    requires end <= |buf|
    ensures Stable(ReadExtensions(buf, pos, end, s), ReadExtensions(buf + tail, pos, end, s), |tail|)
    decreases end - pos
  {
    if pos < end {
      IterationStable(buf, tail, pos, s);
      LoopIsIteration(buf, pos, end, s);
      LoopIsIteration(buf + tail, pos, end, s);
      if Iteration(buf, pos, s).Ok? {
        var (s', next) := Iteration(buf, pos, s).value;
        ExtensionsStable(buf, tail, next, end, s');
      }
    }
  }

  lemma {:induction false} VersionStable(buf: seq<Byte>, tail: seq<Byte>, pos: nat)
    requires pos <= |buf|
    ensures Stable(ReadVersion(buf, pos), ReadVersion(buf + tail, pos), |tail|)
    ensures ReadVersion(buf, pos).Ok? ==> ReadVersion(buf, pos).value.1 <= |buf|
  {
    ReadsStable(buf, tail, pos, 0);
    if pos + 2 <= |buf| {
      ReadsStable(buf, tail, pos + 2, 32);
      if pos + 34 <= |buf| {
        ReadsStable(buf, tail, pos + 34, 0);
        if pos + 35 <= |buf| {
          ReadsStable(buf, tail, pos + 35, buf[pos + 34]);
        }
      }
    }
  }

  lemma {:induction false} PreambleStable(buf: seq<Byte>, tail: seq<Byte>, pos: nat)
    requires pos <= |buf|
    ensures Stable(ReadPreamble(buf, pos), ReadPreamble(buf + tail, pos), |tail|)
    ensures ReadPreamble(buf, pos).Ok? ==> ReadPreamble(buf, pos).value.1 <= |buf|
  {
    ReadsStable(buf, tail, pos, 0);
    if pos + 3 <= |buf| {
      VersionStable(buf, tail, pos + 3);
    }
  }

  lemma {:induction false} CompressionStable(buf: seq<Byte>, tail: seq<Byte>, pos: nat, suites: seq<U16>)
    requires pos <= |buf|
    ensures Stable(ReadCompression(buf, pos, suites), ReadCompression(buf + tail, pos, suites), |tail|)
    ensures ReadCompression(buf, pos, suites).Ok? ==> ReadCompression(buf, pos, suites).value.1 <= |buf|
  {
    ReadsStable(buf, tail, pos, 0);
    if pos < |buf| {
      ReadsStable(buf, tail, pos + 1, buf[pos]);
    }
  }

  lemma {:induction false} ClientSuitesStable(buf: seq<Byte>, tail: seq<Byte>, pos: nat)
    requires pos <= |buf|
    ensures Stable(ReadClientSuites(buf, pos), ReadClientSuites(buf + tail, pos), |tail|)
    ensures ReadClientSuites(buf, pos).Ok? ==> ReadClientSuites(buf, pos).value.1 <= |buf|
  {
    ReadsStable(buf, tail, pos, 0);
    if pos + 2 <= |buf| {
      var (len, start) := ReadU16(buf, pos).value;
      ListStable(buf, tail, start, start + len, []);
      var suites := ReadList(buf, start, start + len, []);
      if suites.Ok? {
        CompressionStable(buf, tail, suites.value.1, suites.value.0);
      }
    }
  }

  lemma {:induction false} ServerSuiteStable(buf: seq<Byte>, tail: seq<Byte>, pos: nat)
    requires pos <= |buf|
    ensures Stable(ReadServerSuite(buf, pos), ReadServerSuite(buf + tail, pos), |tail|)
    ensures ReadServerSuite(buf, pos).Ok? ==> ReadServerSuite(buf, pos).value.1 <= |buf|
  {
    ReadsStable(buf, tail, pos, 0);
    if pos + 2 <= |buf| {
      ReadsStable(buf, tail, pos + 2, 1);
    }
  }

  lemma {:induction false} SuitesStable(buf: seq<Byte>, tail: seq<Byte>, pos: nat, kind: HandshakeKind)
    requires pos <= |buf|
    ensures Stable(ReadSuites(buf, pos, kind), ReadSuites(buf + tail, pos, kind), |tail|)
    ensures ReadSuites(buf, pos, kind).Ok? ==> ReadSuites(buf, pos, kind).value.1 <= |buf|
  {
    if kind.ClientHello? {
      ClientSuitesStable(buf, tail, pos);
    } else {
      ServerSuiteStable(buf, tail, pos);
    }
  }

  lemma {:induction false} HelloStable(buf: seq<Byte>, tail: seq<Byte>, pos: nat, kind: HandshakeKind)
    requires pos <= |buf|
    ensures Stable(ReadHello(buf, pos, kind), ReadHello(buf + tail, pos, kind), |tail|)
    ensures ReadHello(buf, pos, kind).Ok? ==> ReadHello(buf, pos, kind).value.1 <= |buf|
  {
    PreambleStable(buf, tail, pos);
    if ReadPreamble(buf, pos).Ok? {
      SuitesStable(buf, tail, ReadPreamble(buf, pos).value.1, kind);
    }
  }

  lemma {:induction false} HeaderStable(buf: seq<Byte>, tail: seq<Byte>)
    ensures Stable(ReadHeader(buf), ReadHeader(buf + tail), |tail|)
    ensures ReadHeader(buf).Ok? ==> ReadHeader(buf).value.1 <= |buf|
  {
    ReadsStable(buf, tail, 0, 0);
    if ReadKind(buf).Ok? {
      HelloStable(buf, tail, 1, ReadKind(buf).value.0);
    }
  }

  lemma {:induction false} BlockStable(buf: seq<Byte>, tail: seq<Byte>, pos: nat, s: HandshakeSummary)
    requires pos + 2 <= |buf|
    ensures Stable(ReadBlock(buf, pos, s), ReadBlock(buf + tail, pos, s), |tail|)
  {
    ReadsStable(buf, tail, pos, 0);
    var (extBytes, start) := ReadU16(buf, pos).value;
    if extBytes <= Remaining(buf, start) {
      ExtensionsStable(buf, tail, start, start + extBytes, s);
    }
  }

  /** Whatever follows the buffer: a summary whose extensions block was read stands, and an error
      that asked for more bytes keeps its offset and asks for exactly as many fewer. */
  lemma {:induction false} TailInsensitive(buf: seq<Byte>, tail: seq<Byte>)
    requires Parse(buf).Err? || HasBlock(buf)
    ensures Stable(Parse(buf), Parse(buf + tail), |tail|)
  {
    HeaderStable(buf, tail);
    if HasBlock(buf) {
      var (s, pos) := ReadHeader(buf).value;
      BlockStable(buf, tail, pos, s);
    }
  }

  /** Without a block, two bytes after the buffer are taken for a block length no buffer can meet. */
  lemma {:induction false} MissingBlockIsSensitive(buf: seq<Byte>)
    requires Parse(buf).Ok? && !HasBlock(buf)
    ensures Parse(buf + [0xff, 0xff]).Err?
  {
    var tail := [0xff, 0xff];
    HeaderStable(buf, tail);
    var (s, pos) := ReadHeader(buf).value;
    assert ReadHeader(buf + tail) == Ok((s, pos));
    var (extBytes, start) := ReadU16(buf + tail, pos).value;
    assert extBytes > Remaining(buf + tail, start);
  }

  predicate SameFollowedBy(buf: seq<Byte>, tail: seq<Byte>) {
    Parse(buf + tail) == Parse(buf)
  }

  /** An accepted buffer parses the same whatever bytes follow it exactly when its extensions
      block was present. */
  lemma {:induction false} StandsWhateverFollowsIffBlock(buf: seq<Byte>)
    requires Parse(buf).Ok?
    ensures HasBlock(buf) ==> forall tail :: SameFollowedBy(buf, tail)
    ensures (forall tail :: SameFollowedBy(buf, tail)) ==> HasBlock(buf)
  {
    if HasBlock(buf) {
      forall tail ensures SameFollowedBy(buf, tail) {
        TailInsensitive(buf, tail);
      }
    } else {
      MissingBlockIsSensitive(buf);
      assert !SameFollowedBy(buf, [0xff, 0xff]);
    }
  }

  /// Progress of the extension loop.

  /** Where the loop stands at the start of each iteration. */
  function LoopOffsets(buf: seq<Byte>, pos: nat, end: nat, s: HandshakeSummary): seq<nat>
    decreases end - pos
  {
    if pos >= end then [] else
      match ReadU16(buf, pos)
      case Err(_) => [pos]
      case Ok((extType, lenAt)) =>
        match ReadU16(buf, lenAt)
        case Err(_) => [pos]
        case Ok((len, data)) =>
          match ReadExtensionData(buf, extType, data, s)
          case Err(_) => [pos]
          case Ok(s') => [pos] + LoopOffsets(buf, data + len, end, s')
  }

  /** Although an iteration may end behind bytes an inner list has read, each one starts at least
      four bytes after the one before and inside the block, so a block of n bytes takes at most
      ceil(n / 4) iterations; and the loop fails only inside its last one. */
  lemma {:induction false} LoopAdvances(buf: seq<Byte>, pos: nat, end: nat, s: HandshakeSummary)
    ensures var offsets := LoopOffsets(buf, pos, end, s);
      && (forall i :: 0 <= i < |offsets| ==> pos + 4 * i <= offsets[i] < end)
      && (forall i, j :: 0 <= i < j < |offsets| ==> offsets[i] + 4 * (j - i) <= offsets[j])
      && (pos <= end ==> 4 * |offsets| <= end - pos + 3)
    decreases end - pos
  {
    var offsets := LoopOffsets(buf, pos, end, s);
    if |offsets| > 1 {
      var (extType, lenAt) := ReadU16(buf, pos).value;
      var (len, data) := ReadU16(buf, lenAt).value;
      var s' := ReadExtensionData(buf, extType, data, s).value;
      LoopAdvances(buf, data + len, end, s');
      var rest := LoopOffsets(buf, data + len, end, s');
      assert offsets == [pos] + rest;
      forall i, j | 0 <= i < j < |offsets| ensures offsets[i] + 4 * (j - i) <= offsets[j] {
        if i == 0 { assert offsets[j] == rest[j - 1]; }
        else { assert offsets[i] == rest[i - 1] && offsets[j] == rest[j - 1]; }
      }
      forall i | 0 <= i < |offsets| ensures pos + 4 * i <= offsets[i] < end {
        if i > 0 { assert offsets[i] == rest[i - 1]; }
      }
    }
  }
}
