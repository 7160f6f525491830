/** The wire format of ClientHello and ServerHello (RFC 8446, sections 4.1.2, 4.1.3 and 4.2), as an
    encoder, and the proof that the parser inverts it. */
module TlsRoundTrip {
  import opened Bytes
  import opened Wrappers
  import opened TlsParser
  import opened TlsTail

  /** An extension: the three the parser knows, in the form each kind of hello gives them and with
      any padding after the content, and all the others. */
  datatype Extension =
    | Groups(items: seq<U16>, padding: seq<Byte>)
    | Schemes(items: seq<U16>, padding: seq<Byte>)
    | ClientVersions(items: seq<U16>, padding: seq<Byte>)
    | ServerVersion(version: U16, padding: seq<Byte>)
    | Other(extType: U16, data: seq<Byte>)

  /** A hello message. `extensions` is `None` for a legacy message without an extensions block. */
  datatype Hello = Hello(
    kind: HandshakeKind,
    version: U16,
    random: seq<Byte>,
    sessionId: seq<Byte>,
    suites: seq<U16>,
    compression: seq<Byte>,
    extensions: Option<seq<Extension>>)

  /// The encoder.

  function Bytes16(n: U16): seq<Byte> {
    [n / 0x100, n % 0x100]
  }

  function Bytes24(n: U24): seq<Byte> {
    [n / 0x1_0000, n / 0x100 % 0x100, n % 0x100]
  }

  function EncodeList(items: seq<U16>): (r: seq<Byte>)
    ensures |r| == 2 * |items|
  {
    if items == [] then [] else Bytes16(items[0]) + EncodeList(items[1..])
  }

  function TypeOf(e: Extension): U16 {
    match e
    case Groups(_, _) => SUPPORTED_GROUPS
    case Schemes(_, _) => SIGNATURE_ALGORITHMS
    case ClientVersions(_, _) => SUPPORTED_VERSIONS
    case ServerVersion(_, _) => SUPPORTED_VERSIONS
    case Other(extType, _) => extType
  }

  /** The lengths fit their fields, the form suits the message, and no other extension has a known type. */
  predicate ExtensionFits(kind: HandshakeKind, e: Extension) {
    match e
    case Groups(items, padding) => 2 + 2 * |items| + |padding| < 0x1_0000
    case Schemes(items, padding) => 2 + 2 * |items| + |padding| < 0x1_0000
    case ClientVersions(items, padding) =>
      kind.ClientHello? && 2 * |items| < 0x100 && 1 + 2 * |items| + |padding| < 0x1_0000
    case ServerVersion(_, padding) => kind.ServerHello? && 2 + |padding| < 0x1_0000
    case Other(extType, data) =>
      extType !in {SUPPORTED_GROUPS, SIGNATURE_ALGORITHMS, SUPPORTED_VERSIONS} && |data| < 0x1_0000
  }

  function EncodeData(kind: HandshakeKind, e: Extension): (r: seq<Byte>)
    requires ExtensionFits(kind, e)
    ensures |r| < 0x1_0000
  {
    match e
    case Groups(items, padding) => Bytes16(2 * |items|) + EncodeList(items) + padding
    case Schemes(items, padding) => Bytes16(2 * |items|) + EncodeList(items) + padding
    case ClientVersions(items, padding) => [2 * |items|] + EncodeList(items) + padding
    case ServerVersion(version, padding) => Bytes16(version) + padding
    case Other(_, data) => data
  }

  function EncodeExtension(kind: HandshakeKind, e: Extension): seq<Byte>
    requires ExtensionFits(kind, e)
  {
    Bytes16(TypeOf(e)) + Bytes16(|EncodeData(kind, e)|) + EncodeData(kind, e)
  }

  function EncodeExtensions(kind: HandshakeKind, es: seq<Extension>): seq<Byte>
    requires forall e <- es :: ExtensionFits(kind, e)
  {
    if es == [] then [] else EncodeExtension(kind, es[0]) + EncodeExtensions(kind, es[1..])
  }

  function EncodeSuites(h: Hello): seq<Byte>
    requires h.kind.ClientHello? ==> 2 * |h.suites| < 0x1_0000 && |h.compression| < 0x100
  {
    if h.kind.ClientHello? then
      Bytes16(2 * |h.suites|) + EncodeList(h.suites) + [|h.compression|] + h.compression
    else
      EncodeList(h.suites) + h.compression
  }

  /** The length limits of the message format. */
  predicate WellFormed(h: Hello) {
    && |h.random| == 32
    && |h.sessionId| < 0x100
    && (h.kind.ClientHello? ==> 2 * |h.suites| < 0x1_0000 && |h.compression| < 0x100)
    && (h.kind.ServerHello? ==> |h.suites| == 1 && |h.compression| == 1)
    && (h.extensions.Some? ==>
          && (forall e <- h.extensions.value :: ExtensionFits(h.kind, e))
          && |EncodeExtensions(h.kind, h.extensions.value)| < 0x1_0000)
  }

  function EncodeBlock(h: Hello): (r: seq<Byte>)
    requires WellFormed(h)
    ensures |r| < 0x1_0002
  {
    if h.extensions.None? then [] else
      var block := EncodeExtensions(h.kind, h.extensions.value);
      Bytes16(|block|) + block
  }

  function EncodeBody(h: Hello): (r: seq<Byte>)
    requires WellFormed(h)
    ensures |r| < 0x100_0000
  {
    Bytes16(h.version) + h.random + [|h.sessionId|] + h.sessionId + EncodeSuites(h) + EncodeBlock(h)
  }

  function Encode(h: Hello): seq<Byte>
    requires WellFormed(h)
  {
    [if h.kind.ClientHello? then 1 else 2] + Bytes24(|EncodeBody(h)|) + EncodeBody(h)
  }

  /// What the parser should report: the codepoints of each known extension, in wire order.

  function Items(e: Extension): seq<U16> {
    match e
    case Groups(items, _) => items
    case Schemes(items, _) => items
    case ClientVersions(items, _) => items
    case ServerVersion(version, _) => [version]
    case Other(_, _) => []
  }

  /** The codepoints carried by all extensions of one type. */
  function Codepoints(es: seq<Extension>, extType: U16): seq<U16> {
    if es == [] then [] else
      (if TypeOf(es[0]) == extType then Items(es[0]) else []) + Codepoints(es[1..], extType)
  }

  function Summary(h: Hello): HandshakeSummary {
    var es := if h.extensions.Some? then h.extensions.value else [];
    HandshakeSummary(h.kind, h.version, h.suites,
                     Codepoints(es, SUPPORTED_GROUPS),
                     Codepoints(es, SIGNATURE_ALGORITHMS),
                     Codepoints(es, SUPPORTED_VERSIONS))
  }

  /// Bytes at a position.

  /** `bytes` stand in `buf` from `pos` on. */
  predicate At(buf: seq<Byte>, pos: nat, bytes: seq<Byte>) {
    pos + |bytes| <= |buf| && forall i {:trigger bytes[i]} :: 0 <= i < |bytes| ==> buf[pos + i] == bytes[i]
  }

  lemma {:induction false} AtSplit(buf: seq<Byte>, pos: nat, a: seq<Byte>, b: seq<Byte>)
    requires At(buf, pos, a + b)
    ensures At(buf, pos, a) && At(buf, pos + |a|, b)
  {
    forall i | 0 <= i < |a| ensures buf[pos + i] == a[i] {
      assert (a + b)[i] == a[i];
    }
    forall i | 0 <= i < |b| ensures buf[pos + |a| + i] == b[i] {
      assert (a + b)[|a| + i] == b[i];
    }
  }

  lemma {:induction false} AtSplit3(buf: seq<Byte>, pos: nat, a: seq<Byte>, b: seq<Byte>, c: seq<Byte>)
    requires At(buf, pos, a + b + c)
    ensures At(buf, pos, a) && At(buf, pos + |a|, b) && At(buf, pos + |a| + |b|, c)
  {
    AtSplit(buf, pos, a + b, c);
    AtSplit(buf, pos, a, b);
  }

  lemma {:induction false} Read16At(buf: seq<Byte>, pos: nat, n: U16)
    requires At(buf, pos, Bytes16(n))
    ensures ReadU16(buf, pos) == Ok((n, pos + 2))
  {
    assert buf[pos] == Bytes16(n)[0] && buf[pos + 1] == Bytes16(n)[1];
  }

  lemma {:induction false} Read24At(buf: seq<Byte>, pos: nat, n: U24)
    requires At(buf, pos, Bytes24(n))
    ensures ReadU24(buf, pos) == Ok((n, pos + 3))
  {
    assert buf[pos] == Bytes24(n)[0] && buf[pos + 1] == Bytes24(n)[1] && buf[pos + 2] == Bytes24(n)[2];
    assert n / 0x1_0000 * 0x1_0000 + n / 0x100 % 0x100 * 0x100 + n % 0x100 == n;
  }

  lemma {:induction false} Read8At(buf: seq<Byte>, pos: nat, n: Byte)
    requires At(buf, pos, [n])
    ensures ReadU8(buf, pos) == Ok((n, pos + 1))
  {
    assert buf[pos] == [n][0];
  }

  lemma {:induction false} ReadListAt(buf: seq<Byte>, pos: nat, items: seq<U16>, acc: seq<U16>)
    requires At(buf, pos, EncodeList(items))
    ensures ReadList(buf, pos, pos + 2 * |items|, acc) == Ok((acc + items, pos + 2 * |items|))
    decreases |items|
  {
    if items == [] {
      assert acc + items == acc;
    } else {
      AtSplit(buf, pos, Bytes16(items[0]), EncodeList(items[1..]));
      Read16At(buf, pos, items[0]);
      ReadListAt(buf, pos + 2, items[1..], acc + [items[0]]);
      assert acc + [items[0]] + items[1..] == acc + items;
    }
  }

  lemma {:induction false} ReadList16At(buf: seq<Byte>, pos: nat, items: seq<U16>, acc: seq<U16>)
    requires ReadU16(buf, pos) == Ok((2 * |items|, pos + 2)) && At(buf, pos + 2, EncodeList(items))
    ensures ReadList16(buf, pos, acc) == Ok((acc + items, pos + 2 + 2 * |items|))
  {
    ReadListAt(buf, pos + 2, items, acc);
  }

  lemma {:induction false} ReadList8At(buf: seq<Byte>, pos: nat, items: seq<U16>, acc: seq<U16>)
    requires ReadU8(buf, pos) == Ok((2 * |items|, pos + 1)) && At(buf, pos + 1, EncodeList(items))
    ensures ReadList8(buf, pos, acc) == Ok((acc + items, pos + 1 + 2 * |items|))
  {
    ReadListAt(buf, pos + 1, items, acc);
  }

  /// The extensions block.

  /** The summary with the codepoints of `es` appended to its lists. */
  function Extend(s: HandshakeSummary, es: seq<Extension>): HandshakeSummary {
    s.(supportedGroups := s.supportedGroups + Codepoints(es, SUPPORTED_GROUPS),
       signatureSchemes := s.signatureSchemes + Codepoints(es, SIGNATURE_ALGORITHMS),
       supportedVersions := s.supportedVersions + Codepoints(es, SUPPORTED_VERSIONS))
  }

  lemma {:induction false} SizedDataAt(buf: seq<Byte>, pos: nat, items: seq<U16>, padding: seq<Byte>, acc: seq<U16>)
    requires 2 * |items| < 0x1_0000
    ensures At(buf, pos, Bytes16(2 * |items|) + EncodeList(items) + padding) ==>
              ReadList16(buf, pos, acc) == Ok((acc + items, pos + 2 + 2 * |items|))
    ensures 2 * |items| < 0x100 && At(buf, pos, [2 * |items|] + EncodeList(items) + padding) ==>
              ReadList8(buf, pos, acc) == Ok((acc + items, pos + 1 + 2 * |items|))
  {
    var len := 2 * |items|;
    if At(buf, pos, Bytes16(len) + EncodeList(items) + padding) {
      AtSplit3(buf, pos, Bytes16(len), EncodeList(items), padding);
      Read16At(buf, pos, len);
      ReadList16At(buf, pos, items, acc);
    }
    if len < 0x100 && At(buf, pos, [len] + EncodeList(items) + padding) {
      AtSplit3(buf, pos, [len], EncodeList(items), padding);
      Read8At(buf, pos, len);
      ReadList8At(buf, pos, items, acc);
    }
  }

  /** One extension extends at most one of the lists. */
  lemma {:induction false} ExtendOne(s: HandshakeSummary, e: Extension)
    requires ExtensionFits(s.msgKind, e)
    ensures Extend(s, [e]) ==
      match e
      case Groups(items, _) => s.(supportedGroups := s.supportedGroups + items)
      case Schemes(items, _) => s.(signatureSchemes := s.signatureSchemes + items)
      case ClientVersions(items, _) => s.(supportedVersions := s.supportedVersions + items)
      case ServerVersion(version, _) => s.(supportedVersions := s.supportedVersions + [version])
      case Other(_, _) => s
  {
    assert [e][1..] == [];
    assert forall t: U16 {:trigger Codepoints([e], t)} :: Codepoints([e], t) == if TypeOf(e) == t then Items(e) else [];
    assert s.supportedGroups + [] == s.supportedGroups;
    assert s.signatureSchemes + [] == s.signatureSchemes;
    assert s.supportedVersions + [] == s.supportedVersions;
  }

  lemma {:induction false} ReadDataAt(buf: seq<Byte>, pos: nat, e: Extension, s: HandshakeSummary)
    requires ExtensionFits(s.msgKind, e) && At(buf, pos, EncodeData(s.msgKind, e))
    ensures ReadExtensionData(buf, TypeOf(e), pos, s) == Ok(Extend(s, [e]))
  {
    ExtendOne(s, e);
    match e
    case Groups(items, padding) =>
      SizedDataAt(buf, pos, items, padding, s.supportedGroups);
    case Schemes(items, padding) =>
      SizedDataAt(buf, pos, items, padding, s.signatureSchemes);
    case ClientVersions(items, padding) =>
      SizedDataAt(buf, pos, items, padding, s.supportedVersions);
    case ServerVersion(version, padding) =>
      AtSplit(buf, pos, Bytes16(version), padding);
      Read16At(buf, pos, version);
    case Other(_, _) =>
  }

  lemma {:induction false} ExtendNone(s: HandshakeSummary)
    ensures Extend(s, []) == s
  {
  }

  lemma {:induction false} CodepointsSplit(acc: seq<U16>, es: seq<Extension>, extType: U16)
    requires es != []
    ensures acc + Codepoints([es[0]], extType) + Codepoints(es[1..], extType) == acc + Codepoints(es, extType)
  {
    assert [es[0]][1..] == [];
    var first := if TypeOf(es[0]) == extType then Items(es[0]) else [];
    assert Codepoints([es[0]], extType) == first + [] == first;
    assert acc + first + Codepoints(es[1..], extType) == acc + (first + Codepoints(es[1..], extType));
  }

  lemma {:induction false} ExtendStep(s: HandshakeSummary, es: seq<Extension>)
    requires es != []
    ensures Extend(Extend(s, [es[0]]), es[1..]) == Extend(s, es)
  {
    CodepointsSplit(s.supportedGroups, es, SUPPORTED_GROUPS);
    CodepointsSplit(s.signatureSchemes, es, SIGNATURE_ALGORITHMS);
    CodepointsSplit(s.supportedVersions, es, SUPPORTED_VERSIONS);
  }

  /** One iteration of the extension loop over an encoded extension. */
  lemma {:induction false} ReadOneAt(buf: seq<Byte>, pos: nat, end: nat, e: Extension, s: HandshakeSummary)
    requires ExtensionFits(s.msgKind, e) && At(buf, pos, EncodeExtension(s.msgKind, e)) && pos < end
    ensures ReadExtensions(buf, pos, end, s)
         == ReadExtensions(buf, pos + |EncodeExtension(s.msgKind, e)|, end, Extend(s, [e]))
  {
    IterationAt(buf, pos, e, s);
    LoopGoesOn(buf, pos, end, s, pos + |EncodeExtension(s.msgKind, e)|, Extend(s, [e]));
  }

  lemma {:induction false} IterationAt(buf: seq<Byte>, pos: nat, e: Extension, s: HandshakeSummary)
    requires ExtensionFits(s.msgKind, e) && At(buf, pos, EncodeExtension(s.msgKind, e))
    ensures Iteration(buf, pos, s) == Ok((Extend(s, [e]), pos + |EncodeExtension(s.msgKind, e)|))
  {
    var data := EncodeData(s.msgKind, e);
    AtSplit3(buf, pos, Bytes16(TypeOf(e)), Bytes16(|data|), data);
    Read16At(buf, pos, TypeOf(e));
    Read16At(buf, pos + 2, |data|);
    ReadDataAt(buf, pos + 4, e, s);
  }

  lemma {:induction false} EncodedSplit(kind: HandshakeKind, es: seq<Extension>)
    requires es != [] && forall e <- es :: ExtensionFits(kind, e)
    ensures forall e <- es[1..] :: ExtensionFits(kind, e)
    ensures EncodeExtensions(kind, es) == EncodeExtension(kind, es[0]) + EncodeExtensions(kind, es[1..])
    ensures |EncodeExtension(kind, es[0])| >= 4
  {
  }

  lemma {:induction false} ReadFirstAt(
    buf: seq<Byte>, pos: nat, end: nat, kind: HandshakeKind, es: seq<Extension>, s: HandshakeSummary)
    returns (next: nat, s': HandshakeSummary)
    requires kind == s.msgKind && es != [] && forall e <- es :: ExtensionFits(kind, e)
    requires At(buf, pos, EncodeExtensions(kind, es)) && end == pos + |EncodeExtensions(kind, es)|
    ensures ReadExtensions(buf, pos, end, s) == ReadExtensions(buf, next, end, s')
    ensures kind == s'.msgKind && forall e <- es[1..] :: ExtensionFits(kind, e)
    ensures At(buf, next, EncodeExtensions(kind, es[1..])) && end == next + |EncodeExtensions(kind, es[1..])|
    ensures Extend(s', es[1..]) == Extend(s, es)
  {
    FirstOfBlockAt(buf, pos, end, kind, es);
    ReadOneAt(buf, pos, end, es[0], s);
    ExtendStep(s, es);
    next, s' := pos + |EncodeExtension(kind, es[0])|, Extend(s, [es[0]]);
  }

  lemma {:induction false} FirstOfBlockAt(buf: seq<Byte>, pos: nat, end: nat, kind: HandshakeKind, es: seq<Extension>)
    requires es != [] && forall e <- es :: ExtensionFits(kind, e)
    requires At(buf, pos, EncodeExtensions(kind, es)) && end == pos + |EncodeExtensions(kind, es)|
    ensures forall e <- es[1..] :: ExtensionFits(kind, e)
    ensures var (first, rest) := (EncodeExtension(kind, es[0]), EncodeExtensions(kind, es[1..]));
      && At(buf, pos, first) && At(buf, pos + |first|, rest) && end == pos + |first| + |rest| && pos < end
  {
    EncodedSplit(kind, es);
    AtSplit(buf, pos, EncodeExtension(kind, es[0]), EncodeExtensions(kind, es[1..]));
  }

  lemma {:induction false} ReadExtensionsAt(
    buf: seq<Byte>, pos: nat, end: nat, kind: HandshakeKind, es: seq<Extension>, s: HandshakeSummary)
    requires kind == s.msgKind && forall e <- es :: ExtensionFits(kind, e)
    requires At(buf, pos, EncodeExtensions(kind, es)) && end == pos + |EncodeExtensions(kind, es)|
    ensures ReadExtensions(buf, pos, end, s) == Ok(Extend(s, es))
    decreases |es|
  {
    if es == [] {
      ExtendNone(s);
    } else {
      var next, s' := ReadFirstAt(buf, pos, end, kind, es, s);
      ReadExtensionsAt(buf, next, end, kind, es[1..], s');
    }
  }

  /// The header.

  lemma {:induction false} ReadPreambleAt(buf: seq<Byte>, h: Hello)
    requires WellFormed(h) && At(buf, 1, Bytes24(|EncodeBody(h)|)) && At(buf, 4, EncodeBody(h))
    ensures ReadPreamble(buf, 1) == Ok((h.version, 39 + |h.sessionId|))
    ensures At(buf, 39 + |h.sessionId|, EncodeSuites(h))
    ensures At(buf, 39 + |h.sessionId| + |EncodeSuites(h)|, EncodeBlock(h))
  {
    BodyAt(buf, h);
    Read24At(buf, 1, |EncodeBody(h)|);
    Read16At(buf, 4, h.version);
    Read8At(buf, 38, |h.sessionId|);
    assert |EncodeBody(h)| <= Remaining(buf, 4);
    assert Skip(buf, 6, 32) == Ok(((), 38));
    assert Skip(buf, 39, |h.sessionId|) == Ok(((), 39 + |h.sessionId|));
  }

  // Where the parts of a body that starts at 4 stand.
  lemma {:induction false} BodyAt(buf: seq<Byte>, h: Hello)
    requires WellFormed(h) && At(buf, 4, EncodeBody(h))
    ensures At(buf, 4, Bytes16(h.version)) && At(buf, 38, [|h.sessionId|]) && 39 + |h.sessionId| <= |buf|
    ensures At(buf, 39 + |h.sessionId|, EncodeSuites(h))
    ensures At(buf, 39 + |h.sessionId| + |EncodeSuites(h)|, EncodeBlock(h))
  {
    var upToSid := Bytes16(h.version) + h.random + [|h.sessionId|];
    AtSplit(buf, 4, upToSid + h.sessionId + EncodeSuites(h), EncodeBlock(h));
    AtSplit(buf, 4, upToSid + h.sessionId, EncodeSuites(h));
    AtSplit(buf, 4, upToSid, h.sessionId);
    AtSplit(buf, 4, Bytes16(h.version) + h.random, [|h.sessionId|]);
    AtSplit(buf, 4, Bytes16(h.version), h.random);
  }

  lemma {:induction false} ReadClientSuitesAt(buf: seq<Byte>, pos: nat, h: Hello)
    requires WellFormed(h) && h.kind.ClientHello? && At(buf, pos, EncodeSuites(h))
    ensures ReadClientSuites(buf, pos) == Ok((h.suites, pos + |EncodeSuites(h)|))
  {
    var n := 2 * |h.suites|;
    AtSplit(buf, pos, Bytes16(n) + EncodeList(h.suites) + [|h.compression|], h.compression);
    AtSplit(buf, pos, Bytes16(n) + EncodeList(h.suites), [|h.compression|]);
    AtSplit(buf, pos, Bytes16(n), EncodeList(h.suites));
    Read16At(buf, pos, n);
    ReadListAt(buf, pos + 2, h.suites, []);
    assert [] + h.suites == h.suites;
    Read8At(buf, pos + 2 + n, |h.compression|);
  }

  lemma {:induction false} ReadServerSuiteAt(buf: seq<Byte>, pos: nat, h: Hello)
    requires WellFormed(h) && h.kind.ServerHello? && At(buf, pos, EncodeSuites(h))
    ensures ReadServerSuite(buf, pos) == Ok((h.suites, pos + |EncodeSuites(h)|))
  {
    AtSplit(buf, pos, EncodeList(h.suites), h.compression);
    AtSplit(buf, pos, Bytes16(h.suites[0]), EncodeList(h.suites[1..]));
    assert h.suites == [h.suites[0]];
    Read16At(buf, pos, h.suites[0]);
  }

  lemma {:induction false} ReadSuitesAt(buf: seq<Byte>, pos: nat, h: Hello)
    requires WellFormed(h) && At(buf, pos, EncodeSuites(h))
    ensures ReadSuites(buf, pos, h.kind) == Ok((h.suites, pos + |EncodeSuites(h)|))
  {
    if h.kind.ClientHello? {
      ReadClientSuitesAt(buf, pos, h);
    } else {
      ReadServerSuiteAt(buf, pos, h);
    }
  }

  lemma {:induction false} ReadKindAt(buf: seq<Byte>, h: Hello)
    requires WellFormed(h) && At(buf, 0, Encode(h))
    ensures ReadKind(buf) == Ok((h.kind, 1))
    ensures At(buf, 1, Bytes24(|EncodeBody(h)|)) && At(buf, 4, EncodeBody(h))
  {
    var kindByte: Byte := if h.kind.ClientHello? then 1 else 2;
    AtSplit(buf, 0, [kindByte] + Bytes24(|EncodeBody(h)|), EncodeBody(h));
    AtSplit(buf, 0, [kindByte], Bytes24(|EncodeBody(h)|));
    Read8At(buf, 0, kindByte);
  }

  lemma {:induction false} EncodedLength(h: Hello)
    requires WellFormed(h)
    ensures |Encode(h)| == 39 + |h.sessionId| + |EncodeSuites(h)| + |EncodeBlock(h)|
  {
  }

  lemma {:induction false} ReadHelloAt(buf: seq<Byte>, h: Hello)
    requires WellFormed(h) && At(buf, 1, Bytes24(|EncodeBody(h)|)) && At(buf, 4, EncodeBody(h))
    ensures var blockAt := 39 + |h.sessionId| + |EncodeSuites(h)|;
      && ReadHello(buf, 1, h.kind) == Ok((HandshakeSummary(h.kind, h.version, h.suites, [], [], []), blockAt))
      && At(buf, blockAt, EncodeBlock(h))
  {
    var suitesAt := 39 + |h.sessionId|;
    ReadPreambleAt(buf, h);
    ReadSuitesAt(buf, suitesAt, h);
    HelloFromParts(buf, 1, h.kind, h.version, suitesAt, h.suites, suitesAt + |EncodeSuites(h)|);
  }

  lemma {:induction false} HelloFromParts(buf: seq<Byte>, pos: nat, kind: HandshakeKind, version: U16, mid: nat,
                                          suites: seq<U16>, next: nat)
    requires ReadPreamble(buf, pos) == Ok((version, mid)) && ReadSuites(buf, mid, kind) == Ok((suites, next))
    ensures ReadHello(buf, pos, kind) == Ok((HandshakeSummary(kind, version, suites, [], [], []), next))
  {
  }

  lemma {:induction false} HeaderFromParts(buf: seq<Byte>, kind: HandshakeKind, s: HandshakeSummary, next: nat)
    requires ReadKind(buf) == Ok((kind, 1)) && ReadHello(buf, 1, kind) == Ok((s, next))
    ensures ReadHeader(buf) == Ok((s, next))
  {
  }

  lemma {:induction false} ReadHeaderAt(buf: seq<Byte>, h: Hello) returns (blockAt: nat)
    requires WellFormed(h) && At(buf, 0, Encode(h))
    ensures ReadHeader(buf) == Ok((HandshakeSummary(h.kind, h.version, h.suites, [], [], []), blockAt))
    ensures blockAt + |EncodeBlock(h)| == |Encode(h)| && At(buf, blockAt, EncodeBlock(h))
  {
    ReadKindAt(buf, h);
    ReadHelloAt(buf, h);
    EncodedLength(h);
    blockAt := 39 + |h.sessionId| + |EncodeSuites(h)|;
    HeaderFromParts(buf, h.kind, HandshakeSummary(h.kind, h.version, h.suites, [], [], []), blockAt);
  }

  lemma {:induction false} ReadBlockAt(buf: seq<Byte>, pos: nat, h: Hello)
    requires WellFormed(h) && At(buf, pos, EncodeBlock(h))
    requires h.extensions.None? ==> |buf| < pos + 2
    ensures ReadBlock(buf, pos, HandshakeSummary(h.kind, h.version, h.suites, [], [], [])) == Ok(Summary(h))
  {
    var s := HandshakeSummary(h.kind, h.version, h.suites, [], [], []);
    if h.extensions.Some? {
      var es := h.extensions.value;
      var block := EncodeExtensions(h.kind, es);
      AtSplit(buf, pos, Bytes16(|block|), block);
      Read16At(buf, pos, |block|);
      ReadExtensionsAt(buf, pos + 2, pos + 2 + |block|, h.kind, es, s);
      ExtendIsSummary(h);
    }
  }

  lemma {:induction false} ExtendIsSummary(h: Hello)
    requires h.extensions.Some?
    ensures Extend(HandshakeSummary(h.kind, h.version, h.suites, [], [], []), h.extensions.value) == Summary(h)
  {
  }

  /** Parsing the encoding of any well-formed hello gives exactly its summary, whatever bytes
      follow it; only a message without an extensions block must end the buffer to within a byte. */
  lemma {:induction false} RoundTrip(h: Hello, tail: seq<Byte>)
    requires WellFormed(h)
    requires h.extensions.None? ==> |tail| < 2
    ensures Parse(Encode(h) + tail) == Ok(Summary(h))
  {
    var buf := Encode(h) + tail;
    assert At(buf, 0, Encode(h));
    var blockAt := ReadHeaderAt(buf, h);
    ReadBlockAt(buf, blockAt, h);
  }

  lemma {:induction false} OthersAddNothing(before: seq<Extension>, e: Extension, after: seq<Extension>, extType: U16)
    requires TypeOf(e) != extType
    ensures Codepoints(before + [e] + after, extType) == Codepoints(before + after, extType)
    decreases |before|
  {
    if before == [] {
      assert before + [e] + after == [e] + after && before + after == after;
      assert ([e] + after)[1..] == after;
    } else {
      OthersAddNothing(before[1..], e, after, extType);
      assert (before + [e] + after)[1..] == before[1..] + [e] + after;
      assert (before + after)[1..] == before[1..] + after;
    }
  }

  /** An extension the parser does not know, put anywhere in the block, does not change the result. */
  lemma {:induction false} UnknownExtensionsIgnored(
    without: Hello, with: Hello, before: seq<Extension>, e: Extension, after: seq<Extension>)
    requires without.extensions == Some(before + after) && WellFormed(without)
    requires with == without.(extensions := Some(before + [e] + after)) && WellFormed(with)
    requires e.Other?
    ensures Parse(Encode(with)) == Parse(Encode(without))
  {
    RoundTripAlone(without);
    RoundTripAlone(with);
    SummaryIgnoresOthers(without, with, before, e, after);
  }

  lemma {:induction false} RoundTripAlone(h: Hello)
    requires WellFormed(h)
    ensures Parse(Encode(h)) == Ok(Summary(h))
  {
    RoundTrip(h, []);
    assert Encode(h) + [] == Encode(h);
  }

  lemma {:induction false} SummaryIgnoresOthers(
    without: Hello, with: Hello, before: seq<Extension>, e: Extension, after: seq<Extension>)
    requires without.extensions == Some(before + after) && with == without.(extensions := Some(before + [e] + after))
    requires WellFormed(with) && e.Other?
    ensures Summary(with) == Summary(without)
  {
    assert e in before + [e] + after;
    OthersAddNothing(before, e, after, SUPPORTED_GROUPS);
    OthersAddNothing(before, e, after, SIGNATURE_ALGORITHMS);
    OthersAddNothing(before, e, after, SUPPORTED_VERSIONS);
  }
}
