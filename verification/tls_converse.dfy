/** When an accepted buffer is a genuine message: the parser compares no length with another except the
    outermost ones with the buffer, and this says exactly what it leaves out. */
module TlsConverse {
  import opened Bytes
  import opened Wrappers
  import opened TlsParser
  import opened TlsRoundTrip
  import opened TlsTail

  function U16At(buf: seq<Byte>, pos: nat): U16
    requires pos + 2 <= |buf|
  {
    Big16(buf[pos], buf[pos + 1])
  }

  /// Lengths that nest.

  /** The list of a known extension is even and lies inside the extension's data. */
  predicate DataNests(kind: HandshakeKind, buf: seq<Byte>, extType: U16, pos: nat, end: nat)
    requires pos <= end <= |buf|
  {
    if extType == SUPPORTED_GROUPS || extType == SIGNATURE_ALGORITHMS then
      pos + 2 <= end && U16At(buf, pos) % 2 == 0 && pos + 2 + U16At(buf, pos) <= end
    else if extType == SUPPORTED_VERSIONS then
      if kind.ClientHello? then pos + 1 <= end && buf[pos] % 2 == 0 && pos + 1 + buf[pos] <= end
      else pos + 2 <= end
    else true
  }

  /** Each extension ends inside the block, and the last one at its end. */
  predicate BlockNests(kind: HandshakeKind, buf: seq<Byte>, pos: nat, end: nat)
    requires end <= |buf|
    decreases end - pos
  {
    pos == end ||
    (pos + 4 <= end &&
     var dataEnd := pos + 4 + U16At(buf, pos + 2);
     && dataEnd <= end
     && DataNests(kind, buf, U16At(buf, pos), pos + 4, dataEnd)
     && BlockNests(kind, buf, dataEnd, end))
  }

  /** The header parses, the 24-bit length covers exactly the header and the block, and the block's own
      lengths nest. */
  predicate LengthsNest(buf: seq<Byte>) {
    ReadHeader(buf).Ok? &&
    (HeaderLayout(buf);
     var (s, pos) := ReadHeader(buf).value;
     var total := Big24(buf[1], buf[2], buf[3]);
     if HasBlock(buf) then
       var end := pos + 2 + U16At(buf, pos);
       end <= |buf| && 4 + total == end && BlockNests(s.msgKind, buf, pos + 2, end)
     else
       4 + total == pos)
  }

  /// Where a header that parses has its parts.

  function SuitesAt(buf: seq<Byte>): nat
    requires |buf| >= 39
  {
    39 + (buf[38] as int)
  }

  lemma {:induction false} PreambleLayout(buf: seq<Byte>)
    requires ReadPreamble(buf, 1).Ok?
    ensures |buf| >= 39 && SuitesAt(buf) <= |buf|
    ensures ReadPreamble(buf, 1).value == (U16At(buf, 4), SuitesAt(buf))
    ensures Big24(buf[1], buf[2], buf[3]) <= |buf| - 4
  {
    assert ReadU24(buf, 1) == Ok((Big24(buf[1], buf[2], buf[3]), 4));
    assert ReadU16(buf, 4) == Ok((U16At(buf, 4), 6));
    assert Skip(buf, 6, 32) == Ok(((), 38));
    assert ReadU8(buf, 38) == Ok((buf[38], 39));
  }

  lemma {:induction false} ListEnd(buf: seq<Byte>, pos: nat, end: nat, acc: seq<U16>)
    requires ReadList(buf, pos, end, acc).Ok? && pos <= end && (end - pos) % 2 == 0 && pos <= |buf|
    ensures ReadList(buf, pos, end, acc).value.1 == end <= |buf|
  {
    ItemsEnd(buf, pos, (end - pos) / 2, acc);
  }

  lemma {:induction false} ItemsEnd(buf: seq<Byte>, pos: nat, n: nat, acc: seq<U16>)
    requires ReadList(buf, pos, pos + 2 * n, acc).Ok? && pos <= |buf|
    ensures ReadList(buf, pos, pos + 2 * n, acc).value.1 == pos + 2 * n <= |buf|
    decreases n
  {
    if n > 0 {
      ListStep(buf, pos, pos + 2 * n, acc);
      ItemsEnd(buf, pos + 2, n - 1, acc + [U16At(buf, pos)]);
    }
  }

  lemma {:induction false} ListStep(buf: seq<Byte>, pos: nat, end: nat, acc: seq<U16>)
    requires pos < end && ReadList(buf, pos, end, acc).Ok?
    ensures pos + 2 <= |buf|
    ensures ReadList(buf, pos, end, acc) == ReadList(buf, pos + 2, end, acc + [U16At(buf, pos)])
  {
    assert ReadU16(buf, pos) == Ok((U16At(buf, pos), pos + 2));
  }

  lemma {:induction false} ClientLayout(buf: seq<Byte>, pos: nat)
    requires ReadClientSuites(buf, pos).Ok?
    ensures pos + 2 <= |buf| && U16At(buf, pos) % 2 == 0
    ensures var compAt := pos + 2 + U16At(buf, pos);
      compAt < |buf| && compAt + 1 + buf[compAt] <= |buf|
      && ReadClientSuites(buf, pos).value.1 == compAt + 1 + buf[compAt]
  {
    var (len, start) := ReadU16(buf, pos).value;
    ListEnd(buf, start, start + len, []);
  }

  lemma {:induction false} ServerLayout(buf: seq<Byte>, pos: nat)
    requires ReadServerSuite(buf, pos).Ok?
    ensures pos + 3 <= |buf| && ReadServerSuite(buf, pos).value.1 == pos + 3
  {
  }

  /** The kind and the end of the header. */
  lemma {:induction false} HeaderLayout(buf: seq<Byte>)
    requires ReadHeader(buf).Ok?
    ensures |buf| >= 39 && SuitesAt(buf) <= |buf| && ReadPreamble(buf, 1).Ok?
    ensures var (s, pos) := ReadHeader(buf).value;
      && pos <= |buf| && buf[0] == (if s.msgKind.ClientHello? then 1 else 2)
      && (s.msgKind.ClientHello? ==> ReadClientSuites(buf, SuitesAt(buf)).Ok? && pos == ReadClientSuites(buf, SuitesAt(buf)).value.1)
      && (s.msgKind.ServerHello? ==> ReadServerSuite(buf, SuitesAt(buf)).Ok? && pos == ReadServerSuite(buf, SuitesAt(buf)).value.1)
  {
    PreambleLayout(buf);
    var kind := ReadKind(buf).value.0;
    if kind.ClientHello? {
      ClientLayout(buf, SuitesAt(buf));
    } else {
      ServerLayout(buf, SuitesAt(buf));
    }
  }

  /// Bytes that stand in a buffer, put together.

  lemma {:induction false} AtJoin(buf: seq<Byte>, pos: nat, a: seq<Byte>, b: seq<Byte>)
    requires At(buf, pos, a) && At(buf, pos + |a|, b)
    ensures At(buf, pos, a + b)
  {
    forall i | 0 <= i < |a + b|
      ensures buf[pos + i] == (a + b)[i]
    {
      if i >= |a| {
        assert buf[pos + |a| + (i - |a|)] == b[i - |a|];
      }
    }
  }

  lemma {:induction false} At8(buf: seq<Byte>, pos: nat)
    requires pos < |buf|
    ensures At(buf, pos, [buf[pos]])
  {
  }

  lemma {:induction false} At16(buf: seq<Byte>, pos: nat)
    requires pos + 2 <= |buf|
    ensures At(buf, pos, Bytes16(U16At(buf, pos))) && |Bytes16(U16At(buf, pos))| == 2
  {
    BytesOfBig16(buf[pos], buf[pos + 1]);
  }

  lemma {:induction false} BytesOfBig16(hi: Byte, lo: Byte)
    ensures Bytes16(Big16(hi, lo)) == [hi, lo]
  {
  }

  lemma {:induction false} BytesOfBig24(hi: Byte, mid: Byte, lo: Byte)
    ensures Bytes24(Big24(hi, mid, lo)) == [hi, mid, lo]
  {
    var n := Big24(hi, mid, lo);
    assert n / 0x100 == (hi as int) * 0x100 + mid as int;
    assert n / 0x1_0000 == hi as int;
  }

  lemma {:induction false} AtSlice(buf: seq<Byte>, pos: nat, end: nat)
    requires pos <= end <= |buf|
    ensures At(buf, pos, buf[pos..end])
  {
  }

  function ItemsAt(buf: seq<Byte>, pos: nat, n: nat): (items: seq<U16>)
    requires pos + 2 * n <= |buf|
    ensures |items| == n
    decreases n
  {
    if n == 0 then [] else [U16At(buf, pos)] + ItemsAt(buf, pos + 2, n - 1)
  }

  lemma {:induction false} ItemsStand(buf: seq<Byte>, pos: nat, n: nat)
    requires pos + 2 * n <= |buf|
    ensures At(buf, pos, EncodeList(ItemsAt(buf, pos, n)))
    decreases n
  {
    if n > 0 {
      var items := ItemsAt(buf, pos, n);
      ItemsStand(buf, pos + 2, n - 1);
      At16(buf, pos);
      assert items[1..] == ItemsAt(buf, pos + 2, n - 1);
      AtJoin(buf, pos, Bytes16(items[0]), EncodeList(items[1..]));
    }
  }

  /// The block, decoded.

  function ExtensionAt(kind: HandshakeKind, buf: seq<Byte>, extType: U16, pos: nat, end: nat): Extension
    requires pos <= end <= |buf| && DataNests(kind, buf, extType, pos, end)
  {
    if extType == SUPPORTED_GROUPS then
      var n := U16At(buf, pos);
      Groups(ItemsAt(buf, pos + 2, n / 2), buf[pos + 2 + n..end])
    else if extType == SIGNATURE_ALGORITHMS then
      var n := U16At(buf, pos);
      Schemes(ItemsAt(buf, pos + 2, n / 2), buf[pos + 2 + n..end])
    else if extType == SUPPORTED_VERSIONS then
      if kind.ClientHello? then
        var n := buf[pos];
        ClientVersions(ItemsAt(buf, pos + 1, n / 2), buf[pos + 1 + n..end])
      else ServerVersion(U16At(buf, pos), buf[pos + 2..end])
    else Other(extType, buf[pos..end])
  }

  lemma {:induction false} ListStands(buf: seq<Byte>, pos: nat, head: seq<Byte>, n: nat, end: nat)
    requires At(buf, pos, head) && n % 2 == 0 && pos + |head| + n <= end <= |buf|
    ensures var start := pos + |head|;
      var bytes := head + EncodeList(ItemsAt(buf, start, n / 2)) + buf[start + n..end];
      At(buf, pos, bytes) && |bytes| == end - pos
  {
    var start := pos + |head|;
    ItemsStand(buf, start, n / 2);
    var list := EncodeList(ItemsAt(buf, start, n / 2));
    AtJoin(buf, pos, head, list);
    AtSlice(buf, start + n, end);
    AtJoin(buf, pos, head + list, buf[start + n..end]);
  }

  // The extension is well-formed and its data are the bytes from `pos` to `end`.
  ghost predicate Stands(kind: HandshakeKind, buf: seq<Byte>, pos: nat, end: nat, extType: U16, e: Extension) {
    && ExtensionFits(kind, e) && TypeOf(e) == extType
    && At(buf, pos, EncodeData(kind, e)) && pos + |EncodeData(kind, e)| == end
  }

  lemma {:induction false} ListExtensionStands(kind: HandshakeKind, buf: seq<Byte>, pos: nat, end: nat)
    requires pos + 2 <= end <= |buf| && end - pos < 0x1_0000
    requires U16At(buf, pos) % 2 == 0 && pos + 2 + U16At(buf, pos) <= end
    ensures var (n, at) := (U16At(buf, pos), pos + 2);
      var (items, padding) := (ItemsAt(buf, at, n / 2), buf[at + n..end]);
      && Stands(kind, buf, pos, end, SUPPORTED_GROUPS, Groups(items, padding))
      && Stands(kind, buf, pos, end, SIGNATURE_ALGORITHMS, Schemes(items, padding))
  {
    At16(buf, pos);
    ListStands(buf, pos, Bytes16(U16At(buf, pos)), U16At(buf, pos), end);
  }

  lemma {:induction false} ClientVersionsStand(buf: seq<Byte>, pos: nat, end: nat)
    requires pos + 1 <= end <= |buf| && end - pos < 0x1_0000
    requires buf[pos] % 2 == 0 && pos + 1 + buf[pos] <= end
    ensures var (n, at) := (buf[pos] as int, pos + 1);
      Stands(ClientHello, buf, pos, end, SUPPORTED_VERSIONS,
             ClientVersions(ItemsAt(buf, at, n / 2), buf[at + n..end]))
  {
    At8(buf, pos);
    ListStands(buf, pos, [buf[pos]], buf[pos], end);
  }

  lemma {:induction false} ServerVersionStands(buf: seq<Byte>, pos: nat, end: nat)
    requires pos + 2 <= end <= |buf| && end - pos < 0x1_0000
    ensures Stands(ServerHello, buf, pos, end, SUPPORTED_VERSIONS, ServerVersion(U16At(buf, pos), buf[pos + 2..end]))
  {
    At16(buf, pos);
    AtSlice(buf, pos + 2, end);
    AtJoin(buf, pos, Bytes16(U16At(buf, pos)), buf[pos + 2..end]);
  }

  lemma {:induction false} ExtensionStands(kind: HandshakeKind, buf: seq<Byte>, extType: U16, pos: nat, end: nat)
    requires pos <= end <= |buf| && end - pos < 0x1_0000 && DataNests(kind, buf, extType, pos, end)
    ensures Stands(kind, buf, pos, end, extType, ExtensionAt(kind, buf, extType, pos, end))
  {
    if extType == SUPPORTED_GROUPS || extType == SIGNATURE_ALGORITHMS {
      ListExtensionStands(kind, buf, pos, end);
    } else if extType == SUPPORTED_VERSIONS {
      if kind.ClientHello? {
        ClientVersionsStand(buf, pos, end);
      } else {
        ServerVersionStands(buf, pos, end);
      }
    } else {
      OtherStands(kind, buf, extType, pos, end);
    }
  }

  lemma {:induction false} OtherStands(kind: HandshakeKind, buf: seq<Byte>, extType: U16, pos: nat, end: nat)
    requires pos <= end <= |buf| && end - pos < 0x1_0000
    requires extType != SUPPORTED_GROUPS && extType != SIGNATURE_ALGORITHMS && extType != SUPPORTED_VERSIONS
    ensures Stands(kind, buf, pos, end, extType, Other(extType, buf[pos..end]))
  {
    AtSlice(buf, pos, end);
  }

  function BlockAt(kind: HandshakeKind, buf: seq<Byte>, pos: nat, end: nat): seq<Extension>
    requires end <= |buf| && BlockNests(kind, buf, pos, end)
    decreases end - pos
  {
    if pos == end then [] else
      var dataEnd := pos + 4 + U16At(buf, pos + 2);
      [ExtensionAt(kind, buf, U16At(buf, pos), pos + 4, dataEnd)] + BlockAt(kind, buf, dataEnd, end)
  }

  /** One encoded extension, from its type, its length and its data. */
  lemma {:induction false} HeaderOfExtension(kind: HandshakeKind, buf: seq<Byte>, pos: nat, e: Extension)
    requires pos + 4 <= |buf| && ExtensionFits(kind, e) && TypeOf(e) == U16At(buf, pos)
    requires At(buf, pos + 4, EncodeData(kind, e)) && |EncodeData(kind, e)| == U16At(buf, pos + 2)
    ensures At(buf, pos, EncodeExtension(kind, e)) && |EncodeExtension(kind, e)| == 4 + U16At(buf, pos + 2)
  {
    At16(buf, pos);
    At16(buf, pos + 2);
    AtJoin(buf, pos, Bytes16(TypeOf(e)), Bytes16(|EncodeData(kind, e)|));
    AtJoin(buf, pos, Bytes16(TypeOf(e)) + Bytes16(|EncodeData(kind, e)|), EncodeData(kind, e));
  }

  lemma {:induction false} FirstStands(kind: HandshakeKind, buf: seq<Byte>, pos: nat, dataEnd: nat)
    requires pos + 4 <= dataEnd <= |buf| && dataEnd == pos + 4 + U16At(buf, pos + 2)
    requires DataNests(kind, buf, U16At(buf, pos), pos + 4, dataEnd)
    ensures var e := ExtensionAt(kind, buf, U16At(buf, pos), pos + 4, dataEnd);
      && ExtensionFits(kind, e)
      && At(buf, pos, EncodeExtension(kind, e)) && pos + |EncodeExtension(kind, e)| == dataEnd
  {
    ExtensionStands(kind, buf, U16At(buf, pos), pos + 4, dataEnd);
    HeaderOfExtension(kind, buf, pos, ExtensionAt(kind, buf, U16At(buf, pos), pos + 4, dataEnd));
  }

  // The extensions fit and their encoding is the bytes from `pos` to `end`.
  ghost predicate AllStand(kind: HandshakeKind, buf: seq<Byte>, pos: nat, end: nat, es: seq<Extension>) {
    && (forall e <- es :: ExtensionFits(kind, e))
    && At(buf, pos, EncodeExtensions(kind, es)) && pos + |EncodeExtensions(kind, es)| == end
  }

  lemma {:induction false} OneInFront(kind: HandshakeKind, buf: seq<Byte>, pos: nat, mid: nat, end: nat,
                                      e: Extension, rest: seq<Extension>)
    requires ExtensionFits(kind, e) && AllStand(kind, buf, mid, end, rest)
    requires At(buf, pos, EncodeExtension(kind, e)) && pos + |EncodeExtension(kind, e)| == mid
    ensures AllStand(kind, buf, pos, end, [e] + rest)
  {
    var es := [e] + rest;
    assert es[1..] == rest;
    assert forall x <- es :: x == e || x in rest;
    AtJoin(buf, pos, EncodeExtension(kind, e), EncodeExtensions(kind, rest));
  }

  lemma {:induction false} BlockFirst(kind: HandshakeKind, buf: seq<Byte>, pos: nat, end: nat)
    returns (mid: nat, e: Extension)
    requires end <= |buf| && BlockNests(kind, buf, pos, end) && pos != end
    ensures pos < mid <= end && BlockNests(kind, buf, mid, end)
    ensures BlockAt(kind, buf, pos, end) == [e] + BlockAt(kind, buf, mid, end)
    ensures ExtensionFits(kind, e)
    ensures At(buf, pos, EncodeExtension(kind, e)) && pos + |EncodeExtension(kind, e)| == mid
  {
    mid := pos + 4 + U16At(buf, pos + 2);
    e := ExtensionAt(kind, buf, U16At(buf, pos), pos + 4, mid);
    FirstStands(kind, buf, pos, mid);
  }

  lemma {:induction false} BlockStands(kind: HandshakeKind, buf: seq<Byte>, pos: nat, end: nat)
    requires end <= |buf| && BlockNests(kind, buf, pos, end)
    ensures AllStand(kind, buf, pos, end, BlockAt(kind, buf, pos, end))
    decreases end - pos
  {
    if pos != end {
      var mid, e := BlockFirst(kind, buf, pos, end);
      BlockStands(kind, buf, mid, end);
      OneInFront(kind, buf, pos, mid, end, e, BlockAt(kind, buf, mid, end));
    }
  }

  /// The message, decoded.

  /** The hello whose parts before the block stand in the buffer, the block starting at `pos`. */
  predicate HeaderOf(buf: seq<Byte>, h: Hello, pos: nat) {
    && |buf| >= 39 && SuitesAt(buf) <= |buf| && buf[0] == (if h.kind.ClientHello? then 1 else 2)
    && h.version == U16At(buf, 4) && h.random == buf[6..38] && h.sessionId == buf[39..SuitesAt(buf)]
    && (if h.kind.ClientHello? then ClientPart(buf, SuitesAt(buf), h, pos) else ServerPart(buf, SuitesAt(buf), h, pos))
  }

  predicate ClientPart(buf: seq<Byte>, at: nat, h: Hello, pos: nat) {
    && at + 2 <= |buf| && U16At(buf, at) % 2 == 0
    && var n := U16At(buf, at);
    && at + 3 + n <= pos <= |buf| && pos == at + 3 + n + buf[at + 2 + n]
    && h.suites == ItemsAt(buf, at + 2, n / 2) && h.compression == buf[at + 3 + n..pos]
  }

  predicate ServerPart(buf: seq<Byte>, at: nat, h: Hello, pos: nat) {
    && at + 3 == pos <= |buf|
    && h.suites == [U16At(buf, at)] && h.compression == buf[at + 2..pos]
  }

  function HelloAt(buf: seq<Byte>, extensions: Option<seq<Extension>>): Hello
    requires ReadHeader(buf).Ok?
  {
    HeaderLayout(buf);
    var (s, pos) := ReadHeader(buf).value;
    var at := SuitesAt(buf);
    if s.msgKind.ClientHello? then
      ClientLayout(buf, at);
      var n := U16At(buf, at);
      Hello(s.msgKind, U16At(buf, 4), buf[6..38], buf[39..at], ItemsAt(buf, at + 2, n / 2),
            buf[at + 3 + n..pos], extensions)
    else
      ServerLayout(buf, at);
      Hello(s.msgKind, U16At(buf, 4), buf[6..38], buf[39..at], [U16At(buf, at)], buf[at + 2..pos], extensions)
  }

  lemma {:induction false} HelloHasHeader(buf: seq<Byte>, extensions: Option<seq<Extension>>)
    requires ReadHeader(buf).Ok?
    ensures var (s, pos) := ReadHeader(buf).value;
      var h := HelloAt(buf, extensions);
      HeaderOf(buf, h, pos) && h.kind == s.msgKind && h.extensions == extensions
  {
    HeaderLayout(buf);
    if ReadHeader(buf).value.0.msgKind.ClientHello? {
      ClientLayout(buf, SuitesAt(buf));
    } else {
      ServerLayout(buf, SuitesAt(buf));
    }
  }

  lemma {:induction false} ClientSuitesStand(buf: seq<Byte>, at: nat, h: Hello, pos: nat)
    requires h.kind.ClientHello? && ClientPart(buf, at, h, pos)
    ensures 2 * |h.suites| < 0x1_0000 && |h.compression| < 0x100
    ensures At(buf, at, EncodeSuites(h)) && at + |EncodeSuites(h)| == pos
  {
    var n := U16At(buf, at);
    ItemsStand(buf, at + 2, n / 2);
    At16(buf, at);
    AtJoin(buf, at, Bytes16(n), EncodeList(h.suites));
    At8(buf, at + 2 + n);
    AtJoin(buf, at, Bytes16(n) + EncodeList(h.suites), [buf[at + 2 + n]]);
    AtSlice(buf, at + 3 + n, pos);
    AtJoin(buf, at, Bytes16(n) + EncodeList(h.suites) + [buf[at + 2 + n]], h.compression);
  }

  lemma {:induction false} ServerSuiteStands(buf: seq<Byte>, at: nat, h: Hello, pos: nat)
    requires h.kind.ServerHello? && ServerPart(buf, at, h, pos)
    ensures |h.suites| == 1 && |h.compression| == 1
    ensures At(buf, at, EncodeSuites(h)) && at + |EncodeSuites(h)| == pos
  {
    ItemsStand(buf, at, 1);
    assert ItemsAt(buf, at, 1) == h.suites + ItemsAt(buf, at + 2, 0) == h.suites;
    AtSlice(buf, at + 2, pos);
    AtJoin(buf, at, EncodeList(h.suites), h.compression);
  }

  /** Everything in front of the suites. */
  lemma {:induction false} FrontStands(buf: seq<Byte>, h: Hello)
    requires |buf| >= 39 && SuitesAt(buf) <= |buf|
    requires h.version == U16At(buf, 4) && h.random == buf[6..38] && h.sessionId == buf[39..SuitesAt(buf)]
    ensures |h.random| == 32 && |h.sessionId| < 0x100
    ensures At(buf, 4, Bytes16(h.version) + h.random + [|h.sessionId|] + h.sessionId)
    ensures 4 + |Bytes16(h.version) + h.random + [|h.sessionId|] + h.sessionId| == SuitesAt(buf)
  {
    At16(buf, 4);
    AtSlice(buf, 6, 38);
    AtJoin(buf, 4, Bytes16(h.version), h.random);
    At8(buf, 38);
    AtJoin(buf, 4, Bytes16(h.version) + h.random, [|h.sessionId|]);
    AtSlice(buf, 39, SuitesAt(buf));
    AtJoin(buf, 4, Bytes16(h.version) + h.random + [|h.sessionId|], h.sessionId);
  }

  /** The extensions that stand from `pos` to the end of the message. */
  ghost predicate BlockOf(buf: seq<Byte>, h: Hello, pos: nat, end: nat) {
    if h.extensions.None? then pos == end
    else
      && pos + 2 <= |buf| && (forall e <- h.extensions.value :: ExtensionFits(h.kind, e))
      && |EncodeExtensions(h.kind, h.extensions.value)| == U16At(buf, pos)
      && At(buf, pos + 2, EncodeExtensions(h.kind, h.extensions.value))
      && end == pos + 2 + U16At(buf, pos)
  }

  lemma {:induction false} PartsAreWellFormed(buf: seq<Byte>, h: Hello, pos: nat, end: nat)
    requires HeaderOf(buf, h, pos) && BlockOf(buf, h, pos, end)
    ensures WellFormed(h)
    ensures At(buf, SuitesAt(buf), EncodeSuites(h)) && SuitesAt(buf) + |EncodeSuites(h)| == pos
  {
    FrontStands(buf, h);
    if h.kind.ClientHello? {
      ClientSuitesStand(buf, SuitesAt(buf), h, pos);
    } else {
      ServerSuiteStands(buf, SuitesAt(buf), h, pos);
    }
  }

  lemma {:induction false} EncodedBlockStands(buf: seq<Byte>, h: Hello, pos: nat, end: nat)
    requires WellFormed(h) && pos <= |buf| && BlockOf(buf, h, pos, end)
    ensures At(buf, pos, EncodeBlock(h)) && pos + |EncodeBlock(h)| == end
  {
    if h.extensions.Some? {
      var block := EncodeExtensions(h.kind, h.extensions.value);
      At16(buf, pos);
      AtJoin(buf, pos, Bytes16(|block|), block);
    }
  }

  lemma {:induction false} AtJoin3(buf: seq<Byte>, pos: nat, a: seq<Byte>, b: seq<Byte>, c: seq<Byte>)
    requires At(buf, pos, a) && At(buf, pos + |a|, b) && At(buf, pos + |a| + |b|, c)
    ensures At(buf, pos, a + b + c)
  {
    AtJoin(buf, pos, a, b);
    AtJoin(buf, pos, a + b, c);
  }

  lemma {:induction false} BodyStands(buf: seq<Byte>, h: Hello, pos: nat, end: nat)
    requires WellFormed(h) && pos <= |buf| && HeaderOf(buf, h, pos) && BlockOf(buf, h, pos, end)
    requires At(buf, SuitesAt(buf), EncodeSuites(h)) && SuitesAt(buf) + |EncodeSuites(h)| == pos
    ensures At(buf, 4, EncodeBody(h)) && 4 + |EncodeBody(h)| == end
  {
    FrontStands(buf, h);
    EncodedBlockStands(buf, h, pos, end);
    AtJoin3(buf, 4, Bytes16(h.version) + h.random + [|h.sessionId|] + h.sessionId, EncodeSuites(h), EncodeBlock(h));
  }

  lemma {:induction false} MessageStands(buf: seq<Byte>, h: Hello, end: nat)
    requires WellFormed(h) && |buf| >= 4 && buf[0] == (if h.kind.ClientHello? then 1 else 2)
    requires At(buf, 4, EncodeBody(h)) && 4 + |EncodeBody(h)| == end == 4 + Big24(buf[1], buf[2], buf[3])
    ensures At(buf, 0, Encode(h)) && |Encode(h)| == end
  {
    BytesOfBig24(buf[1], buf[2], buf[3]);
    AtSlice(buf, 1, 4);
    At8(buf, 0);
    var length := Bytes24(|EncodeBody(h)|);
    assert buf[1..4] == length;
    AtJoin3(buf, 0, [buf[0]], length, EncodeBody(h));
  }

  /** `buf` is the encoding of a well-formed message, with at most a byte after one without a block. */
  ghost predicate Genuine(buf: seq<Byte>) {
    exists h, tail :: Encodes(h, tail, buf)
  }

  ghost predicate Encodes(h: Hello, tail: seq<Byte>, buf: seq<Byte>) {
    WellFormed(h) && buf == Encode(h) + tail && (h.extensions.None? ==> |tail| < 2)
  }

  lemma {:induction false} PartsAreGenuine(buf: seq<Byte>, h: Hello, pos: nat, end: nat)
    requires pos <= |buf| && HeaderOf(buf, h, pos) && BlockOf(buf, h, pos, end)
    requires end == 4 + Big24(buf[1], buf[2], buf[3]) && (h.extensions.None? ==> |buf| - end < 2)
    ensures Genuine(buf)
  {
    PartsAreWellFormed(buf, h, pos, end);
    BodyStands(buf, h, pos, end);
    MessageStands(buf, h, end);
    EncodingIsGenuine(buf, h, end);
  }

  lemma {:induction false} EncodingIsGenuine(buf: seq<Byte>, h: Hello, end: nat)
    requires WellFormed(h) && At(buf, 0, Encode(h)) && |Encode(h)| == end
    requires h.extensions.None? ==> |buf| - end < 2
    ensures Genuine(buf)
  {
    AtFront(buf, Encode(h));
    assert Encodes(h, buf[end..], buf);
  }

  lemma {:induction false} AtFront(buf: seq<Byte>, front: seq<Byte>)
    requires At(buf, 0, front)
    ensures buf == front + buf[|front|..]
  {
    assert buf[..|front|] == front;
  }

  lemma {:induction false} NestedIsGenuine(buf: seq<Byte>)
    requires LengthsNest(buf)
    ensures Genuine(buf)
  {
    HeaderLayout(buf);
    var (s, pos) := ReadHeader(buf).value;
    if HasBlock(buf) {
      NestedBlockIsGenuine(buf, pos + 2 + U16At(buf, pos));
    } else {
      HelloHasHeader(buf, None);
      PartsAreGenuine(buf, HelloAt(buf, None), pos, pos);
    }
  }

  lemma {:induction false} NestedBlockIsGenuine(buf: seq<Byte>, end: nat)
    requires ReadHeader(buf).Ok? && |buf| >= 4 && end <= |buf| && end == 4 + Big24(buf[1], buf[2], buf[3])
    requires var (s, pos) := ReadHeader(buf).value;
      pos + 2 <= |buf| && end == pos + 2 + U16At(buf, pos) && BlockNests(s.msgKind, buf, pos + 2, end)
    ensures Genuine(buf)
  {
    var (s, pos) := ReadHeader(buf).value;
    BlockStands(s.msgKind, buf, pos + 2, end);
    var extensions := Some(BlockAt(s.msgKind, buf, pos + 2, end));
    HelloHasHeader(buf, extensions);
    PartsAreGenuine(buf, HelloAt(buf, extensions), pos, end);
  }

  /// Genuine messages nest.

  lemma {:induction false} Read16Back(buf: seq<Byte>, pos: nat, n: U16)
    requires At(buf, pos, Bytes16(n))
    ensures pos + 2 <= |buf| && U16At(buf, pos) == n
  {
    Read16At(buf, pos, n);
  }

  lemma {:induction false} EncodedDataNests(kind: HandshakeKind, buf: seq<Byte>, pos: nat, e: Extension)
    requires ExtensionFits(kind, e) && At(buf, pos, EncodeData(kind, e))
    ensures pos + |EncodeData(kind, e)| <= |buf|
    ensures DataNests(kind, buf, TypeOf(e), pos, pos + |EncodeData(kind, e)|)
  {
    match e
    case Groups(items, padding) =>
      AtSplit3(buf, pos, Bytes16(2 * |items|), EncodeList(items), padding);
      Read16Back(buf, pos, 2 * |items|);
    case Schemes(items, padding) =>
      AtSplit3(buf, pos, Bytes16(2 * |items|), EncodeList(items), padding);
      Read16Back(buf, pos, 2 * |items|);
    case ClientVersions(items, padding) =>
      AtSplit3(buf, pos, [2 * |items|], EncodeList(items), padding);
      Read8At(buf, pos, 2 * |items|);
    case ServerVersion(version, padding) =>
    case Other(_, _) =>
  }

  lemma {:induction false} EncodedBlockNests(kind: HandshakeKind, buf: seq<Byte>, pos: nat, es: seq<Extension>)
    requires forall e <- es :: ExtensionFits(kind, e)
    requires At(buf, pos, EncodeExtensions(kind, es))
    ensures pos + |EncodeExtensions(kind, es)| <= |buf|
    ensures BlockNests(kind, buf, pos, pos + |EncodeExtensions(kind, es)|)
    decreases |es|
  {
    if es != [] {
      EncodedSplit(kind, es);
      AtSplit(buf, pos, EncodeExtension(kind, es[0]), EncodeExtensions(kind, es[1..]));
      EncodedExtensionNests(kind, buf, pos, es[0]);
      EncodedBlockNests(kind, buf, pos + |EncodeExtension(kind, es[0])|, es[1..]);
    }
  }

  lemma {:induction false} EncodedExtensionNests(kind: HandshakeKind, buf: seq<Byte>, pos: nat, e: Extension)
    requires ExtensionFits(kind, e) && At(buf, pos, EncodeExtension(kind, e))
    ensures var dataEnd := pos + |EncodeExtension(kind, e)|;
      && pos + 4 <= dataEnd <= |buf| && dataEnd == pos + 4 + U16At(buf, pos + 2)
      && DataNests(kind, buf, U16At(buf, pos), pos + 4, dataEnd)
  {
    var data := EncodeData(kind, e);
    AtSplit3(buf, pos, Bytes16(TypeOf(e)), Bytes16(|data|), data);
    Read16Back(buf, pos, TypeOf(e));
    Read16Back(buf, pos + 2, |data|);
    EncodedDataNests(kind, buf, pos + 4, e);
  }

  lemma {:induction false} TotalOf(buf: seq<Byte>, h: Hello)
    requires WellFormed(h) && At(buf, 0, Encode(h))
    ensures |buf| >= 4 && 4 + Big24(buf[1], buf[2], buf[3]) == |Encode(h)|
  {
    var kindByte: Byte := if h.kind.ClientHello? then 1 else 2;
    AtSplit(buf, 0, [kindByte] + Bytes24(|EncodeBody(h)|), EncodeBody(h));
    AtSplit(buf, 0, [kindByte], Bytes24(|EncodeBody(h)|));
    Read24At(buf, 1, |EncodeBody(h)|);
  }

  lemma {:induction false} GenuineHeader(buf: seq<Byte>, h: Hello, tail: seq<Byte>) returns (blockAt: nat)
    requires Encodes(h, tail, buf)
    ensures ReadHeader(buf) == Ok((HandshakeSummary(h.kind, h.version, h.suites, [], [], []), blockAt))
    ensures |buf| >= 4 && 4 + Big24(buf[1], buf[2], buf[3]) == blockAt + |EncodeBlock(h)|
    ensures At(buf, blockAt, EncodeBlock(h)) && |buf| == blockAt + |EncodeBlock(h)| + |tail|
  {
    assert At(buf, 0, Encode(h));
    blockAt := ReadHeaderAt(buf, h);
    TotalOf(buf, h);
  }

  lemma {:induction false} NestsWithBlock(buf: seq<Byte>, s: HandshakeSummary, pos: nat, end: nat)
    requires ReadHeader(buf) == Ok((s, pos))
    requires pos + 2 <= end <= |buf| && end == pos + 2 + U16At(buf, pos) == 4 + Big24(buf[1], buf[2], buf[3])
    requires BlockNests(s.msgKind, buf, pos + 2, end)
    ensures LengthsNest(buf)
  {
    HeaderLayout(buf);
  }

  lemma {:induction false} NestsWithoutBlock(buf: seq<Byte>, s: HandshakeSummary, pos: nat)
    requires ReadHeader(buf) == Ok((s, pos))
    requires 4 <= |buf| < pos + 2 && pos == 4 + Big24(buf[1], buf[2], buf[3])
    ensures LengthsNest(buf)
  {
    HeaderLayout(buf);
  }

  lemma {:induction false} GenuineNests(buf: seq<Byte>, h: Hello, tail: seq<Byte>)
    requires Encodes(h, tail, buf)
    ensures LengthsNest(buf)
  {
    var blockAt := GenuineHeader(buf, h, tail);
    var s := HandshakeSummary(h.kind, h.version, h.suites, [], [], []);
    if h.extensions.Some? {
      GenuineBlockNests(buf, h, s, blockAt);
    } else {
      assert EncodeBlock(h) == [];
      NestsWithoutBlock(buf, s, blockAt);
    }
  }

  lemma {:induction false} GenuineBlockNests(buf: seq<Byte>, h: Hello, s: HandshakeSummary, blockAt: nat)
    requires WellFormed(h) && h.extensions.Some? && s.msgKind == h.kind
    requires ReadHeader(buf) == Ok((s, blockAt)) && At(buf, blockAt, EncodeBlock(h))
    requires |buf| >= 4 && 4 + Big24(buf[1], buf[2], buf[3]) == blockAt + |EncodeBlock(h)|
    ensures LengthsNest(buf)
  {
    EncodedMessageNests(buf, h, blockAt);
    NestsWithBlock(buf, s, blockAt, blockAt + |EncodeBlock(h)|);
  }

  lemma {:induction false} EncodedMessageNests(buf: seq<Byte>, h: Hello, blockAt: nat)
    requires WellFormed(h) && h.extensions.Some? && At(buf, blockAt, EncodeBlock(h))
    ensures blockAt + 2 <= |buf| && blockAt + 2 + U16At(buf, blockAt) == blockAt + |EncodeBlock(h)| <= |buf|
    ensures BlockNests(h.kind, buf, blockAt + 2, blockAt + |EncodeBlock(h)|)
  {
    var block := EncodeExtensions(h.kind, h.extensions.value);
    AtSplit(buf, blockAt, Bytes16(|block|), block);
    Read16Back(buf, blockAt, |block|);
    EncodedBlockNests(h.kind, buf, blockAt + 2, h.extensions.value);
  }

  /** The converse of the round trip, exactly: a buffer is the encoding of a well-formed message, and what
      follows it, if and only if its lengths nest; and the parser accepts it then. */
  lemma {:induction false} GenuineIffLengthsNest(buf: seq<Byte>)
    ensures Genuine(buf) <==> LengthsNest(buf)
    ensures Genuine(buf) ==> Parse(buf).Ok?
  {
    if LengthsNest(buf) {
      NestedIsGenuine(buf);
    }
    if Genuine(buf) {
      var h, tail :| Encodes(h, tail, buf);
      GenuineNests(buf, h, tail);
      RoundTrip(h, tail);
    }
  }

  // A block of four bytes whose one extension, of a type the parser does not know, claims some more.
  predicate Overruns(buf: seq<Byte>, pos: nat) {
    && pos + 6 <= |buf| && U16At(buf, pos) == 4 && U16At(buf, pos + 4) > 0
    && U16At(buf, pos + 2) !in {SUPPORTED_GROUPS, SIGNATURE_ALGORITHMS, SUPPORTED_VERSIONS}
  }

  lemma {:induction false} OverrunIsAccepted(buf: seq<Byte>, s: HandshakeSummary, pos: nat)
    requires Overruns(buf, pos)
    ensures ReadBlock(buf, pos, s) == Ok(s)
  {
    var next := pos + 6 + U16At(buf, pos + 4);
    assert ReadU16(buf, pos) == Ok((4, pos + 2));
    assert ReadU16(buf, pos + 2) == Ok((U16At(buf, pos + 2), pos + 4));
    assert ReadU16(buf, pos + 4) == Ok((U16At(buf, pos + 4), pos + 6));
    LoopGoesOn(buf, pos + 2, pos + 6, s, next, s);
  }

  lemma {:induction false} OverrunDoesNotNest(buf: seq<Byte>, s: HandshakeSummary, pos: nat)
    requires ReadHeader(buf) == Ok((s, pos)) && Overruns(buf, pos)
    ensures !LengthsNest(buf)
  {
  }

  /** Some accepted byte strings are no messages: any message without a block, followed by a block whose
      extension claims more bytes than the block has, gives the summary of that message. */
  lemma {:induction false} OverlongIsNotGenuine(h: Hello, extType: U16, len: U16)
    requires WellFormed(h) && h.extensions.None? && len > 0
    requires extType !in {SUPPORTED_GROUPS, SIGNATURE_ALGORITHMS, SUPPORTED_VERSIONS}
    ensures var buf := Encode(h) + (Bytes16(4) + Bytes16(extType) + Bytes16(len));
      Parse(buf) == Ok(Summary(h)) && !Genuine(buf)
  {
    var block := Bytes16(4) + Bytes16(extType) + Bytes16(len);
    var buf := Encode(h) + block;
    assert At(buf, 0, Encode(h)) && At(buf, |Encode(h)|, block);
    var pos := ReadHeaderAt(buf, h);
    OverrunBytes(buf, pos, extType, len);
    OverrunIsAccepted(buf, ReadHeader(buf).value.0, pos);
    OverrunDoesNotNest(buf, ReadHeader(buf).value.0, pos);
    GenuineIffLengthsNest(buf);
  }

  lemma {:induction false} OverrunBytes(buf: seq<Byte>, pos: nat, extType: U16, len: U16)
    requires At(buf, pos, Bytes16(4) + Bytes16(extType) + Bytes16(len)) && len > 0
    requires extType !in {SUPPORTED_GROUPS, SIGNATURE_ALGORITHMS, SUPPORTED_VERSIONS}
    ensures Overruns(buf, pos)
  {
    AtSplit3(buf, pos, Bytes16(4), Bytes16(extType), Bytes16(len));
    Read16Back(buf, pos, 4);
    Read16Back(buf, pos + 2, extType);
    Read16Back(buf, pos + 4, len);
  }
}
