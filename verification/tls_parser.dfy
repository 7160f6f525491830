/** The TLS handshake parser: a cursor over a byte buffer and the ClientHello /
    ServerHello parser built on it (RFC 8446, sections 4.1.2, 4.1.3, 4.2.1, 4.2.3 and 4.2.7). */
module TlsParser {
  import opened Bytes
  import opened Wrappers

  type U16 = n: int | 0 <= n < 0x1_0000
  type U24 = n: int | 0 <= n < 0x100_0000

  datatype HandshakeKind = ClientHello | ServerHello

  datatype HandshakeSummary = HandshakeSummary(
    msgKind: HandshakeKind,
    legacyVersion: U16,
    ciphersuites: seq<U16>,
    supportedGroups: seq<U16>,
    signatureSchemes: seq<U16>,
    supportedVersions: seq<U16>)

  datatype ParseError =
    | Truncated(at: nat, need: nat)
    | UnsupportedKind(kind: Byte)
    | LengthMismatch(claimed: nat, available: nat)

  const SUPPORTED_GROUPS: U16 := 0x000a
  const SIGNATURE_ALGORITHMS: U16 := 0x000d
  const SUPPORTED_VERSIONS: U16 := 0x002b

  /// The reads, as functions from a position to a value and the next position.

  type Read<T> = Result<(T, nat), ParseError>

  function Big16(hi: Byte, lo: Byte): U16 {
    (hi as int) * 0x100 + lo as int
  }

  function Big24(hi: Byte, mid: Byte, lo: Byte): U24 {
    (hi as int) * 0x1_0000 + (mid as int) * 0x100 + lo as int
  }

  function Remaining(buf: seq<Byte>, pos: nat): nat {
    if pos <= |buf| then |buf| - pos else 0
  }

  function Need(buf: seq<Byte>, pos: nat, n: nat): Result<(), ParseError> {
    if Remaining(buf, pos) < n then Err(Truncated(pos, n - Remaining(buf, pos))) else Ok(())
  }

  function ReadU8(buf: seq<Byte>, pos: nat): Read<Byte> {
    var _ :- Need(buf, pos, 1);
    Ok((buf[pos], pos + 1))
  }

  function ReadU16(buf: seq<Byte>, pos: nat): Read<U16> {
    var _ :- Need(buf, pos, 2);
    Ok((Big16(buf[pos], buf[pos + 1]), pos + 2))
  }

  function ReadU24(buf: seq<Byte>, pos: nat): Read<U24> {
    var _ :- Need(buf, pos, 3);
    Ok((Big24(buf[pos], buf[pos + 1], buf[pos + 2]), pos + 3))
  }

  function Skip(buf: seq<Byte>, pos: nat, n: nat): Read<()> {
    var _ :- Need(buf, pos, n);
    Ok(((), pos + n))
  }

  /// The parser.

  /** Codepoints are read while the position is before `end`; an odd length reads one byte past it. */
  function ReadList(buf: seq<Byte>, pos: nat, end: nat, acc: seq<U16>): Read<seq<U16>>
    decreases end - pos
  {
    if pos >= end then Ok((acc, pos)) else
      var (v, next) :- ReadU16(buf, pos);
      ReadList(buf, next, end, acc + [v])
  }

  /** A list preceded by its length in bytes, itself two bytes wide. */
  function ReadList16(buf: seq<Byte>, pos: nat, acc: seq<U16>): Read<seq<U16>> {
    var (len, start) :- ReadU16(buf, pos);
    ReadList(buf, start, start + len, acc)
  }

  /** A list preceded by its length in bytes, one byte wide. */
  function ReadList8(buf: seq<Byte>, pos: nat, acc: seq<U16>): Read<seq<U16>> {
    var (len, start) :- ReadU8(buf, pos);
    ReadList(buf, start, start + len, acc)
  }

  /** What one extension adds to the summary, given its type and where its data starts. */
  function ReadExtensionData(buf: seq<Byte>, extType: U16, pos: nat, s: HandshakeSummary)
    : Result<HandshakeSummary, ParseError>
  {
    if extType == SUPPORTED_GROUPS then
      var (groups, _) :- ReadList16(buf, pos, s.supportedGroups);
      Ok(s.(supportedGroups := groups))
    else if extType == SIGNATURE_ALGORITHMS then
      var (schemes, _) :- ReadList16(buf, pos, s.signatureSchemes);
      Ok(s.(signatureSchemes := schemes))
    else if extType == SUPPORTED_VERSIONS then
      if s.msgKind.ClientHello? then
        var (versions, _) :- ReadList8(buf, pos, s.supportedVersions);
        Ok(s.(supportedVersions := versions))
      else
        var (version, _) :- ReadU16(buf, pos);
        Ok(s.(supportedVersions := s.supportedVersions + [version]))
    else
      Ok(s)
  }

  /** The extension loop: whatever was read inside an extension, the next one starts where
      the declared length says, which may be behind or beyond the bytes just read. */
  function ReadExtensions(buf: seq<Byte>, pos: nat, end: nat, s: HandshakeSummary)
    : Result<HandshakeSummary, ParseError>
    decreases end - pos
  {
    if pos >= end then Ok(s) else
      var (extType, lenAt) :- ReadU16(buf, pos);
      var (len, data) :- ReadU16(buf, lenAt);
      var s' :- ReadExtensionData(buf, extType, data, s);
      ReadExtensions(buf, data + len, end, s')
  }

  function ReadKind(buf: seq<Byte>): Read<HandshakeKind> {
    var (kind, next) :- ReadU8(buf, 0);
    if kind == 1 then Ok((ClientHello, next))
    else if kind == 2 then Ok((ServerHello, next))
    else Err(UnsupportedKind(kind))
  }

  /** Version, random and session id; the version is all that is kept. */
  function ReadVersion(buf: seq<Byte>, pos: nat): Read<U16> {
    var (version, afterVersion) :- ReadU16(buf, pos);
    var (_, afterRandom) :- Skip(buf, afterVersion, 32);
    var (sidLen, afterSidLen) :- ReadU8(buf, afterRandom);
    var (_, next) :- Skip(buf, afterSidLen, sidLen);
    Ok((version, next))
  }

  /** The length of the message, checked against what is left, and those fields. */
  function ReadPreamble(buf: seq<Byte>, pos: nat): Read<U16> {
    var (total, afterTotal) :- ReadU24(buf, pos);
    if total > Remaining(buf, afterTotal) then Err(LengthMismatch(total, Remaining(buf, afterTotal)))
    else ReadVersion(buf, afterTotal)
  }

  function ReadClientSuites(buf: seq<Byte>, pos: nat): Read<seq<U16>> {
    var (len, start) :- ReadU16(buf, pos);
    if len % 2 != 0 then Err(LengthMismatch(len, Remaining(buf, start))) else
      var (suites, afterSuites) :- ReadList(buf, start, start + len, []);
      ReadCompression(buf, afterSuites, suites)
  }

  /** The compression methods are skipped. */
  function ReadCompression(buf: seq<Byte>, pos: nat, suites: seq<U16>): Read<seq<U16>> {
    var (compLen, afterCompLen) :- ReadU8(buf, pos);
    var (_, next) :- Skip(buf, afterCompLen, compLen);
    Ok((suites, next))
  }

  function ReadServerSuite(buf: seq<Byte>, pos: nat): Read<seq<U16>> {
    var (suite, afterSuite) :- ReadU16(buf, pos);
    var (_, next) :- Skip(buf, afterSuite, 1);
    Ok(([suite], next))
  }

  /** Everything before the extensions block. */
  function ReadSuites(buf: seq<Byte>, pos: nat, kind: HandshakeKind): Read<seq<U16>> {
    if kind.ClientHello? then ReadClientSuites(buf, pos) else ReadServerSuite(buf, pos)
  }

  function ReadHello(buf: seq<Byte>, pos: nat, kind: HandshakeKind): Read<HandshakeSummary> {
    var (version, afterPreamble) :- ReadPreamble(buf, pos);
    var (suites, next) :- ReadSuites(buf, afterPreamble, kind);
    Ok((HandshakeSummary(kind, version, suites, [], [], []), next))
  }

  function ReadHeader(buf: seq<Byte>): Read<HandshakeSummary> {
    var (kind, afterKind) :- ReadKind(buf);
    ReadHello(buf, afterKind, kind)
  }

  /** The extensions block, absent when fewer than two bytes are left. */
  function ReadBlock(buf: seq<Byte>, pos: nat, s: HandshakeSummary): Result<HandshakeSummary, ParseError> {
    if Remaining(buf, pos) < 2 then Ok(s) else
      var (extBytes, start) :- ReadU16(buf, pos);
      if extBytes > Remaining(buf, start) then Err(LengthMismatch(extBytes, Remaining(buf, start)))
      else ReadExtensions(buf, start, start + extBytes, s)
  }

  function Parse(buf: seq<Byte>): Result<HandshakeSummary, ParseError> {
    var (s, pos) :- ReadHeader(buf);
    ReadBlock(buf, pos, s)
  }

  /// The code itself: a cursor whose methods move `pos`, and the parser that drives it.

  /** `r` and the new position are what `read` says; a failed read does not move the cursor. */
  ghost predicate Agrees<T>(read: Read<T>, before: nat, r: Result<T, ParseError>, after: nat) {
    match read
    case Ok((v, next)) => r == Ok(v) && after == next
    case Err(e) => r == Err(e) && after == before
  }

  class Cursor {
    const buf: seq<Byte>
    var pos: nat

    constructor (buf: seq<Byte>)
      ensures this.buf == buf && pos == 0
    {
      this.buf := buf;
      pos := 0;
    }

    method NextU8() returns (r: Result<Byte, ParseError>)
      modifies this
      ensures Agrees(ReadU8(buf, old(pos)), old(pos), r, pos)
    {
      var _ :- Need(buf, pos, 1);
      r := Ok(buf[pos]);
      pos := pos + 1;
    }

    method NextU16() returns (r: Result<U16, ParseError>)
      modifies this
      ensures Agrees(ReadU16(buf, old(pos)), old(pos), r, pos)
    {
      var _ :- Need(buf, pos, 2);
      r := Ok(Big16(buf[pos], buf[pos + 1]));
      pos := pos + 2;
    }

    method NextU24() returns (r: Result<U24, ParseError>)
      modifies this
      ensures Agrees(ReadU24(buf, old(pos)), old(pos), r, pos)
    {
      var _ :- Need(buf, pos, 3);
      r := Ok(Big24(buf[pos], buf[pos + 1], buf[pos + 2]));
      pos := pos + 3;
    }

    method Advance(n: nat) returns (r: Result<(), ParseError>)
      modifies this
      ensures Agrees(Skip(buf, old(pos), n), old(pos), r, pos)
    {
      var _ :- Need(buf, pos, n);
      pos := pos + n;
      r := Ok(());
    }

    /** The loop the source repeats for each codepoint list: push until `end` is reached. */
    method PushUntil(end: nat, acc: seq<U16>) returns (r: Result<seq<U16>, ParseError>)
      modifies this
      ensures match ReadList(buf, old(pos), end, acc)
              case Ok((list, next)) => r == Ok(list) && pos == next
              case Err(e) => r == Err(e)
    {
      var list := acc;
      while pos < end
        invariant ReadList(buf, pos, end, list) == ReadList(buf, old(pos), end, acc)
        decreases end - pos
      {
        var v :- NextU16();
        list := list + [v];
      }
      r := Ok(list);
    }
  }

  method ParseExtensionData(c: Cursor, extType: U16, s: HandshakeSummary)
    returns (r: Result<HandshakeSummary, ParseError>)
    modifies c
    ensures r == ReadExtensionData(c.buf, extType, old(c.pos), s)
  {
    if extType == SUPPORTED_GROUPS {
      var len :- c.NextU16();
      var groups :- c.PushUntil(c.pos + len, s.supportedGroups);
      return Ok(s.(supportedGroups := groups));
    } else if extType == SIGNATURE_ALGORITHMS {
      var len :- c.NextU16();
      var schemes :- c.PushUntil(c.pos + len, s.signatureSchemes);
      return Ok(s.(signatureSchemes := schemes));
    } else if extType == SUPPORTED_VERSIONS {
      if s.msgKind == ClientHello {
        var len :- c.NextU8();
        var versions :- c.PushUntil(c.pos + len, s.supportedVersions);
        return Ok(s.(supportedVersions := versions));
      } else {
        var version :- c.NextU16();
        return Ok(s.(supportedVersions := s.supportedVersions + [version]));
      }
    }
    r := Ok(s);
  }

  /** Message length, version, random and session id. */
  method ParsePreamble(c: Cursor) returns (r: Result<U16, ParseError>)
    modifies c
    ensures match ReadPreamble(c.buf, old(c.pos))
            case Ok((version, next)) => r == Ok(version) && c.pos == next
            case Err(e) => r == Err(e)
  {
    var total :- c.NextU24();
    if total > Remaining(c.buf, c.pos) {
      return Err(LengthMismatch(total, Remaining(c.buf, c.pos)));
    }
    var version :- c.NextU16();
    var _ :- c.Advance(32);
    var sidLen :- c.NextU8();
    var _ :- c.Advance(sidLen);
    r := Ok(version);
  }

  /** Cipher suites and compression methods of a ClientHello. */
  method ParseClientSuites(c: Cursor) returns (r: Result<seq<U16>, ParseError>)
    modifies c
    ensures match ReadClientSuites(c.buf, old(c.pos))
            case Ok((suites, next)) => r == Ok(suites) && c.pos == next
            case Err(e) => r == Err(e)
  {
    var len :- c.NextU16();
    if len % 2 != 0 {
      return Err(LengthMismatch(len, Remaining(c.buf, c.pos)));
    }
    var suites: seq<U16> := [];
    ghost var start := c.pos;
    for i := 0 to len / 2
      invariant c.pos == start + 2 * i
      invariant ReadList(c.buf, c.pos, start + len, suites) == ReadList(c.buf, start, start + len, [])
    {
      var suite :- c.NextU16();
      suites := suites + [suite];
    }
    var compLen :- c.NextU8();
    var _ :- c.Advance(compLen);
    r := Ok(suites);
  }

  /** Up to the extensions block. */
  method ParseHeader(c: Cursor) returns (r: Result<HandshakeSummary, ParseError>)
    requires c.pos == 0
    modifies c
    ensures match ReadHeader(c.buf)
            case Ok((s, next)) => r == Ok(s) && c.pos == next
            case Err(e) => r == Err(e)
  {
    var kindByte :- c.NextU8();
    if kindByte != 1 && kindByte != 2 {
      return Err(UnsupportedKind(kindByte));
    }
    var kind := if kindByte == 1 then ClientHello else ServerHello;
    var version :- ParsePreamble(c);
    var suites: seq<U16>;
    if kind == ClientHello {
      suites :- ParseClientSuites(c);
    } else {
      var suite :- c.NextU16();
      suites := [suite];
      var _ :- c.Advance(1);
    }
    r := Ok(HandshakeSummary(kind, version, suites, [], [], []));
  }

  /** The extension loop; the resync assigns `pos` outright, backwards or forwards. */
  method ParseExtensions(c: Cursor, extEnd: nat, s: HandshakeSummary) returns (r: Result<HandshakeSummary, ParseError>)
    modifies c
    ensures r == ReadExtensions(c.buf, old(c.pos), extEnd, s)
  {
    var summary := s;
    while c.pos < extEnd
      invariant ReadExtensions(c.buf, c.pos, extEnd, summary) == ReadExtensions(c.buf, old(c.pos), extEnd, s)
      decreases extEnd - c.pos
    {
      var extType :- c.NextU16();
      var extLen :- c.NextU16();
      var extDataEnd := c.pos + extLen;
      summary :- ParseExtensionData(c, extType, summary);
      c.pos := extDataEnd;
    }
    r := Ok(summary);
  }

  /** The parser. Its result is `Parse(buf)` for every byte string: in particular it always
      terminates and never indexes outside the buffer. */
  method ParseHandshake(buf: seq<Byte>) returns (r: Result<HandshakeSummary, ParseError>)
    ensures r == Parse(buf)
  {
    var c := new Cursor(buf);
    var summary :- ParseHeader(c);
    if Remaining(buf, c.pos) < 2 {
      return Ok(summary);
    }
    var extBytes :- c.NextU16();
    if extBytes > Remaining(buf, c.pos) {
      return Err(LengthMismatch(extBytes, Remaining(buf, c.pos)));
    }
    r := ParseExtensions(c, c.pos + extBytes, summary);
  }
}
