/**
 * Classification and header decoding of modern application-layer framing:
 * HTTP/2 frames (section 4.1 of RFC 9113), QUIC long and short headers
 * (sections 17.2 and 17.3 of RFC 9000) and WebSocket frames (section 5.2 of
 * RFC 6455). Every decoder is a pure function of the captured bytes; the
 * buffer length plays the part of the source's `size` argument.
 */
module Protocols {
  import opened Common

  type byte = bv8
  newtype uint16 = x: int | 0 <= x < 0x1_0000

  /** The tags the detector reports; `Name` gives the string the source returns. */
  datatype ProtocolTag = Unknown | Http2 | Quic | WebSocket | Grpc | Standard

  function Name(tag: ProtocolTag): string
  {
    match tag
    case Unknown => "Unknown"
    case Http2 => "HTTP/2"
    case Quic => "QUIC"
    case WebSocket => "WebSocket"
    case Grpc => "gRPC"
    case Standard => "Standard"
  }

  /** The detector's answers are told apart by their strings alone. */
  lemma NameInjective(a: ProtocolTag, b: ProtocolTag)
    ensures Name(a) == Name(b) <==> a == b
  {
  }

  datatype Http2Frame = Http2Frame(length: nat, frameType: byte, flags: byte, streamId: nat, payload: seq<byte>)
  datatype QuicPacket = QuicPacket(version: nat, isLongHeader: bool, packetType: byte, payload: seq<byte>)
  datatype WebSocketFrame = WebSocketFrame(fin: bool, opcode: byte, masked: bool, payloadLength: nat, payload: seq<byte>)

  /** "PRI * HTTP/2.0", the first 14 bytes of the connection preface (section 3.4 of RFC 9113). */
  const Http2Preface: seq<byte> := [0x50, 0x52, 0x49, 0x20, 0x2A, 0x20, 0x48, 0x54, 0x54, 0x50, 0x2F, 0x32, 0x2E, 0x30]
  /** The whole 24-byte connection preface "PRI * HTTP/2.0\r\n\r\nSM\r\n\r\n". */
  const Http2ConnectionPreface: seq<byte> := Http2Preface + [0x0D, 0x0A, 0x0D, 0x0A, 0x53, 0x4D, 0x0D, 0x0A, 0x0D, 0x0A]
  /** "application/grpc" */
  const GrpcContentType: seq<byte> := [0x61, 0x70, 0x70, 0x6C, 0x69, 0x63, 0x61, 0x74, 0x69, 0x6F, 0x6E, 0x2F, 0x67, 0x72, 0x70, 0x63]
  /** "Hello" */
  const Hello: seq<byte> := [0x48, 0x65, 0x6C, 0x6C, 0x6F]
  /** Largest frame length the detector accepts (the initial SETTINGS_MAX_FRAME_SIZE). */
  const MaxDetectedFrameLength := 16384
  /** Only this many leading bytes are searched for the gRPC content type. */
  const GrpcSearchWindow := 100

  function Pow256(k: nat): (p: nat)
    ensures p > 0
  {
    if k == 0 then 1 else 256 * Pow256(k - 1)
  }

  /** Unsigned big-endian value of a byte string, computed as `acc = (acc << 8) | b`. */
  function BigEndian(s: seq<byte>): (n: nat)
    ensures n < Pow256(|s|)
  {
    if |s| == 0 then 0 else BigEndian(s[..|s| - 1]) * 256 + s[|s| - 1] as nat
  }

  lemma BigEndianSnoc(s: seq<byte>, b: byte)
    ensures BigEndian(s + [b]) == BigEndian(s) * 256 + b as nat
  {
    assert (s + [b])[..|s|] == s;
  }

  lemma BigEndian2(s: seq<byte>)
    requires |s| == 2
    ensures BigEndian(s) == s[0] as int * 0x100 + s[1] as int
  {
    assert s[..1][..0] == [];
  }

  lemma BigEndian3(s: seq<byte>)
    requires |s| == 3
    ensures BigEndian(s) == s[0] as int * 0x1_0000 + s[1] as int * 0x100 + s[2] as int
  {
    BigEndian2(s[..2]);
  }

  lemma BigEndian4(s: seq<byte>)
    requires |s| == 4
    ensures BigEndian(s) == s[0] as int * 0x100_0000 + s[1] as int * 0x1_0000 + s[2] as int * 0x100 + s[3] as int
  {
    BigEndian3(s[..3]);
  }

  // ---------------------------------------------------------------------
  // Detection
  // ---------------------------------------------------------------------

  predicate IsWebPort(port: uint16)
  {
    port == 80 || port == 443
  }

  /** isHTTP2Frame: a 9-byte header with BE24 length <= 16384 and type <= 10. */
  predicate IsHttp2Frame(data: seq<byte>)
  {
    |data| >= 9 && BigEndian(data[..3]) <= MaxDetectedFrameLength && data[3] <= 10
  }

  /** isQUICPacket: a long header with a non-zero version, or a short header with the fixed bit. */
  predicate IsQuicPacket(data: seq<byte>)
  {
    if |data| < 1 then false
    else if data[0] & 0x80 != 0 then |data| >= 5 && BigEndian(data[1..5]) != 0
    else data[0] & 0x40 != 0
  }

  /** isWebSocketFrame: the low nibble of byte 0 is a defined opcode. */
  predicate IsWebSocketFrame(data: seq<byte>)
  {
    |data| >= 2 && (var opcode := data[0] & 0x0F; opcode <= 2 || (opcode >= 8 && opcode <= 10))
  }

  /**
   * detectModernProtocol: ordered, first-match classification. `None`
   * stands for a null data pointer.
   */
  function DetectModernProtocol(data: Option<seq<byte>>, port: uint16): ProtocolTag
  {
    if data.None? || |data.value| < 4 then Unknown
    else
      var d := data.value;
      if IsWebPort(port) && |d| >= 24 && d[..14] == Http2Preface then Http2
      else if IsWebPort(port) && |d| >= 24 && IsHttp2Frame(d) then Http2
      else if IsWebPort(port) && IsQuicPacket(d) then Quic
      else if IsWebPort(port) && IsWebSocketFrame(d) then WebSocket
      else if IsWebPort(port) && |d| > 20 && Contains(d[..Min(|d|, GrpcSearchWindow)], GrpcContentType) then Grpc
      else Standard
  }

  lemma ShortBufferIsUnknown(data: Option<seq<byte>>, port: uint16)
    requires data.None? || |data.value| < 4
    ensures DetectModernProtocol(data, port) == Unknown
  {
  }

  lemma OtherPortIsStandard(d: seq<byte>, port: uint16)
    requires |d| >= 4 && port != 80 && port != 443
    ensures DetectModernProtocol(Some(d), port) == Standard
  {
  }

  lemma DetectHttp2Iff(d: seq<byte>, port: uint16)
    ensures DetectModernProtocol(Some(d), port) == Http2 <==>
      (port == 80 || port == 443) && |d| >= 24 &&
      (d[..14] == Http2Preface ||
       (d[0] as int * 0x1_0000 + d[1] as int * 0x100 + d[2] as int <= 16384 && d[3] <= 10))
  {
    if |d| >= 24 {
      BigEndian3(d[..3]);
    }
  }

  lemma DetectQuicIff(d: seq<byte>, port: uint16)
    requires |d| >= 4
    ensures DetectModernProtocol(Some(d), port) == Quic <==>
      (port == 80 || port == 443) &&
      !(|d| >= 24 && (d[..14] == Http2Preface || IsHttp2Frame(d))) &&
      ((d[0] & 0x80 != 0 && |d| >= 5 &&
        d[1] as int * 0x100_0000 + d[2] as int * 0x1_0000 + d[3] as int * 0x100 + d[4] as int != 0) ||
       (d[0] & 0x80 == 0 && d[0] & 0x40 != 0))
  {
    if |d| >= 5 {
      BigEndian4(d[1..5]);
    }
  }

  lemma FourByteLongHeaderIsNotQuic(d: seq<byte>, port: uint16)
    requires |d| == 4 && d[0] & 0x80 != 0
    ensures DetectModernProtocol(Some(d), port) != Quic
  {
  }

  lemma DetectWebSocketIff(d: seq<byte>, port: uint16)
    requires |d| >= 4
    ensures DetectModernProtocol(Some(d), port) == WebSocket <==>
      (port == 80 || port == 443) &&
      !(|d| >= 24 && (d[..14] == Http2Preface || IsHttp2Frame(d))) && !IsQuicPacket(d) &&
      (d[0] & 0x0F) in {0, 1, 2, 8, 9, 10}
  {
  }

  lemma DetectGrpcIff(d: seq<byte>, port: uint16)
    requires |d| >= 4
    ensures DetectModernProtocol(Some(d), port) == Grpc <==>
      (port == 80 || port == 443) &&
      !(|d| >= 24 && (d[..14] == Http2Preface || IsHttp2Frame(d))) && !IsQuicPacket(d) && !IsWebSocketFrame(d) &&
      |d| > 20 && exists i: nat :: OccursAt(d[..Min(|d|, 100)], GrpcContentType, i)
  {
    ContainsIffOccurs(d[..Min(|d|, 100)], GrpcContentType);
  }

  lemma PrefaceIsHttp2(rest: seq<byte>)
    ensures DetectModernProtocol(Some(Http2ConnectionPreface + rest), 443) == Http2
  {
    var d := Http2ConnectionPreface + rest;
    assert d[..14] == Http2Preface;
  }

  /** A long header carrying version 1 (RFC 9000) is QUIC, whatever its other first-byte bits. */
  lemma QuicVersionOneIsQuic(d: seq<byte>)
    requires |d| >= 5 && d[0] & 0x80 != 0 && d[1..5] == [0, 0, 0, 1]
    ensures DetectModernProtocol(Some(d), 443) == Quic
  {
    if |d| >= 24 {
      BigEndian3(d[..3]);
      assert d[..14][0] != Http2Preface[0];
    }
    BigEndian4(d[1..5]);
  }

  lemma TextOpcodeIsWebSocket(d: seq<byte>)
    requires |d| >= 4 && d[0] == 0x01
    ensures DetectModernProtocol(Some(d), 80) == WebSocket
  {
    if |d| >= 24 {
      BigEndian3(d[..3]);
      assert d[..14][0] != Http2Preface[0];
    }
  }

  /** The unmasked "Hello" text frame is a QUIC long header on port 80. */
  lemma HelloFrameIsQuicOnPort80()
    ensures DetectModernProtocol(Some([0x81, 0x05] + Hello), 80) == Quic
  {
    var d: seq<byte> := [0x81, 0x05] + Hello;
    assert d[1..5] == [0x05, 0x48, 0x65, 0x6c];
    BigEndian4(d[1..5]);
  }

  /** A buffer that reaches the gRPC rule. */
  lemma GrpcIsReachable()
    ensures DetectModernProtocol(Some([0x03, 0, 0, 0] + GrpcContentType + [0, 0, 0]), 443) == Grpc
  {
    var d: seq<byte> := [0x03, 0, 0, 0] + GrpcContentType + [0, 0, 0];
    var w := d[..Min(|d|, GrpcSearchWindow)];
    assert w == d;
    assert OccursAt(w, GrpcContentType, 4) by {
      assert w[4..20] == GrpcContentType;
    }
    ContainsIffOccurs(w, GrpcContentType);
  }

  // ---------------------------------------------------------------------
  // HTTP/2 frames
  // ---------------------------------------------------------------------

  /** parseHTTP2Frame: a 9-byte header, then min(length, available) payload bytes. */
  function ParseHttp2Frame(data: seq<byte>): Http2Frame
  {
    if |data| < 9 then Http2Frame(0, 0, 0, 0, [])
    else
      var length := BigEndian(data[..3]);
      var payloadSize := if |data| > 9 && length > 0 then Min(length, |data| - 9) else 0;
      Http2Frame(length, data[3], data[4], BigEndian([data[5] & 0x7F] + data[6..9]), data[9..9 + payloadSize])
  }

  lemma Http2ShortBufferIsZero(data: seq<byte>)
    requires |data| < 9
    ensures ParseHttp2Frame(data) == Http2Frame(0, 0, 0, 0, [])
  {
  }

  /** The 24-bit length, the type byte and the flags byte. */
  lemma Http2HeaderFields(data: seq<byte>)
    requires |data| >= 9
    ensures var f := ParseHttp2Frame(data);
      && f.length == data[0] as int * 0x1_0000 + data[1] as int * 0x100 + data[2] as int
      && f.length < 0x100_0000
      && f.frameType == data[3] && f.flags == data[4]
  {
    BigEndian3(data[..3]);
  }

  /** The stream identifier is the 32-bit big-endian word at offset 5 with its reserved top bit cleared. */
  lemma Http2StreamId(data: seq<byte>)
    requires |data| >= 9
    ensures var f := ParseHttp2Frame(data);
      && f.streamId == (data[5] & 0x7F) as int * 0x100_0000 + data[6] as int * 0x1_0000 + data[7] as int * 0x100 + data[8] as int
      && f.streamId == BigEndian(data[5..9]) % 0x8000_0000
      && f.streamId < 0x8000_0000
  {
    var s := [data[5] & 0x7F] + data[6..9];
    assert ParseHttp2Frame(data).streamId == BigEndian(s);
    assert s[0] == data[5] & 0x7F && s[1] == data[6] && s[2] == data[7] && s[3] == data[8];
    BigEndian4(s);
    var w := data[5..9];
    assert w[0] == data[5] && w[1] == data[6] && w[2] == data[7] && w[3] == data[8];
    BigEndian4(w);
    var rest := data[6] as int * 0x1_0000 + data[7] as int * 0x100 + data[8] as int;
    TopBitCleared(data[5], rest);
  }

  /** Clearing bit 7 of the leading byte of a 32-bit value is reduction modulo 2^31. */
  lemma TopBitCleared(b: byte, rest: int)
    requires 0 <= rest < 0x100_0000
    ensures (b & 0x7F) as int * 0x100_0000 + rest == (b as int * 0x100_0000 + rest) % 0x8000_0000
    ensures (b & 0x7F) as int * 0x100_0000 + rest < 0x8000_0000
  {
    var lo := (b & 0x7F) as int;
    assert lo == b as int % 128;
    var hi := b as int / 128;
    assert b as int == hi * 128 + lo;
    assert b as int * 0x100_0000 + rest == hi * 0x8000_0000 + (lo * 0x100_0000 + rest);
  }

  lemma Http2Payload(data: seq<byte>)
    requires |data| >= 9
    ensures var f := ParseHttp2Frame(data);
      && f.payload == data[9..9 + Min(f.length, |data| - 9)]
      && |f.payload| <= f.length
      && 9 + |f.payload| <= |data|
  {
  }

  lemma SettingsHeaderOnly()
    ensures ParseHttp2Frame([0, 0, 0, 4, 0, 0, 0, 0, 0]) == Http2Frame(0, 4, 0, 0, [])
  {
    var d: seq<byte> := [0, 0, 0, 4, 0, 0, 0, 0, 0];
    BigEndian3(d[..3]);
    BigEndian4([d[5] & 0x7F] + d[6..9]);
  }

  // ---------------------------------------------------------------------
  // QUIC packets
  // ---------------------------------------------------------------------

  /** parseQUIC: header form bit, then version and packet type of a long header. */
  function ParseQuic(data: seq<byte>): QuicPacket
  {
    if |data| < 1 then QuicPacket(0, false, 0, [])
    else
      var first := data[0];
      var isLong := first & 0x80 != 0;
      var version := if isLong && |data| >= 5 then BigEndian(data[1..5]) else 0;
      var packetType := if isLong && |data| >= 5 then (first & 0x30) >> 4 else 0;
      var start := if isLong then 5 else 1;
      QuicPacket(version, isLong, packetType, if |data| > start then data[start..] else [])
  }

  lemma QuicFields(data: seq<byte>)
    requires |data| >= 1
    ensures var p := ParseQuic(data);
      && p.isLongHeader == (data[0] >= 0x80)
      && (p.isLongHeader && |data| >= 5 ==>
            p.version == data[1] as int * 0x100_0000 + data[2] as int * 0x1_0000 + data[3] as int * 0x100 + data[4] as int
            && p.packetType as int == (data[0] as int / 16) % 4)
      && (!(p.isLongHeader && |data| >= 5) ==> p.version == 0 && p.packetType == 0)
      && p.version < 0x1_0000_0000
      && p.packetType <= 3
  {
    if data[0] & 0x80 != 0 && |data| >= 5 {
      BigEndian4(data[1..5]);
    }
  }

  lemma QuicPayload(data: seq<byte>)
    ensures var p := ParseQuic(data);
      var start := if p.isLongHeader then 5 else 1;
      && (|data| > start ==> p.payload == data[start..])
      && (|data| <= start ==> p.payload == [])
  {
  }

  // ---------------------------------------------------------------------
  // WebSocket frames
  // ---------------------------------------------------------------------

  /** Declared payload length and header size before the masking key. */
  function WebSocketLength(data: seq<byte>): (lh: (nat, nat))
    requires |data| >= 2
  {
    var len7 := data[1] & 0x7F;
    if len7 == 126 && |data| >= 4 then (BigEndian(data[2..4]), 4)
    else if len7 == 127 && |data| >= 10 then (BigEndian(data[2..10]), 10)
    else (len7 as nat, 2)
  }

  /** The frame parseWebSocket builds; masking is not undone. */
  function WebSocketFrameOf(data: seq<byte>): WebSocketFrame
  {
    if |data| < 2 then WebSocketFrame(false, 0, false, 0, [])
    else
      var masked := data[1] & 0x80 != 0;
      var (len, baseHeader) := WebSocketLength(data);
      var header := if masked then baseHeader + 4 else baseHeader;
      var payload := if |data| > header && len > 0 then data[header..header + Min(len, |data| - header)] else [];
      WebSocketFrame(data[0] & 0x80 != 0, data[0] & 0x0F, masked, len, payload)
  }

  /** The 8-iteration loop of parseWebSocket that accumulates the 64-bit extended length. */
  method ReadLength64(data: seq<byte>) returns (payloadLength: nat)
    requires |data| >= 10
    ensures payloadLength == BigEndian(data[2..10])
  {
    payloadLength := 0;
    var i := 0;
    while i < 8
      invariant 0 <= i <= 8
      invariant payloadLength == BigEndian(data[2..2 + i])
    {
      BigEndianSnoc(data[2..2 + i], data[2 + i]);
      assert data[2..2 + i] + [data[2 + i]] == data[2..2 + i + 1];
      payloadLength := payloadLength * 256 + data[2 + i] as nat;
      i := i + 1;
    }
  }

  /** parseWebSocket. */
  method ParseWebSocket(data: seq<byte>) returns (frame: WebSocketFrame)
    ensures frame == WebSocketFrameOf(data)
  {
    if |data| < 2 {
      return WebSocketFrame(false, 0, false, 0, []);
    }
    var firstByte, secondByte := data[0], data[1];
    var fin := firstByte & 0x80 != 0;
    var opcode := firstByte & 0x0F;
    var masked := secondByte & 0x80 != 0;
    var payloadLen := secondByte & 0x7F;
    var headerSize := 2;
    var payloadLength: nat;
    if payloadLen == 126 && |data| >= 4 {
      payloadLength := BigEndian(data[2..4]);
      headerSize := 4;
    } else if payloadLen == 127 && |data| >= 10 {
      payloadLength := ReadLength64(data);
      headerSize := 10;
    } else {
      payloadLength := payloadLen as nat;
    }
    if masked {
      headerSize := headerSize + 4;
    }
    var payload: seq<byte> := [];
    if |data| > headerSize && payloadLength > 0 {
      var payloadSize := Min(payloadLength, |data| - headerSize);
      payload := data[headerSize..headerSize + payloadSize];
    }
    frame := WebSocketFrame(fin, opcode, masked, payloadLength, payload);
  }

  lemma WebSocketFields(data: seq<byte>)
    requires |data| >= 2
    ensures var f := WebSocketFrameOf(data);
      && f.fin == (data[0] >= 0x80)
      && f.opcode as int == data[0] as int % 16
      && f.masked == (data[1] >= 0x80)
  {
    assert (data[0] & 0x0F) as int == data[0] as int % 16;
  }

  lemma WebSocketLengthCases(data: seq<byte>)
    requires |data| >= 2
    ensures var (len, header) := WebSocketLength(data);
      var len7 := data[1] as int % 128;
      && (len7 == 126 && |data| >= 4 ==> len == data[2] as int * 0x100 + data[3] as int && header == 4)
      && (len7 == 127 && |data| >= 10 ==> len == BigEndian(data[2..10]) && header == 10)
      && (!(len7 == 126 && |data| >= 4) && !(len7 == 127 && |data| >= 10) ==> len == len7 && header == 2)
      && len < 0x1_0000_0000_0000_0000
  {
    assert (data[1] & 0x7F) as int == data[1] as int % 128;
    if data[1] & 0x7F == 126 && |data| >= 4 {
      BigEndian2(data[2..4]);
    }
    assert Pow256(8) == 0x1_0000_0000_0000_0000;
  }

  lemma WebSocketPayload(data: seq<byte>)
    requires |data| >= 2
    ensures var f := WebSocketFrameOf(data);
      var header := WebSocketLength(data).1 + (if f.masked then 4 else 0);
      && 2 <= header <= 14
      && (|data| > header ==> f.payload == data[header..header + Min(f.payloadLength, |data| - header)])
      && (|data| <= header ==> f.payload == [])
      && |f.payload| <= f.payloadLength
  {
  }

  lemma HelloTextFrame()
    ensures WebSocketFrameOf([0x81, 0x05] + Hello) == WebSocketFrame(true, 1, false, 5, Hello)
  {
    var d: seq<byte> := [0x81, 0x05] + Hello;
    assert d[2..7] == Hello;
  }
}
