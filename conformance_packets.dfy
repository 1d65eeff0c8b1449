/**
 * The packet and frame builders of the conformance integration test, and its
 * reader for the version list of a Version Negotiation packet. Each builder
 * is checked against an independent reader written from RFC 9000: the
 * long-header reader (section 17.2), the STREAM and CONNECTION_CLOSE frame
 * layouts (sections 19.8 and 19.19) and the Version Negotiation layout
 * (section 17.2.1). The bytes `random_bytes` would supply are parameters.
 */
module ConformancePackets {
  import opened Wrappers
  import opened Bytes
  import opened Varints
  import opened LongHeaders
  import opened BoundaryPackets

  // ---------------------------------------------------------------------
  // Long and short headers
  // ---------------------------------------------------------------------

  /** `0x80 | 0x40 | (($packetType & 0x03) << 4)`: header form, fixed bit and the long packet type. */
  function LongHeaderFirstByte(packetType: int): Byte
  {
    ByteOr(0xc0, (packetType % 4) * 16)
  }

  /**
   * Read bit by bit: header form 1, fixed bit 1, the two type bits equal to
   * the packet type's low two bits and a zero low nibble (reserved bits and
   * packet number length).
   */
  lemma LongHeaderFirstByteBits(packetType: int)
    ensures var f := LongHeaderFirstByte(packetType);
      && f / 128 == 1 && (f / 64) % 2 == 1
      && (f / 16) % 4 == packetType % 4 && f % 16 == 0
  {
    var t := packetType % 4;
    if t == 0 {
      assert ByteOr(0xc0, 0) == 0xc0;
    } else if t == 1 {
      assert ByteOr(0xc0, 16) == 0xd0;
    } else if t == 2 {
      assert ByteOr(0xc0, 32) == 0xe0;
    } else {
      assert ByteOr(0xc0, 48) == 0xf0;
    }
  }

  /**
   * `buildLongHeaderPacket`: first byte, version 1, two eight-byte ids, then
   * for Initial (type 0) an empty token, the length 100, a zero packet number
   * and 99 zero bytes; for Retry (type 3) a 16-byte token and a 16-byte
   * integrity tag (`retry`); for any other type the length 10, a zero packet
   * number and 9 zero bytes.
   */
  function LongHeaderPacket(packetType: int, dcid: ByteString, scid: ByteString, retry: ByteString): (p: ByteString)
    requires |dcid| == 8 && |scid| == 8 && |retry| == 32
    ensures |p| == if packetType == 0 then 126 else if packetType == 3 then 55 else 34
    ensures p[1..5] == PackN(1) && p[6..14] == dcid && p[15..23] == scid
  {
    var head := [LongHeaderFirstByte(packetType)] + PackN(1) + Cid8(dcid) + Cid8(scid);
    assert head[1..5] == PackN(1) && head[6..14] == dcid && head[15..23] == scid;
    if packetType == 0 then head + [0] + EncodeVarint(100) + [0] + Zeros(99)
    else if packetType == 3 then head + retry
    else head + EncodeVarint(10) + [0] + Zeros(9)
  }

  /**
   * Every long-header packet is read back by the long-header reader with
   * version 1 and both eight-byte ids; its length is 126 bytes for Initial,
   * 55 for Retry and 34 otherwise.
   */
  lemma LongHeaderPacketLayout(packetType: int, dcid: ByteString, scid: ByteString, retry: ByteString)
    requires |dcid| == 8 && |scid| == 8 && |retry| == 32
    ensures var p := LongHeaderPacket(packetType, dcid, scid, retry);
      && |p| == (if packetType == 0 then 126 else if packetType == 3 then 55 else 34)
      && p[0] == LongHeaderFirstByte(packetType)
      && ParseLongHeader(p) == Some(LongHeader(p[0], 1, dcid, scid, p[23..]))
  {
    var f := LongHeaderFirstByte(packetType);
    var p := LongHeaderPacket(packetType, dcid, scid, retry);
    var pre := [f] + PackN(1) + [|dcid|] + dcid + [|scid|] + scid;
    LongHeaderFirstByteBits(packetType);
    assert p[..23] == pre;
    ParseLongHeaderPrefix(p, f, 1, dcid, scid);
  }

  /**
   * `buildShortHeaderPacket`: first byte 0x40, an eight-byte destination id,
   * a one-byte packet number 0 and a 100-byte payload.
   */
  function ShortHeaderPacket(dcid: ByteString, payload: ByteString): (p: ByteString)
    requires |dcid| == 8 && |payload| == 100
    ensures |p| == 110 && p[1..9] == dcid && p[10..] == payload
  {
    [0x40] + dcid + [0] + payload
  }

  /** The fields of a short-header first byte (section 17.3.1 of RFC 9000). */
  datatype ShortHeaderBits = ShortHeaderBits(form: nat, fixed: nat, spin: nat, keyPhase: nat, packetNumberLength: nat)

  function ShortHeaderFields(first: Byte): (r: ShortHeaderBits)
    ensures 1 <= r.packetNumberLength <= 4
  {
    ShortHeaderBits(first / 128, (first / 64) % 2, (first / 32) % 2, (first / 4) % 2, first % 4 + 1)
  }

  /**
   * The short header reads as header form 0, fixed bit 1, spin and key-phase
   * bits 0 and a one-byte packet number, followed by the id, the packet
   * number and the payload.
   */
  lemma ShortHeaderPacketLayout(dcid: ByteString, payload: ByteString)
    requires |dcid| == 8 && |payload| == 100
    ensures var p := ShortHeaderPacket(dcid, payload);
      && |p| == 110
      && ShortHeaderFields(p[0]) == ShortHeaderBits(0, 1, 0, 0, 1)
      && p[1..9] == dcid && p[9] == 0 && p[10..] == payload
  {
    var p := ShortHeaderPacket(dcid, payload);
    assert p[1..9] == dcid;
    assert p[10..] == payload;
  }

  /**
   * `buildPacketWithVersion`: an Initial-style long header carrying `version`,
   * two eight-byte ids, an empty token, the remaining length and a zero
   * packet number, padded with zeros to 1200 bytes.
   */
  function PacketWithVersion(version: int, dcid: ByteString, scid: ByteString): (p: ByteString)
    requires |dcid| == 8 && |scid| == 8
    ensures |p| == PaddedSize && p[1..5] == PackN(version) && p[23] == 0
  {
    var head := [0xc0] + PackN(version) + Cid8(dcid) + Cid8(scid) + [0];
    var body := head + EncodeVarint(PaddedSize - |head| - 2) + [0];
    assert body[1..5] == PackN(version) && body[23] == 0;
    PadZeros(body, PaddedSize)
  }

  /**
   * The packet is exactly 1200 bytes and the long-header reader recovers the
   * version (modulo 2^32, as `pack('N')` keeps 32 bits) and both ids.
   */
  lemma PacketWithVersionLayout(version: int, dcid: ByteString, scid: ByteString)
    requires |dcid| == 8 && |scid| == 8
    ensures var p := PacketWithVersion(version, dcid, scid);
      && |p| == PaddedSize
      && ParseLongHeader(p) == Some(LongHeader(0xc0, version % 0x1_0000_0000, dcid, scid, p[23..]))
  {
    var pre := [0xc0] + PackN(version) + [|dcid|] + dcid + [|scid|] + scid;
    var varint := EncodeVarint(PaddedSize - 24 - 2);
    assert |varint| == 2;
    var body := pre + ([0] + varint + [0]);
    assert [0xc0] + PackN(version) + Cid8(dcid) + Cid8(scid) + [0] + varint + [0] == body;
    PaddedPrefix(pre, [0] + varint + [0]);
    ParseLongHeaderPrefix(PacketWithVersion(version, dcid, scid), 0xc0, version, dcid, scid);
  }

  // ---------------------------------------------------------------------
  // Frames
  // ---------------------------------------------------------------------

  /** The ASCII bytes of 'TEST' and 'DATA'. */
  const Test: ByteString := [0x54, 0x45, 0x53, 0x54]
  const Data: ByteString := [0x44, 0x41, 0x54, 0x41]

  /**
   * `buildFrame`: the type byte `chr($frameType)` followed by the minimal
   * fields of that type. `cid` and `token` stand for the random connection id
   * and stateless reset token of NEW_CONNECTION_ID.
   */
  function BuildFrame(frameType: int, cid: ByteString, token: ByteString): (f: ByteString)
    requires |cid| == 8 && |token| == 16
    ensures |f| >= 1 && f[0] == frameType % 256
    ensures frameType == 0x18 ==> |f| == 28 && f[4..12] == cid && f[12..] == token
  {
    var body :=
      if frameType == 0x00 || frameType == 0x01 then []
      else if frameType == 0x02 || frameType == 0x03 then
        EncodeVarint(0) + EncodeVarint(0) + EncodeVarint(0) + EncodeVarint(0)
        + (if frameType == 0x03 then EncodeVarint(0) + EncodeVarint(0) + EncodeVarint(0) else [])
      else if frameType == 0x04 then EncodeVarint(0) + EncodeVarint(0) + EncodeVarint(0)
      else if frameType == 0x06 then EncodeVarint(0) + EncodeVarint(4) + Test
      else if 0x08 <= frameType <= 0x0f then
        EncodeVarint(0)
        + (if ByteAnd(frameType, 0x04) != 0 then EncodeVarint(0) else [])
        + (if ByteAnd(frameType, 0x02) != 0 then EncodeVarint(4) else [])
        + Data
      else if frameType == 0x18 then EncodeVarint(1) + EncodeVarint(0) + [8] + cid + token
      else if frameType == 0x1c || frameType == 0x1d then
        EncodeVarint(0) + (if frameType == 0x1c then EncodeVarint(0) else []) + EncodeVarint(0)
      else if 0x10 <= frameType <= 0x17 then EncodeVarint(0)
      else [];
    [Chr(frameType)] + body
  }

  /**
   * The first byte is the frame type for every type that fits a byte, and
   * the frame's length is that of the minimal encoding of each type.
   */
  lemma BuildFrameLayout(frameType: int, cid: ByteString, token: ByteString)
    requires |cid| == 8 && |token| == 16
    ensures var f := BuildFrame(frameType, cid, token);
      && f[0] == frameType % 256
      && |f| == match frameType
        case 0x00 => 1
        case 0x01 => 1
        case 0x02 => 5
        case 0x03 => 8
        case 0x04 => 4
        case 0x06 => 7
        case 0x08 => 6
        case 0x09 => 6
        case 0x0a => 7
        case 0x0b => 7
        case 0x0c => 7
        case 0x0d => 7
        case 0x0e => 8
        case 0x0f => 8
        case 0x18 => 28
        case 0x1c => 4
        case 0x1d => 3
        case _ => if 0x10 <= frameType <= 0x17 then 2 else 1
  {
    if 0x08 <= frameType <= 0x0f {
      var b := frameType as bv8;
      assert ByteAnd(frameType, 0x04) == (b & 0x04) as int;
      assert ByteAnd(frameType, 0x02) == (b & 0x02) as int;
    }
  }

  /** A STREAM frame (section 19.8 of RFC 9000): the optional fields are None when absent. */
  datatype StreamFrame = StreamFrame(frameType: Byte, streamId: nat, offset: Option<nat>, length: Option<nat>, data: ByteString)

  /**
   * Reads a STREAM frame: type 0x08 to 0x0f, the stream id, an offset when
   * bit 0x04 is set, a length when bit 0x02 is set, then that many data
   * bytes (or the rest of the input when no length is present).
   */
  function ParseStreamFrame(b: ByteString): Option<StreamFrame>
  {
    if |b| == 0 || b[0] < 0x08 || b[0] > 0x0f then None
    else
      var hasOffset := (b[0] / 4) % 2 == 1;
      var hasLength := (b[0] / 2) % 2 == 1;
      match DecodeVarint(b[1..])
      case None => None
      case Some((id, n1)) =>
        var p1 := 1 + n1;
        var offset := if hasOffset then DecodeVarint(b[p1..]) else Some((0, 0));
        if offset.None? then None
        else
          var p2 := p1 + offset.value.1;
          var length := if hasLength then DecodeVarint(b[p2..]) else Some((|b| - p2, 0));
          if length.None? then None
          else
            var p3 := p2 + length.value.1;
            if p3 + length.value.0 > |b| then None
            else Some(StreamFrame(b[0], id,
              if hasOffset then Some(offset.value.0) else None,
              if hasLength then Some(length.value.0) else None,
              b[p3..p3 + length.value.0]))
  }

  /**
   * Every STREAM frame `buildFrame` writes is read back with stream id 0,
   * data 'DATA', an offset 0 exactly for types 0x0c to 0x0f and a length 4
   * exactly for types 0x0a, 0x0b, 0x0e and 0x0f.
   */
  lemma StreamFrameFields(frameType: int, cid: ByteString, token: ByteString)
    requires |cid| == 8 && |token| == 16
    requires 0x08 <= frameType <= 0x0f
    ensures ParseStreamFrame(BuildFrame(frameType, cid, token)) == Some(StreamFrame(frameType, 0,
      if frameType in {0x0c, 0x0d, 0x0e, 0x0f} then Some(0) else None,
      if frameType in {0x0a, 0x0b, 0x0e, 0x0f} then Some(4) else None,
      Data))
  {
    StreamTypeBits(frameType);
    StreamFrameBytes(frameType, cid, token);
    ParseStreamLayout(frameType, frameType in {0x0c, 0x0d, 0x0e, 0x0f}, frameType in {0x0a, 0x0b, 0x0e, 0x0f});
  }

  /** The bytes of a STREAM frame: type, stream id 0, the optional offset 0 and length 4, then 'DATA'. */
  lemma StreamFrameBytes(frameType: int, cid: ByteString, token: ByteString)
    requires |cid| == 8 && |token| == 16
    requires 0x08 <= frameType <= 0x0f
    ensures BuildFrame(frameType, cid, token) == [frameType, 0]
      + (if frameType in {0x0c, 0x0d, 0x0e, 0x0f} then [0] else [])
      + (if frameType in {0x0a, 0x0b, 0x0e, 0x0f} then [4] else []) + Data
  {
    StreamTypeBits(frameType);
  }

  /** The STREAM reader on a frame whose OFF and LEN bits match the fields present. */
  lemma ParseStreamLayout(t: Byte, hasOffset: bool, hasLength: bool)
    requires 0x08 <= t <= 0x0f
    requires hasOffset == ((t / 4) % 2 == 1) && hasLength == ((t / 2) % 2 == 1)
    ensures ParseStreamFrame([t, 0] + (if hasOffset then [0] else []) + (if hasLength then [4] else []) + Data)
      == Some(StreamFrame(t, 0, if hasOffset then Some(0) else None, if hasLength then Some(4) else None, Data))
  {
    if hasOffset && hasLength {
      assert [t, 0] + [0] + [4] + Data == [t, 0, 0, 4] + Data;
      ParseStreamWithBoth(t);
    } else if hasOffset {
      assert [t, 0] + [0] + [] + Data == [t, 0, 0] + Data;
      ParseStreamWithOne(t, 0);
    } else if hasLength {
      assert [t, 0] + [] + [4] + Data == [t, 0, 4] + Data;
      ParseStreamWithOne(t, 4);
    } else {
      assert [t, 0] + [] + [] + Data == [t, 0] + Data;
      ParseStreamBare(t);
    }
  }

  /** Type 0x0e or 0x0f: stream id 0, offset 0, length 4, 'DATA'. */
  lemma ParseStreamWithBoth(t: Byte)
    requires 0x08 <= t <= 0x0f && (t / 4) % 2 == 1 && (t / 2) % 2 == 1
    ensures ParseStreamFrame([t, 0, 0, 4] + Data) == Some(StreamFrame(t, 0, Some(0), Some(4), Data))
  {
    var f := [t, 0, 0, 4] + Data;
    assert f[1..] == [0] + f[2..] && f[2..] == [0] + f[3..] && f[3..] == [4] + f[4..];
    DecodeSmall(0, f[2..]);
    DecodeSmall(0, f[3..]);
    DecodeSmall(4, f[4..]);
    assert f[4..8] == Data;
  }

  /**
   * Exactly one of the OFF and LEN bits set: the one field after the stream
   * id is `v` (offset 0, or length 4), then 'DATA'.
   */
  lemma ParseStreamWithOne(t: Byte, v: Byte)
    requires 0x08 <= t <= 0x0f
    requires ((t / 4) % 2 == 1 && (t / 2) % 2 == 0 && v == 0) || ((t / 4) % 2 == 0 && (t / 2) % 2 == 1 && v == 4)
    ensures ParseStreamFrame([t, 0, v] + Data)
      == Some(StreamFrame(t, 0, if v == 0 then Some(0) else None, if v == 4 then Some(4) else None, Data))
  {
    var f := [t, 0, v] + Data;
    assert f[1..] == [0] + f[2..] && f[2..] == [v] + f[3..];
    DecodeSmall(0, f[2..]);
    DecodeSmall(v, f[3..]);
    assert f[3..7] == Data && f[3..|f|] == Data;
  }

  /** Neither OFF nor LEN: stream id 0 and the rest of the frame is the data. */
  lemma ParseStreamBare(t: Byte)
    requires 0x08 <= t <= 0x0f && (t / 4) % 2 == 0 && (t / 2) % 2 == 0
    ensures ParseStreamFrame([t, 0] + Data) == Some(StreamFrame(t, 0, None, None, Data))
  {
    var f := [t, 0] + Data;
    assert f[1..] == [0] + f[2..];
    DecodeSmall(0, f[2..]);
    assert f[2..|f|] == Data;
  }

  /** For the STREAM types, the OFF (0x04) and LEN (0x02) bits, written either way. */
  lemma StreamTypeBits(frameType: int)
    requires 0x08 <= frameType <= 0x0f
    ensures (ByteAnd(frameType, 0x04) != 0) == ((frameType / 4) % 2 == 1) == (frameType in {0x0c, 0x0d, 0x0e, 0x0f})
    ensures (ByteAnd(frameType, 0x02) != 0) == ((frameType / 2) % 2 == 1) == (frameType in {0x0a, 0x0b, 0x0e, 0x0f})
  {
    var b := frameType as bv8;
    assert ByteAnd(frameType, 0x04) == (b & 0x04) as int;
    assert ByteAnd(frameType, 0x02) == (b & 0x02) as int;
  }

  /** A one-byte varint in front of anything decodes to its value in one byte. */
  lemma DecodeSmall(v: int, rest: ByteString)
    requires 0 <= v <= MaxOneByte
    ensures DecodeVarint([v] + rest) == Some((v, 1))
  {
    VarintRoundTrip(v, rest);
  }

  /** A CONNECTION_CLOSE frame (section 19.19 of RFC 9000); `frameType` is None for type 0x1d. */
  datatype CloseFrame = CloseFrame(closeType: Byte, errorCode: nat, frameType: Option<nat>, reason: ByteString)

  /**
   * Reads a CONNECTION_CLOSE frame: type 0x1c or 0x1d, the error code, a
   * frame type only for 0x1c, the reason length and that many reason bytes.
   */
  function ParseCloseFrame(b: ByteString): Option<CloseFrame>
  {
    if |b| == 0 || (b[0] != 0x1c && b[0] != 0x1d) then None
    else
      match DecodeVarint(b[1..])
      case None => None
      case Some((code, n1)) =>
        var p1 := 1 + n1;
        var ft := if b[0] == 0x1c then DecodeVarint(b[p1..]) else Some((0, 0));
        if ft.None? then None
        else
          var p2 := p1 + ft.value.1;
          match DecodeVarint(b[p2..])
          case None => None
          case Some((len, n3)) =>
            var p3 := p2 + n3;
            if p3 + len > |b| then None
            else Some(CloseFrame(b[0], code, if b[0] == 0x1c then Some(ft.value.0) else None, b[p3..p3 + len]))
  }

  /**
   * Both CONNECTION_CLOSE frames `buildFrame` writes are read back with error
   * code 0 and an empty reason; only type 0x1c carries a frame type (0).
   */
  lemma CloseFrameFields(frameType: int, cid: ByteString, token: ByteString)
    requires |cid| == 8 && |token| == 16
    requires frameType == 0x1c || frameType == 0x1d
    ensures ParseCloseFrame(BuildFrame(frameType, cid, token))
      == Some(CloseFrame(frameType, 0, if frameType == 0x1c then Some(0) else None, []))
  {
    CloseFrameBytes(frameType, cid, token);
    if frameType == 0x1c {
      ParseCloseWithType();
    } else {
      ParseCloseWithoutType();
    }
  }

  /** The bytes of both CONNECTION_CLOSE frames: the type, then zero varints. */
  lemma CloseFrameBytes(frameType: int, cid: ByteString, token: ByteString)
    requires |cid| == 8 && |token| == 16
    requires frameType == 0x1c || frameType == 0x1d
    ensures BuildFrame(frameType, cid, token) == if frameType == 0x1c then [0x1c, 0, 0, 0] else [0x1d, 0, 0]
  {
    var zero := EncodeVarint(0);
    assert zero == [0];
  }

  /** Type 0x1c: error code 0, frame type 0, an empty reason. */
  lemma ParseCloseWithType()
    ensures ParseCloseFrame([0x1c, 0, 0, 0]) == Some(CloseFrame(0x1c, 0, Some(0), []))
  {
    var f: ByteString := [0x1c, 0, 0, 0];
    assert f[1..] == [0] + f[2..] && f[2..] == [0] + f[3..] && f[3..] == [0] + f[4..];
    DecodeSmall(0, f[2..]);
    DecodeSmall(0, f[3..]);
    DecodeSmall(0, f[4..]);
    assert f[4..4] == [];
  }

  /** Type 0x1d: error code 0, no frame type, an empty reason. */
  lemma ParseCloseWithoutType()
    ensures ParseCloseFrame([0x1d, 0, 0]) == Some(CloseFrame(0x1d, 0, None, []))
  {
    var f: ByteString := [0x1d, 0, 0];
    assert f[1..] == [0] + f[2..] && f[2..] == [0] + f[3..];
    DecodeSmall(0, f[2..]);
    DecodeSmall(0, f[3..]);
    assert f[3..3] == [];
  }

  // ---------------------------------------------------------------------
  // Version Negotiation
  // ---------------------------------------------------------------------

  /**
   * Where `extractSupportedVersions` starts reading versions: after the
   * five-byte prefix, then past each length-prefixed id while the position
   * is still inside the buffer.
   */
  function VersionListStart(buffer: ByteString): (pos: nat)
    ensures pos >= 5
  {
    var afterDcid: nat := if 5 < |buffer| then 6 + buffer[5] as int else 5;
    if afterDcid < |buffer| then afterDcid + 1 + buffer[afterDcid] as int else afterDcid
  }

  /** The 32-bit big-endian words from `pos` on, as long as four bytes remain. */
  function VersionsFrom(buffer: ByteString, pos: nat): seq<nat>
    decreases |buffer| - pos
  {
    if pos + 4 <= |buffer| then [Word(buffer[pos..pos + 4])] + VersionsFrom(buffer, pos + 4)
    else []
  }

  /** `unpack('N', ...)` of four bytes. */
  function Word(b: ByteString): nat
    requires |b| == 4
  {
    ReadBigEndian(b)
  }

  /**
   * The word list has max(0, (|buffer| - pos) / 4) entries and entry `k` is
   * the big-endian value of bytes `pos + 4k` to `pos + 4k + 4`.
   */
  lemma {:induction false} VersionsFromShape(buffer: ByteString, pos: nat)
    ensures var vs := VersionsFrom(buffer, pos);
      && |vs| == (if pos <= |buffer| then (|buffer| - pos) / 4 else 0)
      && forall k | 0 <= k < |vs| :: pos + 4 * k + 4 <= |buffer| && vs[k] == ReadBigEndian(buffer[pos + 4 * k..pos + 4 * k + 4])
    decreases |buffer| - pos
  {
    if pos + 4 <= |buffer| {
      VersionsFromShape(buffer, pos + 4);
      var vs := VersionsFrom(buffer, pos);
      var tail := VersionsFrom(buffer, pos + 4);
      forall k | 0 <= k < |vs|
        ensures pos + 4 * k + 4 <= |buffer| && vs[k] == ReadBigEndian(buffer[pos + 4 * k..pos + 4 * k + 4])
      {
        if k > 0 {
          assert vs[k] == tail[k - 1];
          assert pos + 4 + 4 * (k - 1) == pos + 4 * k;
        }
      }
    }
  }

  /**
   * `extractSupportedVersions`: skip the prefix and both ids, then read one
   * 32-bit word per remaining four bytes. It never reads past the buffer.
   */
  method ExtractSupportedVersions(buffer: ByteString) returns (versions: seq<nat>)
    ensures versions == VersionsFrom(buffer, VersionListStart(buffer))
  {
    versions := [];
    var pos := 5;
    if pos < |buffer| {
      var dcidLen := buffer[pos];
      pos := pos + 1 + dcidLen;
    }
    if pos < |buffer| {
      var scidLen := buffer[pos];
      pos := pos + 1 + scidLen;
    }
    ghost var start := pos;
    while pos + 4 <= |buffer|
      invariant start <= pos
      invariant versions + VersionsFrom(buffer, pos) == VersionsFrom(buffer, start)
      decreases |buffer| - pos
    {
      var version := ReadBigEndian(buffer[pos..pos + 4]);
      versions := versions + [version];
      pos := pos + 4;
    }
  }

  /** `pack('N', ...)` of each version, concatenated. */
  function PackVersions(versions: seq<nat>): (r: ByteString)
    ensures |r| == 4 * |versions|
  {
    if |versions| == 0 then [] else PackN(versions[0]) + PackVersions(versions[1..])
  }

  /**
   * A Version Negotiation packet (section 17.2.1 of RFC 9000): a long-header
   * first byte, version 0, both ids with their lengths and the supported
   * versions.
   */
  function VersionNegotiationPacket(first: Byte, dcid: ByteString, scid: ByteString, versions: seq<nat>): ByteString
    requires |dcid| < 256 && |scid| < 256
  {
    NegotiationHeader(first, dcid, scid) + PackVersions(versions)
  }

  /** The part of a Version Negotiation packet in front of the version list. */
  function NegotiationHeader(first: Byte, dcid: ByteString, scid: ByteString): ByteString
    requires |dcid| < 256 && |scid| < 256
  {
    [first] + PackN(0) + [|dcid|] + dcid + [|scid|] + scid
  }

  /** Where the two length bytes of the header sit, and how long it is. */
  lemma NegotiationHeaderBytes(first: Byte, dcid: ByteString, scid: ByteString)
    requires |dcid| < 256 && |scid| < 256
    ensures var h := NegotiationHeader(first, dcid, scid);
      |h| == 7 + |dcid| + |scid| && h[5] == |dcid| && h[6 + |dcid|] == |scid|
  {
    var front := [first] + PackN(0) + [|dcid|] + dcid;
    assert |front| == 6 + |dcid| && front[5] == |dcid|;
    assert NegotiationHeader(first, dcid, scid) == front + ([|scid|] + scid);
  }

  /** The word list does not depend on the bytes in front of the reading position. */
  lemma {:induction false} VersionsFromShift(prefix: ByteString, s: ByteString, pos: nat)
    ensures VersionsFrom(prefix + s, |prefix| + pos) == VersionsFrom(s, pos)
    decreases |s| - pos
  {
    var b := prefix + s;
    var q := |prefix| + pos;
    if pos + 4 <= |s| {
      assert b[q..q + 4] == s[pos..pos + 4];
      VersionsFromShift(prefix, s, pos + 4);
      assert VersionsFrom(b, q) == [Word(b[q..q + 4])] + VersionsFrom(b, q + 4);
    } else {
      assert VersionsFrom(b, q) == [];
    }
  }

  /** Reading the words of `PackVersions(versions)` gives back every 32-bit version. */
  lemma {:induction false} VersionsFromPacked(versions: seq<nat>)
    requires forall k | 0 <= k < |versions| :: versions[k] < 0x1_0000_0000
    ensures VersionsFrom(PackVersions(versions), 0) == versions
    decreases |versions|
  {
    if |versions| > 0 {
      var v := versions[0];
      var head := PackN(v);
      var rest := PackVersions(versions[1..]);
      var b := head + rest;
      assert PackVersions(versions) == b;
      assert b[0..4] == head;
      assert Word(b[0..4]) == v by {
        ReadPackN(v);
      }
      assert VersionsFrom(b, 4) == VersionsFrom(rest, 0) by {
        VersionsFromShift(head, rest, 0);
      }
      assert VersionsFrom(rest, 0) == versions[1..] by {
        VersionsFromPacked(versions[1..]);
      }
      assert VersionsFrom(b, 0) == [v] + versions[1..];
    }
  }

  /**
   * On a Version Negotiation packet, the reader skips exactly the two ids and
   * returns the advertised versions in order.
   */
  lemma VersionNegotiationRoundTrip(first: Byte, dcid: ByteString, scid: ByteString, versions: seq<nat>)
    requires |dcid| < 256 && |scid| < 256
    requires forall k | 0 <= k < |versions| :: versions[k] < 0x1_0000_0000
    ensures var p := VersionNegotiationPacket(first, dcid, scid, versions);
      && VersionListStart(p) == 7 + |dcid| + |scid|
      && VersionsFrom(p, VersionListStart(p)) == versions
  {
    var header := NegotiationHeader(first, dcid, scid);
    var packed := PackVersions(versions);
    var p := header + packed;
    NegotiationHeaderBytes(first, dcid, scid);
    assert p[5] == header[5] && p[6 + |dcid|] == header[6 + |dcid|];
    assert VersionListStart(p) == |header|;
    VersionsFromPacked(versions);
    VersionsFromShift(header, packed, 0);
  }
}
