/**
 * The packet builders of the boundary integration test. Each one appends to
 * a byte string and pads it with zeros to the 1200-byte minimum of section
 * 14.1 of RFC 9000. The bytes `random_bytes` would supply are parameters.
 */
module BoundaryPackets {
  import opened Wrappers
  import opened Bytes
  import opened Varints
  import opened LongHeaders

  /** The size every builder pads to. */
  const PaddedSize := 1200

  /** `chr(8) . random_bytes(8)`: an eight-byte connection id with its length byte. */
  function Cid8(cid: ByteString): ByteString
    requires |cid| == 8
  {
    [8] + cid
  }

  /**
   * `buildPacketWithCidLength`: an Initial-typed long header whose DCID length
   * byte is `chr($length)`, followed by `$length` id bytes (none unless
   * positive), an eight-byte SCID, an empty token, the remaining length as a
   * varint and a zero packet number.
   */
  function PacketWithCidLength(length: int, dcid: ByteString, scid: ByteString): (p: ByteString)
    requires |dcid| == (if length > 0 then length else 0) && |scid| == 8
    ensures |p| >= PaddedSize && p[0] == 0xc0 && p[5] == Chr(length)
  {
    var head := [0xc0] + PackN(1) + [Chr(length)] + dcid + Cid8(scid) + [0];
    PadZeros(head + EncodeVarint(PaddedSize - |head| - 2) + [0], PaddedSize)
  }

  /**
   * For every valid length (0 to 20) the packet is exactly 1200 bytes, starts
   * with 0xc0 and version 1, has the length at byte 5 and the SCID length 8
   * right after the DCID; the long-header reader recovers both ids.
   */
  lemma CidLengthLayout(length: int, dcid: ByteString, scid: ByteString)
    requires 0 <= length <= MaxCidLength && |dcid| == length && |scid| == 8
    ensures var p := PacketWithCidLength(length, dcid, scid);
      && |p| == PaddedSize
      && p[0] == 0xc0 && p[5] == length && p[6 + length] == 8
      && ParseLongHeader(p) == Some(LongHeader(0xc0, 1, dcid, scid, p[15 + length..]))
  {
    var p := PacketWithCidLength(length, dcid, scid);
    var pre := [0xc0] + PackN(1) + [|dcid|] + dcid + [|scid|] + scid;
    CidLengthPrefix(length, dcid, scid);
    assert p[0] == pre[0] && p[5] == pre[5] && p[6 + length] == pre[6 + length];
    ParseLongHeaderPrefix(p, 0xc0, 1, dcid, scid);
  }

  /** The packet starts with the long header the builder wrote and is padded to 1200 bytes. */
  lemma CidLengthPrefix(length: int, dcid: ByteString, scid: ByteString)
    requires 0 <= length <= MaxCidLength && |dcid| == length && |scid| == 8
    ensures var p := PacketWithCidLength(length, dcid, scid);
      && |p| == PaddedSize
      && p[..15 + length] == [0xc0] + PackN(1) + [|dcid|] + dcid + [|scid|] + scid
  {
    var pre := [0xc0] + PackN(1) + [|dcid|] + dcid + [|scid|] + scid;
    var head := [0xc0] + PackN(1) + [Chr(length)] + dcid + Cid8(scid) + [0];
    assert head == pre + [0];
    var varint := EncodeVarint(PaddedSize - |head| - 2);
    assert |varint| == 2;
    assert head + varint + [0] == pre + ([0] + varint + [0]);
    PaddedPrefix(pre, [0] + varint + [0]);
  }

  /** Padding a string no longer than 1200 bytes gives 1200 bytes that start with it. */
  lemma PaddedPrefix(pre: ByteString, tail: ByteString)
    requires |pre| + |tail| <= PaddedSize
    ensures var p := PadZeros(pre + tail, PaddedSize);
      && |p| == PaddedSize && p[..|pre|] == pre
  {
    PadZerosPrefix(pre + tail, |pre|, PaddedSize);
    assert (pre + tail)[..|pre|] == pre;
  }

  /**
   * `buildPacketWithInvalidCidLength`: the length byte is `$length & 0xFF`,
   * but at most 20 id bytes follow it.
   */
  function PacketWithInvalidCidLength(length: int, dcid: ByteString, scid: ByteString): (p: ByteString)
    requires |dcid| == (if length <= 0 then 0 else if length < MaxCidLength then length else MaxCidLength)
    requires |scid| == 8
    ensures |p| == PaddedSize && p[0] == 0xc0 && p[5] == length % 256
  {
    var head := [0xc0] + PackN(1) + [length % 256] + dcid + Cid8(scid) + [0];
    PadZeros(head, PaddedSize)
  }

  /**
   * The declared length is the low byte of `length`, only min(length, 20) id
   * bytes are written, the packet is padded to 1200 bytes, and a declared
   * length above 20 makes the long-header reader reject the packet.
   */
  lemma InvalidCidLengthLayout(length: int, dcid: ByteString, scid: ByteString)
    requires |dcid| == (if length <= 0 then 0 else if length < MaxCidLength then length else MaxCidLength)
    requires |scid| == 8
    ensures var p := PacketWithInvalidCidLength(length, dcid, scid);
      && |p| == PaddedSize
      && p[5] == length % 256
      && p[6..6 + |dcid|] == dcid && p[6 + |dcid|] == 8
      && (length % 256 > MaxCidLength ==> ParseLongHeader(p) == None)
  {
    var head := [0xc0] + PackN(1) + [length % 256] + dcid + Cid8(scid) + [0];
    var p := PacketWithInvalidCidLength(length, dcid, scid);
    assert p[..|head|] == head;
  }

  /**
   * `buildPacketWithPacketNumber`: the first byte is `0xc0 | ($length - 1)`,
   * then version 1, two eight-byte ids, an empty token, the remaining length
   * and the packet number in `$length` bytes for a length of 1, 2 or 4 (no
   * packet number bytes for any other length).
   */
  function PacketWithPacketNumber(pn: int, length: int, dcid: ByteString, scid: ByteString): (p: ByteString)
    requires |dcid| == 8 && |scid| == 8
    requires PaddedSize - 26 - length <= MaxFourBytes
    ensures |p| >= PaddedSize && p[1..5] == PackN(1) && p[23] == 0
  {
    var head := [ByteOr(0xc0, Chr(length - 1))] + PackN(1) + Cid8(dcid) + Cid8(scid) + [0];
    var number :=
      if length == 1 then [Chr(pn % 256)]
      else if length == 2 then Packn(pn % 0x1_0000)
      else if length == 4 then PackN(pn)
      else [];
    assert |head| == 24 && head[1..5] == PackN(1) && head[23] == 0;
    var body := head + EncodeVarint(PaddedSize - |head| - 2 - length) + number;
    assert body[..24] == head;
    PadZeros(body, PaddedSize)
  }

  /**
   * For a length of 1, 2 or 4 the first byte is 0xc0 plus length - 1, the
   * packet number field sits at bytes 26 to 26 + length and reads back as the
   * packet number modulo 2^(8 * length), and the packet is 1200 bytes.
   */
  lemma PacketNumberLayout(pn: int, length: int, dcid: ByteString, scid: ByteString)
    requires |dcid| == 8 && |scid| == 8
    requires length == 1 || length == 2 || length == 4
    ensures var p := PacketWithPacketNumber(pn, length, dcid, scid);
      && |p| == PaddedSize
      && p[0] == 0xc0 + length - 1
      && ReadBigEndian(p[26..26 + length]) == pn % Pow256(length)
  {
    var head := [ByteOr(0xc0, Chr(length - 1))] + PackN(1) + Cid8(dcid) + Cid8(scid) + [0];
    var number :=
      if length == 1 then [Chr(pn % 256)]
      else if length == 2 then Packn(pn % 0x1_0000)
      else PackN(pn);
    FieldAfterHeader(head, EncodeVarint(PaddedSize - |head| - 2 - length), number);
    FirstByteOr(length - 1);
    NumberField(pn, length, number);
  }

  /** `0xc0 | n` for the encoded packet number lengths 0, 1 and 3. */
  lemma FirstByteOr(n: int)
    requires n == 0 || n == 1 || n == 3
    ensures ByteOr(0xc0, Chr(n)) == 0xc0 + n
  {
    var b := Chr(n) as bv8;
    assert (0xc0 as bv8 | b) == 0xc0 + b;
  }

  /** The packet number field reads back as the packet number modulo 2^(8 * length). */
  lemma NumberField(pn: int, length: int, number: ByteString)
    requires length == 1 || length == 2 || length == 4
    requires number == if length == 1 then [Chr(pn % 256)] else if length == 2 then Packn(pn % 0x1_0000) else PackN(pn)
    ensures |number| == length && ReadBigEndian(number) == pn % Pow256(length)
  {
    if length == 1 {
      ReadBigEndianAppend([], number);
    } else if length == 2 {
      ReadPackn(pn % 0x1_0000);
      assert Pow256(2) == 0x1_0000;
    } else {
      ReadPackN(pn);
      assert Pow256(4) == 0x1_0000_0000;
    }
  }

  /** In a padded packet with a 24-byte header and a two-byte length, the field written next sits at byte 26. */
  lemma FieldAfterHeader(head: ByteString, len: ByteString, field: ByteString)
    requires |head| == 24 && |len| == 2 && |field| <= 4
    ensures var p := PadZeros(head + len + field, PaddedSize);
      && |p| == PaddedSize && p[0] == head[0] && p[26..26 + |field|] == field
  {
    var body := head + len + field;
    var p := PadZeros(body, PaddedSize);
    assert p[26..26 + |field|] == p[..|body|][26..];
  }

  /**
   * `buildPacketWithReservedBits`: the first byte is `0xc0 | ($reservedBits & 0x0C)`;
   * the rest is the usual Initial layout padded to 1200 bytes.
   */
  function PacketWithReservedBits(reservedBits: int, dcid: ByteString, scid: ByteString): (p: ByteString)
    requires |dcid| == 8 && |scid| == 8
    ensures |p| == PaddedSize && p[1..5] == PackN(1) && p[23] == 0
  {
    var head := [ByteOr(0xc0, ByteAnd(Chr(reservedBits), 0x0C))] + PackN(1) + Cid8(dcid) + Cid8(scid) + [0];
    var body := head + EncodeVarint(PaddedSize - |head| - 2) + [0];
    assert body[1..5] == PackN(1) && body[23] == 0;
    PadZeros(body, PaddedSize)
  }

  /**
   * The first byte differs from 0xc0 only within the reserved-bit mask 0x0C,
   * and those two bits are the matching bits of `reservedBits`.
   */
  lemma ReservedBitsLayout(reservedBits: int, dcid: ByteString, scid: ByteString)
    requires |dcid| == 8 && |scid| == 8
    ensures var p := PacketWithReservedBits(reservedBits, dcid, scid);
      && |p| == PaddedSize
      && ByteAnd(p[0], 0xF3) == 0xc0
      && ByteAnd(p[0], 0x0C) == ByteAnd(Chr(reservedBits), 0x0C)
  {
    var p := PacketWithReservedBits(reservedBits, dcid, scid);
    var r := Chr(reservedBits) as bv8;
    assert ((0xc0 | (r & 0x0C)) & 0xF3) == 0xc0;
    assert ((0xc0 | (r & 0x0C)) & 0x0C) == r & 0x0C;
  }
}
