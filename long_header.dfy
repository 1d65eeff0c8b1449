/**
 * A reader for the invariant part of a long-header packet (section 17.2 of
 * RFC 9000): first byte, four-byte version, then the destination and source
 * connection ids, each preceded by its one-byte length. Version 1 limits each
 * connection id to 20 bytes. The packet builders of the integration tests are
 * checked against it.
 */
module LongHeaders {
  import opened Wrappers
  import opened Bytes

  const MaxCidLength := 20

  datatype LongHeader = LongHeader(first: Byte, version: nat, dcid: ByteString, scid: ByteString, rest: ByteString)

  /** None when the header form bit is clear, a length exceeds 20 or the input ends early. */
  function ParseLongHeader(b: ByteString): Option<LongHeader>
  {
    if |b| < 6 || b[0] < 0x80 then None
    else
      var dl := b[5];
      if dl > MaxCidLength || |b| < 7 + dl then None
      else
        var sl := b[6 + dl];
        if sl > MaxCidLength || |b| < 7 + dl + sl then None
        else Some(LongHeader(b[0], ReadBigEndian(b[1..5]), b[6..6 + dl], b[7 + dl..7 + dl + sl], b[7 + dl + sl..]))
  }

  /** Whatever the reader accepts is laid out as a long header with ids of at most 20 bytes. */
  lemma ParseLongHeaderSound(b: ByteString)
    requires ParseLongHeader(b).Some?
    ensures var h := ParseLongHeader(b).value;
      && h.first >= 0x80 && |h.dcid| <= MaxCidLength && |h.scid| <= MaxCidLength
      && b == [h.first] + PackN(h.version) + [|h.dcid|] + h.dcid + [|h.scid|] + h.scid + h.rest
  {
    var dl := b[5];
    var sl := b[6 + dl];
    PackNOfRead(b[1..5]);
    assert b == [b[0]] + b[1..5] + [dl] + b[6..6 + dl] + [sl] + b[7 + dl..7 + dl + sl] + b[7 + dl + sl..];
  }

  /** The header the builders write, read back: the reader recovers every field. */
  lemma ParseLongHeaderOf(first: Byte, version: int, dcid: ByteString, scid: ByteString, rest: ByteString)
    requires first >= 0x80 && |dcid| <= MaxCidLength && |scid| <= MaxCidLength
    ensures ParseLongHeader([first] + PackN(version) + [|dcid|] + dcid + [|scid|] + scid + rest)
      == Some(LongHeader(first, version % 0x1_0000_0000, dcid, scid, rest))
  {
    var b := [first] + PackN(version) + [|dcid|] + dcid + [|scid|] + scid + rest;
    var dl := |dcid|;
    assert b[1..5] == PackN(version);
    ReadPackN(version);
    assert b[5] == dl;
    assert b[6..6 + dl] == dcid;
    assert b[6 + dl] == |scid|;
    assert b[7 + dl..7 + dl + |scid|] == scid;
    assert b[7 + dl + |scid|..] == rest;
  }

  /** A byte string that starts with a well-formed long header is read as that header, whatever follows it. */
  lemma ParseLongHeaderPrefix(b: ByteString, first: Byte, version: int, dcid: ByteString, scid: ByteString)
    requires first >= 0x80 && |dcid| <= MaxCidLength && |scid| <= MaxCidLength
    requires 7 + |dcid| + |scid| <= |b|
    requires b[..7 + |dcid| + |scid|] == [first] + PackN(version) + [|dcid|] + dcid + [|scid|] + scid
    ensures ParseLongHeader(b) == Some(LongHeader(first, version % 0x1_0000_0000, dcid, scid, b[7 + |dcid| + |scid|..]))
  {
    var k := 7 + |dcid| + |scid|;
    assert b == b[..k] + b[k..];
    ParseLongHeaderOf(first, version, dcid, scid, b[k..]);
  }
}
