/**
 * The variable-length integer encoding of section 16 of RFC 9000, as the
 * integration tests' `encodeVariableLengthInteger` helper writes it: the two
 * top bits of the first byte give the length (00 one byte, 01 two, 10 four,
 * 11 eight) and the remaining bits hold the value big-endian.
 */
module Varints {
  import opened Wrappers
  import opened Bytes

  /** The largest values of the one-, two- and four-byte forms. */
  const MaxOneByte := 63
  const MaxTwoBytes := 16383
  const MaxFourBytes := 1073741823

  /**
   * `encodeVariableLengthInteger` for values up to 2^30 - 1 (its eight-byte
   * branch is not modelled). A value at most 63 goes through `chr`, so a
   * negative value is reduced to its low eight bits like any other.
   */
  function EncodeVarint(v: int): (r: ByteString)
    requires v <= MaxFourBytes
    ensures |r| == if v <= MaxOneByte then 1 else if v <= MaxTwoBytes then 2 else 4
  {
    if v <= MaxOneByte then [Chr(v)]
    else if v <= MaxTwoBytes then Packn(0x4000 + v)
    else PackN(0x8000_0000 + v)
  }

  /** The number of bytes announced by a first byte's two top bits. */
  function VarintLength(first: Byte): (n: nat)
    ensures n == 1 || n == 2 || n == 4 || n == 8
  {
    match first / 64
    case 0 => 1
    case 1 => 2
    case 2 => 4
    case _ => 8
  }

  /**
   * The reference decoder of section 16 of RFC 9000: the value and the number
   * of bytes it took, or None when the input is shorter than the announced form.
   */
  function DecodeVarint(b: ByteString): Option<(nat, nat)>
  {
    if |b| == 0 then None
    else
      var n := VarintLength(b[0]);
      if |b| < n then None
      else Some((ReadBigEndian([b[0] % 64] + b[1..n]), n))
  }

  /** The two top bits of the first byte are 00, 01 or 10 for the one-, two- and four-byte forms. */
  lemma VarintPrefix(v: int)
    requires 0 <= v <= MaxFourBytes
    ensures EncodeVarint(v)[0] / 64 == if v <= MaxOneByte then 0 else if v <= MaxTwoBytes then 1 else 2
  {
    if MaxOneByte < v <= MaxTwoBytes {
      TaggedForm(1, v, 2);
    } else if MaxTwoBytes < v {
      TaggedForm(2, v, 4);
    }
  }

  /**
   * Decoding an encoded value gives it back with the length used, whatever
   * follows it.
   */
  lemma VarintRoundTrip(v: int, rest: ByteString)
    requires 0 <= v <= MaxFourBytes
    ensures DecodeVarint(EncodeVarint(v) + rest) == Some((v, |EncodeVarint(v)|))
  {
    var e := EncodeVarint(v);
    var b := e + rest;
    assert b[0] == e[0];
    assert b[1..|e|] == e[1..];
    if v <= MaxOneByte {
      assert [b[0] % 64] + b[1..1] == [v];
      ReadBigEndianAppend([], [v]);
    } else if v <= MaxTwoBytes {
      TaggedForm(1, v, 2);
    } else {
      TaggedForm(2, v, 4);
    }
  }

  /**
   * The `n`-byte form with length tag `tag`: the big-endian bytes of
   * `tag * 64 * 256^(n-1) + v` for a `v` that fits the remaining bits carry the
   * tag in the first byte's top bits and `v` in the rest.
   */
  lemma TaggedForm(tag: nat, v: int, n: nat)
    requires 1 <= tag <= 2 && n >= 2 && 0 <= v < 64 * Pow256(n - 1)
    requires tag * 64 * Pow256(n - 1) + v == (if n == 2 then 0x4000 + v else 0x8000_0000 + v)
    requires n == 2 || n == 4
    ensures var b := BigEndian(tag * 64 * Pow256(n - 1) + v, n);
      && b[0] / 64 == tag
      && ReadBigEndian([b[0] % 64] + b[1..]) == v
  {
    var p := Pow256(n - 1);
    var x := tag * 64 * p + v;
    var b := BigEndian(x, n);
    assert Pow256(n) == 256 * p;
    FirstByteSplit(x, n);
    TagSplit(b[0], ReadBigEndian(b[1..]), p, tag, v);
    ReadBigEndianAppend([b[0] % 64], b[1..]);
    ReadBigEndianAppend([], [b[0] % 64]);
  }

  /** The first byte of an `n`-byte big-endian value counts 256^(n-1) times. */
  lemma FirstByteSplit(x: int, n: nat)
    requires n >= 1 && 0 <= x < Pow256(n)
    ensures var b := BigEndian(x, n);
      && x == b[0] * Pow256(n - 1) + ReadBigEndian(b[1..])
      && ReadBigEndian(b[1..]) < Pow256(n - 1)
  {
    var b := BigEndian(x, n);
    ReadBigEndianOfBigEndian(x, n);
    ModUnique(x, Pow256(n), 0, x);
    assert b == [b[0]] + b[1..];
    ReadBigEndianAppend([b[0]], b[1..]);
    ReadBigEndianAppend([], [b[0]]);
    ReadBigEndianBound(b[1..]);
  }

  /** A byte `f` with `f * p + r == tag * 64 * p + v` (r and v in range) carries `tag` in its top bits. */
  lemma TagSplit(f: int, r: int, p: int, tag: int, v: int)
    requires 0 <= f < 256 && p > 0 && 0 <= r < p && 0 <= v < 64 * p
    requires f * p + r == tag * 64 * p + v
    ensures f / 64 == tag && (f % 64) * p + r == v
  {
    var q, h := f / 64, f % 64;
    var big := 64 * p;
    calc {
      f * p;
      (64 * q + h) * p;
      { assert (64 * q + h) * p == 64 * q * p + h * p; }
      64 * q * p + h * p;
      { assert 64 * q * p == q * big; }
      q * big + h * p;
    }
    assert tag * 64 * p == tag * big;
    assert 0 <= h * p;
    MulLess(h, 64, p);
    QuotientUnique(q, h * p + r, tag, v, big);
  }

  /** Quotient and remainder by `d` are unique. */
  lemma QuotientUnique(q: int, s: int, q': int, s': int, d: int)
    requires d > 0 && 0 <= s < d && 0 <= s' < d && q * d + s == q' * d + s'
    ensures q == q' && s == s'
  {
    if q < q' {
      MulLess(q, q', d);
    } else if q > q' {
      MulLess(q', q, d);
    }
  }

  /** Multiplying both sides of a strict inequality by the same positive factor. */
  lemma MulLess(a: int, b: int, p: int)
    requires a < b && p > 0
    ensures a * p + p <= b * p
  {
    assert b * p - a * p == (b - a) * p;
    MulAtLeast(p, b - a);
  }
}
