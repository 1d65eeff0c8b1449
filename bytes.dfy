/**
 * PHP byte strings and the two `pack` formats the core uses: 'N' (32-bit
 * big-endian) and 'n' (16-bit big-endian), plus `chr`. PHP integers are
 * 64-bit two's complement; every operation here keeps only the low bits,
 * which for Dafny's unbounded integers is Euclidean `%` by a power of 256.
 */
module Bytes {

  type Byte = b: int | 0 <= b < 256

  type ByteString = seq<Byte>

  /** 256^n. */
  function Pow256(n: nat): (p: nat)
    ensures p >= 1
  {
    if n == 0 then 1 else 256 * Pow256(n - 1)
  }

  /** PHP `chr($v)`: the argument is reduced to its low eight bits. */
  function Chr(v: int): (b: Byte)
    ensures 0 <= v < 256 ==> b == v
  {
    v % 256
  }

  /** PHP `$a | $b` on two byte values. */
  function ByteOr(a: Byte, b: Byte): Byte
  {
    ((a as bv8) | (b as bv8)) as int
  }

  /** PHP `$a & $b` on two byte values. */
  function ByteAnd(a: Byte, b: Byte): Byte
  {
    ((a as bv8) & (b as bv8)) as int
  }

  /** PHP `str_repeat("\x00", n)`. */
  function Zeros(n: nat): (r: ByteString)
    ensures |r| == n && forall i | 0 <= i < n :: r[i] == 0
  {
    seq(n, _ => 0)
  }

  /** PHP `str_pad($s, n, "\x00")`: zeros appended up to length `n`; a longer string is kept as is. */
  function PadZeros(s: ByteString, n: nat): (r: ByteString)
    ensures |r| == if |s| >= n then |s| else n
    ensures r[..|s|] == s
    ensures forall i | |s| <= i < |r| :: r[i] == 0
  {
    if |s| >= n then s else s + Zeros(n - |s|)
  }

  /** The low `n` bytes of `v`, most significant first (`pack('N')` is n = 4, `pack('n')` is n = 2). */
  function BigEndian(v: int, n: nat): (r: ByteString)
    ensures |r| == n
    decreases n
  {
    if n == 0 then [] else BigEndian(v / 256, n - 1) + [v % 256]
  }

  /** Reads a big-endian unsigned integer (PHP `unpack('N', ...)` for four bytes). */
  function ReadBigEndian(s: ByteString): (v: nat)
  {
    if |s| == 0 then 0 else 256 * ReadBigEndian(s[..|s| - 1]) + s[|s| - 1]
  }

  function PackN(v: int): (r: ByteString) ensures |r| == 4 { BigEndian(v, 4) }

  function Packn(v: int): (r: ByteString) ensures |r| == 2 { BigEndian(v, 2) }

  /** Reading back `n` packed bytes gives the value reduced modulo 256^n. */
  lemma {:induction false} ReadBigEndianOfBigEndian(v: int, n: nat)
    ensures ReadBigEndian(BigEndian(v, n)) == v % Pow256(n)
    decreases n
  {
    if n > 0 {
      var s := BigEndian(v, n);
      assert s[..|s| - 1] == BigEndian(v / 256, n - 1);
      ReadBigEndianOfBigEndian(v / 256, n - 1);
      DivModPow(v, n - 1);
    }
  }

  /** `unpack('N', pack('N', v))` is `v` modulo 2^32. */
  lemma ReadPackN(v: int)
    ensures ReadBigEndian(PackN(v)) == v % 0x1_0000_0000
  {
    ReadBigEndianOfBigEndian(v, 4);
    assert Pow256(4) == 0x1_0000_0000;
  }

  /** `unpack('n', pack('n', v))` is `v` for every 16-bit `v`. */
  lemma ReadPackn(v: int)
    requires 0 <= v < 0x1_0000
    ensures ReadBigEndian(Packn(v)) == v
  {
    ReadBigEndianOfBigEndian(v, 2);
    assert Pow256(2) == 0x1_0000;
  }

  /** (v / 256) % 256^k * 256 + v % 256 == v % 256^(k+1). */
  lemma DivModPow(v: int, k: nat)
    ensures 256 * ((v / 256) % Pow256(k)) + v % 256 == v % Pow256(k + 1)
  {
    var p := Pow256(k);
    var q := v / 256;
    var r := v % 256;
    assert v == 256 * q + r;
    var q1 := q / p;
    var r1 := q % p;
    assert q == p * q1 + r1;
    assert v == 256 * p * q1 + (256 * r1 + r);
    assert 0 <= 256 * r1 + r < 256 * p;
    assert Pow256(k + 1) == 256 * p;
    ModUnique(v, 256 * p, q1, 256 * r1 + r);
  }

  lemma ModUnique(v: int, d: int, q: int, r: int)
    requires d > 0 && v == d * q + r && 0 <= r < d
    ensures v % d == r
  {
    var q0, r0 := v / d, v % d;
    assert d * (q - q0) == r0 - r;
    if q > q0 {
      MulAtLeast(d, q - q0);
    } else if q < q0 {
      MulAtLeast(d, q0 - q);
    }
  }

  lemma MulAtLeast(d: int, k: int)
    requires d > 0 && k >= 1
    ensures d * k >= d
  {
  }

  /** A big-endian read never exceeds the range of its width. */
  lemma {:induction false} ReadBigEndianBound(s: ByteString)
    ensures ReadBigEndian(s) < Pow256(|s|)
  {
    if |s| > 0 {
      ReadBigEndianBound(s[..|s| - 1]);
    }
  }

  /** Reading a concatenation: the front part counts 256^|t| times over. */
  lemma {:induction false} ReadBigEndianAppend(s: ByteString, t: ByteString)
    ensures ReadBigEndian(s + t) == ReadBigEndian(s) * Pow256(|t|) + ReadBigEndian(t)
  {
    if |t| > 0 {
      var t' := t[..|t| - 1];
      assert (s + t)[..|s + t| - 1] == s + t';
      ReadBigEndianAppend(s, t');
      assert ReadBigEndian(s + t) == 256 * ReadBigEndian(s + t') + t[|t| - 1];
      assert ReadBigEndian(t) == 256 * ReadBigEndian(t') + t[|t| - 1];
      assert Pow256(|t|) == 256 * Pow256(|t'|);
      ShiftDigit(ReadBigEndian(s), Pow256(|t'|), ReadBigEndian(t'), t[|t| - 1]);
    } else {
      assert s + t == s;
    }
  }

  /** Appending one digit to `a * p + b` in base 256. */
  lemma ShiftDigit(a: int, p: int, b: int, c: int)
    ensures 256 * (a * p + b) + c == a * (256 * p) + (256 * b + c)
  {
  }

  /** Padding keeps whatever prefix the padded string had. */
  lemma PadZerosPrefix(s: ByteString, k: nat, n: nat)
    requires k <= |s|
    ensures PadZeros(s, n)[..k] == s[..k]
  {
    var r := PadZeros(s, n);
    assert r[..k] == r[..|s|][..k];
  }

  /** Writing back what was read gives the same bytes. */
  lemma {:induction false} BigEndianOfRead(s: ByteString)
    ensures BigEndian(ReadBigEndian(s), |s|) == s
  {
    if |s| > 0 {
      var s' := s[..|s| - 1];
      var v := ReadBigEndian(s);
      assert v == 256 * ReadBigEndian(s') + s[|s| - 1];
      assert v / 256 == ReadBigEndian(s') && v % 256 == s[|s| - 1];
      BigEndianOfRead(s');
    }
  }

  lemma PackNOfRead(s: ByteString)
    requires |s| == 4
    ensures PackN(ReadBigEndian(s)) == s
  {
    BigEndianOfRead(s);
  }
}
