/**
 * `PathManager::getPathKey`: the string `"{local}:{lport}-{remote}:{rport}"`
 * (`sprintf('%s:%d-%s:%d', ...)`). The path tables are keyed by this string,
 * as in the source; this module states when the key identifies the 4-tuple
 * and exhibits two tuples it confuses.
 */
module PathKeys {

  function DigitChar(d: int): (c: char)
    requires 0 <= d < 10
    ensures '0' <= c <= '9'
  {
    (d + '0' as int) as char
  }

  function DigitValue(c: char): int
  {
    c as int - '0' as int
  }

  /** `%d` of a non-negative integer. */
  function NatToDecimal(n: nat): (s: string)
    ensures |s| >= 1
    ensures forall i :: 0 <= i < |s| ==> '0' <= s[i] <= '9'
  {
    if n < 10 then [DigitChar(n)] else NatToDecimal(n / 10) + [DigitChar(n % 10)]
  }

  /** `%d` of any integer: a minus sign before the magnitude when negative. */
  function IntToDecimal(i: int): string
  {
    if i < 0 then "-" + NatToDecimal(-i) else NatToDecimal(i)
  }

  /** Reads a string of decimal digits. */
  function ParseDecimal(s: string): int
  {
    if |s| == 0 then 0 else 10 * ParseDecimal(s[..|s| - 1]) + DigitValue(s[|s| - 1])
  }

  lemma {:induction false} ParseNatToDecimal(n: nat)
    ensures ParseDecimal(NatToDecimal(n)) == n
  {
    if n >= 10 {
      var s := NatToDecimal(n);
      assert s[..|s| - 1] == NatToDecimal(n / 10);
      ParseNatToDecimal(n / 10);
    }
  }

  /** One "{address}:{port}" half of the key. */
  function Endpoint(address: string, port: int): string
  {
    address + ":" + IntToDecimal(port)
  }

  function PathKey(localAddress: string, localPort: int, remoteAddress: string, remotePort: int): (key: string)
    ensures |key| > |localAddress| && key[..|localAddress|] == localAddress && key[|localAddress|] == ':'
    ensures '-' in key
  {
    Endpoint(localAddress, localPort) + "-" + Endpoint(remoteAddress, remotePort)
  }

  /** The key of two different tuples can coincide: both render as "a:1-b:2-c:3". */
  lemma PathKeyCollision()
    ensures PathKey("a", 1, "b:2-c", 3) == PathKey("a:1-b", 2, "c", 3)
    ensures ("a", 1, "b:2-c", 3) != ("a:1-b", 2, "c", 3)
  {
    assert NatToDecimal(1) == "1" && NatToDecimal(2) == "2" && NatToDecimal(3) == "3";
  }

  /** The number of characters before the first `c` (all of them when there is none). */
  function CountBefore(s: string, c: char): nat
  {
    if |s| == 0 || s[0] == c then 0 else 1 + CountBefore(s[1..], c)
  }

  /** The number of characters after the last `c` (all of them when there is none). */
  function CountAfter(s: string, c: char): nat
  {
    if |s| == 0 || s[|s| - 1] == c then 0 else 1 + CountAfter(s[..|s| - 1], c)
  }

  lemma {:induction false} CountBeforeSeparator(x: string, y: string, c: char)
    requires c !in x
    ensures CountBefore(x + [c] + y, c) == |x|
  {
    if |x| > 0 {
      assert (x + [c] + y)[1..] == x[1..] + [c] + y;
      CountBeforeSeparator(x[1..], y, c);
    }
  }

  lemma {:induction false} CountAfterSeparator(x: string, y: string, c: char)
    requires c !in y
    ensures CountAfter(x + [c] + y, c) == |y|
  {
    if |y| > 0 {
      assert (x + [c] + y)[..|x + [c] + y| - 1] == x + [c] + y[..|y| - 1];
      CountAfterSeparator(x, y[..|y| - 1], c);
    }
  }

  /** Splitting at the first occurrence of a separator is unique. */
  lemma SplitAtFirst(x1: string, y1: string, x2: string, y2: string, c: char)
    requires x1 + [c] + y1 == x2 + [c] + y2
    requires c !in x1 && c !in x2
    ensures x1 == x2 && y1 == y2
  {
    var s := x1 + [c] + y1;
    CountBeforeSeparator(x1, y1, c);
    CountBeforeSeparator(x2, y2, c);
    assert x1 == s[..|x1|] == x2;
    assert y1 == s[|x1| + 1..] == y2;
  }

  /** Splitting at the last occurrence of a separator is unique. */
  lemma SplitAtLast(x1: string, y1: string, x2: string, y2: string, c: char)
    requires x1 + [c] + y1 == x2 + [c] + y2
    requires c !in y1 && c !in y2
    ensures x1 == x2 && y1 == y2
  {
    var s := x1 + [c] + y1;
    CountAfterSeparator(x1, y1, c);
    CountAfterSeparator(x2, y2, c);
    assert x1 == s[..|x1|] == x2;
    assert y1 == s[|x1| + 1..] == y2;
  }

  lemma DigitsOnly(n: nat, c: char)
    requires c < '0' || '9' < c
    ensures c !in NatToDecimal(n)
  {
    var d := NatToDecimal(n);
    assert forall i | 0 <= i < |d| :: d[i] != c;
  }

  /** One half determines its address and port when the port is not negative. */
  lemma EndpointInjective(a1: string, p1: nat, a2: string, p2: nat)
    requires Endpoint(a1, p1) == Endpoint(a2, p2)
    ensures a1 == a2 && p1 == p2
  {
    DigitsOnly(p1, ':');
    DigitsOnly(p2, ':');
    SplitAtLast(a1, NatToDecimal(p1), a2, NatToDecimal(p2), ':');
    ParseNatToDecimal(p1);
    ParseNatToDecimal(p2);
  }

  lemma NoDashInEndpoint(a: string, p: nat)
    requires '-' !in a
    ensures '-' !in Endpoint(a, p)
  {
    DigitsOnly(p, '-');
  }

  /**
   * With addresses that contain no '-' and ports that are not negative, the key
   * identifies the 4-tuple.
   */
  lemma PathKeyInjective(la1: string, lp1: int, ra1: string, rp1: int,
                         la2: string, lp2: int, ra2: string, rp2: int)
    requires '-' !in la1 && '-' !in ra1 && '-' !in la2 && '-' !in ra2
    requires lp1 >= 0 && rp1 >= 0 && lp2 >= 0 && rp2 >= 0
    requires PathKey(la1, lp1, ra1, rp1) == PathKey(la2, lp2, ra2, rp2)
    ensures la1 == la2 && lp1 == lp2 && ra1 == ra2 && rp1 == rp2
  {
    NoDashInEndpoint(la1, lp1);
    NoDashInEndpoint(la2, lp2);
    SplitAtFirst(Endpoint(la1, lp1), Endpoint(ra1, rp1), Endpoint(la2, lp2), Endpoint(ra2, rp2), '-');
    EndpointInjective(la1, lp1, la2, lp2);
    EndpointInjective(ra1, rp1, ra2, rp2);
  }
}
