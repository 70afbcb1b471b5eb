/** Words as the host keeps them in memory, least significant byte first. */
module HostMemory {

  import opened Words
  import opened WireFormat

  function LittleEndian(n: nat, count: nat): (bytes: seq<byte>)
    ensures |bytes| == count
    decreases count, n
  {
    if count == 0 then [] else [n % 256] + LittleEndian(n / 256, count - 1)
  }

  function FromLittleEndian(bytes: seq<byte>): nat {
    if bytes == [] then 0 else bytes[0] + 256 * FromLittleEndian(bytes[1..])
  }

  /** What does not fit in `count` bytes. */
  function Beyond(n: nat, count: nat): nat
    decreases count, n
  {
    if count == 0 then n else Beyond(n / 256, count - 1)
  }

  lemma {:induction false} LittleEndianRoundTrip(n: nat, count: nat)
    requires Beyond(n, count) == 0
    ensures FromLittleEndian(LittleEndian(n, count)) == n
  {
    if count > 0 { LittleEndianRoundTrip(n / 256, count - 1); }
  }

  lemma WordsFit(n: nat)
    ensures n < TWO32 ==> Beyond(n, 4) == 0
    ensures n < TWO64 ==> Beyond(n, 8) == 0
  {
    var a, b, c := n / 256, n / 0x1_0000, n / 0x100_0000;
    assert a / 256 == b && b / 256 == c;
    var d, e, f, g := n / TWO32, n / 0x100_0000_0000, n / 0x1_0000_0000_0000, n / 0x100_0000_0000_0000;
    assert c / 256 == d && d / 256 == e && e / 256 == f && f / 256 == g;
    assert Beyond(d, 4) == Beyond(e, 3) == Beyond(f, 2) == Beyond(g, 1) == g / 256;
    assert Beyond(n, 8) == Beyond(a, 7) == Beyond(b, 6) == Beyond(c, 5) == Beyond(d, 4);
    assert Beyond(n, 4) == Beyond(a, 3) == Beyond(b, 2) == Beyond(c, 1) == d;
  }

  /** Digit i of a number to the base 256. */
  function Digit256(n: nat, i: nat): nat
    decreases i
  {
    if i == 0 then n % 256 else Digit256(n / 256, i - 1)
  }

  /** Byte i in memory is digit i, whose weight is 256 to the i. */
  lemma {:induction false} LittleEndianAt(n: nat, count: nat, i: nat)
    requires i < count
    ensures LittleEndian(n, count)[i] == Digit256(n, i)
  {
    if i > 0 { LittleEndianAt(n / 256, count - 1, i - 1); }
  }

  lemma DigitsOf(n: nat)
    ensures Digit256(n, 0) == n % 256 && Digit256(n, 1) == n / 0x100 % 256
    ensures Digit256(n, 2) == n / 0x1_0000 % 256 && Digit256(n, 3) == n / 0x100_0000 % 256
    ensures Digit256(n, 4) == n / TWO32 % 256 && Digit256(n, 5) == n / 0x100_0000_0000 % 256
    ensures Digit256(n, 6) == n / 0x1_0000_0000_0000 % 256 && Digit256(n, 7) == n / 0x100_0000_0000_0000 % 256
  {
    var a, b, c, d := n / 256, n / 0x1_0000, n / 0x100_0000, n / TWO32;
    assert a / 256 == b && b / 256 == c && c / 256 == d;
    var e, f, g := n / 0x100_0000_0000, n / 0x1_0000_0000_0000, n / 0x100_0000_0000_0000;
    assert d / 256 == e && e / 256 == f && f / 256 == g;
    assert Digit256(n, 1) == Digit256(a, 0) && Digit256(n, 2) == Digit256(a, 1) == Digit256(b, 0);
    assert Digit256(n, 3) == Digit256(a, 2) == Digit256(b, 1) == Digit256(c, 0);
    assert Digit256(n, 4) == Digit256(a, 3) == Digit256(b, 2) == Digit256(c, 1) == Digit256(d, 0);
    assert Digit256(d, 1) == Digit256(e, 0) && Digit256(d, 2) == Digit256(e, 1) == Digit256(f, 0);
    assert Digit256(d, 3) == Digit256(e, 2) == Digit256(f, 1) == Digit256(g, 0);
    assert Digit256(n, 5) == Digit256(a, 4) == Digit256(b, 3) == Digit256(c, 2) == Digit256(d, 1);
    assert Digit256(n, 6) == Digit256(a, 5) == Digit256(b, 4) == Digit256(c, 3) == Digit256(d, 2);
    assert Digit256(n, 7) == Digit256(a, 6) == Digit256(b, 5) == Digit256(c, 4) == Digit256(d, 3);
  }
}
