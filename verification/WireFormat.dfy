/** Varints and ZigZag (src/wire_format-inl.h, src/wire_format.cc); the format is that of the
    Protocol Buffers Encoding specification, sections "Base 128 Varints" and "Signed Integers".
    Machine words are numbers with their range, and wrap-around is written out; a shift is a
    multiplication or division by a power of two, and masking 7 bits is the remainder by 128
    (BitSevenSet, Words.ShiftAndMask). ZigZag works on the words themselves. */
module WireFormat {

  import opened Words

  type byte = b: int | 0 <= b < 256
  type uint32 = n: int | 0 <= n < TWO32
  type uint64 = n: int | 0 <= n < TWO64
  type int32 = n: int | -0x8000_0000 <= n < 0x8000_0000
  type int64 = n: int | -TWO63 <= n < TWO63

  /** The encoding: base 128 digits, least significant first, all but the last with bit 7 set. */
  function Varint(value: nat): (digits: seq<byte>) {
    if value < 128 then [value] else [value % 128 + 128] + Varint(value / 128)
  }

  /** A byte without its bit 7. */
  function Digit(b: byte): (d: byte)
    ensures d < 128
  {
    if b < 128 then b else b - 128
  }

  /** What a reader makes of the bytes at its pointer. Overrun: it needs a byte that is not there. */
  datatype Parsed<+T> = Overrun | Corrupt | Ok(value: T, size: nat)

  /** The decoding, of at most `limit` digits. */
  function Parse(bytes: seq<byte>, limit: nat): (r: Parsed<nat>)
    ensures r.Ok? ==> 1 <= r.size <= |bytes|
    decreases |bytes|
  {
    if limit == 0 then Corrupt
    else if bytes == [] then Overrun
    else if bytes[0] < 128 then Ok(bytes[0], 1)
    else
      match Parse(bytes[1..], limit - 1)
      case Ok(rest, size) => Ok(Digit(bytes[0]) + 128 * rest, size + 1)
      case other => other
  }

  function VarintSize32(value: uint32): nat {
    if value < 0x80 then 1
    else if value < 0x4000 then 2
    else if value < 0x20_0000 then 3
    else if value < 0x1000_0000 then 4
    else 5
  }

  function VarintSize64(value: uint64): nat {
    if value < 0x8_0000_0000 then
      if value < 0x80 then 1
      else if value < 0x4000 then 2
      else if value < 0x20_0000 then 3
      else if value < 0x1000_0000 then 4
      else 5
    else
      if value < 0x400_0000_0000 then 6
      else if value < 0x2_0000_0000_0000 then 7
      else if value < 0x100_0000_0000_0000 then 8
      else if value < 0x8000_0000_0000_0000 then 9
      else 10
  }

  /** The size tables give the length of the encoding. */
  lemma {:induction false} VarintLength(value: uint64)
    ensures |Varint(value)| == VarintSize64(value)
    ensures value < TWO32 ==> |Varint(value)| == VarintSize32(value)
  {
    if value >= 128 {
      VarintLength(value / 128);
    }
  }

  /** Reading what was written gives back the value and consumes exactly its encoding, whatever follows. */
  lemma {:induction false} ParseVarint(value: nat, rest: seq<byte>, limit: nat)
    requires |Varint(value)| <= limit
    ensures Parse(Varint(value) + rest, limit) == Ok(value, |Varint(value)|)
  {
    if value >= 128 {
      ParseVarint(value / 128, rest, limit - 1);
      assert (Varint(value) + rest)[1..] == Varint(value / 128) + rest;
    }
  }

  /** A reader that answers on some bytes gives the same answer when more bytes follow. */
  lemma {:induction false} ParsePrefix(bytes: seq<byte>, more: seq<byte>, limit: nat)
    requires Parse(bytes, limit) != Overrun
    ensures Parse(bytes + more, limit) == Parse(bytes, limit)
    decreases limit
  {
    if limit > 0 && bytes[0] >= 128 {
      ParsePrefix(bytes[1..], more, limit - 1);
      assert (bytes + more)[1..] == bytes[1..] + more;
    }
  }

  // ---- Writers

  /** The low byte of `part | 0x80`. */
  function Continued(part: nat): byte { part % 128 + 128 }

  /** On bits: what is stored for `part | 0x80`, and what is left of `part` after it. */
  lemma BitSevenSet(part: bv32)
    ensures Nat32((part | 0x80) & 0xFF) == Continued(Nat32(part))
    ensures Nat32(part >> 7) == Nat32(part) / 0x80
  {
    hide Nat32;
    var stored := (part | 0x80) & 0xFF;
    ShiftAndMask(part);
    StoredBits(part);
    ShiftAndMask(stored);
    NatOne();
  }

  lemma StoredBits(part: bv32)
    ensures ((part | 0x80) & 0xFF) >> 7 == 1 && ((part | 0x80) & 0xFF) & 0x7F == part & 0x7F
  {
  }

  lemma NatOne()
    ensures Nat32(1) == 1
  {
  }

  /** The branch tree of WriteVarint64. */
  function PickSize(part0: nat, part1: nat, part2: nat): nat {
    if part2 == 0 then
      if part1 == 0 then
        if part0 < 0x4000 then (if part0 < 0x80 then 1 else 2) else (if part0 < 0x20_0000 then 3 else 4)
      else
        if part1 < 0x4000 then (if part1 < 0x80 then 5 else 6) else (if part1 < 0x20_0000 then 7 else 8)
    else
      if part2 < 0x80 then 9 else 10
  }

  /** What the k-th label of WriteVarint64 stores. */
  function PartAt(part0: nat, part1: nat, part2: nat, k: nat): nat {
    match k
    case 0 => part0
    case 1 => part0 / 0x80
    case 2 => part0 / 0x4000
    case 3 => part0 / 0x20_0000
    case 4 => part1
    case 5 => part1 / 0x80
    case 6 => part1 / 0x4000
    case 7 => part1 / 0x20_0000
    case 8 => part2
    case _ => part2 / 0x80
  }

  method WriteVarint64(value: uint64, target: array<byte>) returns (size: nat)
    requires target.Length >= 10
    modifies target
    ensures 1 <= size <= 10 && target[..size] == Varint(value)
    ensures target[size..] == old(target[size..])
  {
    var part0 := value % TWO32;
    var part1 := value / 0x1000_0000 % TWO32;
    var part2 := value / 0x100_0000_0000_0000 % TWO32;
    size := PickSize(part0, part1, part2);
    SizePicked(value);
    hide PickSize, PartAt;
    var k := size;
    while k > 0  // the labels size10 .. size1, fallen through
      invariant 0 <= k <= size == |Varint(value)| <= 10
      invariant forall j :: k <= j < size ==> target[j] == Continued(PartAt(part0, part1, part2, j))
      invariant target[size..] == old(target[size..])
    {
      k := k - 1;
      target[k] := Continued(PartAt(part0, part1, part2, k));
    }
    forall j: nat | j < size ensures Digit(target[j]) == Digit(Varint(value)[j])
                                  && (j + 1 < size ==> target[j] == Varint(value)[j]) {
      PartIsByte(value, j);
    }
    VarintLast(value);
    target[size - 1] := Digit(target[size - 1]);
  }

  lemma SizePicked(value: uint64)
    ensures PickSize(value % TWO32, value / 0x1000_0000 % TWO32, value / 0x100_0000_0000_0000 % TWO32)
         == |Varint(value)| <= 10
  {
    PartSizes(value);
    VarintLength(value);
  }

  lemma PartIsByte(value: uint64, k: nat)
    requires k < |Varint(value)| <= 10
    ensures var b := Continued(
        PartAt(value % TWO32, value / 0x1000_0000 % TWO32, value / 0x100_0000_0000_0000 % TWO32, k));
      Digit(b) == Digit(Varint(value)[k]) && (k + 1 < |Varint(value)| ==> b == Varint(value)[k])
  {
    hide PartAt, Varint, Drop;
    VarintDigit(value, k);
    PartIsDigit(value, k);
  }

  lemma {:induction false} VarintLast(value: nat)
    ensures |Varint(value)| >= 1 && Varint(value)[|Varint(value)| - 1] < 128
  {
    if value >= 128 { VarintLast(value / 128); }
  }

  lemma PartIsDigit(value: uint64, k: nat)
    requires k < 10
    ensures PartAt(value % TWO32, value / 0x1000_0000 % TWO32, value / 0x100_0000_0000_0000 % TWO32, k) % 128
         == Drop(value, k) % 128
  {
    PartDigits(value);
    DropValues(value);
  }

  /** Whole multiples of 128 do not change the digit. */
  lemma SameDigit(a: int, b: int)
    ensures (a + 128 * b) % 128 == a % 128
  {
  }

  /** Cutting a word to 32 bits leaves its four lowest digits. */
  lemma LowDigits(v: nat)
    ensures v % TWO32 % 128 == v % 128
    ensures v % TWO32 / 0x80 % 128 == v / 0x80 % 128
    ensures v % TWO32 / 0x4000 % 128 == v / 0x4000 % 128
    ensures v % TWO32 / 0x20_0000 % 128 == v / 0x20_0000 % 128
  {
    var w, k := v % TWO32, v / TWO32;
    assert v == w + TWO32 * k;
    SplitDigits(w, k);
  }

  lemma SplitDigits(w: nat, k: nat)
    ensures (w + TWO32 * k) % 128 == w % 128
    ensures (w + TWO32 * k) / 0x80 % 128 == w / 0x80 % 128
    ensures (w + TWO32 * k) / 0x4000 % 128 == w / 0x4000 % 128
    ensures (w + TWO32 * k) / 0x20_0000 % 128 == w / 0x20_0000 % 128
  {
    SameDigit(w, 0x200_0000 * k);
    assert (w + TWO32 * k) / 0x80 == w / 0x80 + 128 * (0x4_0000 * k);
    SameDigit(w / 0x80, 0x4_0000 * k);
    assert (w + TWO32 * k) / 0x4000 == w / 0x4000 + 128 * (0x800 * k);
    SameDigit(w / 0x4000, 0x800 * k);
    assert (w + TWO32 * k) / 0x20_0000 == w / 0x20_0000 + 128 * (0x10 * k);
    SameDigit(w / 0x20_0000, 0x10 * k);
  }

  lemma PartDigits(value: uint64)
    ensures var part0, part1, part2 := value % TWO32, value / 0x1000_0000 % TWO32, value / 0x100_0000_0000_0000 % TWO32;
      && part0 % 128 == value % 128
      && part0 / 0x80 % 128 == value / 0x80 % 128
      && part0 / 0x4000 % 128 == value / 0x4000 % 128
      && part0 / 0x20_0000 % 128 == value / 0x20_0000 % 128
      && part1 % 128 == value / 0x1000_0000 % 128
      && part1 / 0x80 % 128 == value / 0x8_0000_0000 % 128
      && part1 / 0x4000 % 128 == value / 0x400_0000_0000 % 128
      && part1 / 0x20_0000 % 128 == value / 0x2_0000_0000_0000 % 128
      && part2 == value / 0x100_0000_0000_0000 && part2 / 0x80 == value / TWO63
  {
    hide *;
    LowDigits(value);
    LowDigits(value / 0x1000_0000);
    Quotients(value);
  }

  /** Dividing step by step. */
  lemma Quotients(value: uint64)
    ensures var q := value / 0x1000_0000;
      && q / 0x80 == value / 0x8_0000_0000 && q / 0x4000 == value / 0x400_0000_0000
      && q / 0x20_0000 == value / 0x2_0000_0000_0000
    ensures var r := value / 0x100_0000_0000_0000;
      && r % TWO32 == r && r / 0x80 == value / TWO63
  {
  }

  /** The branch tree picks the size. */
  lemma PartSizes(value: uint64)
    ensures var part0, part1, part2 := value % TWO32, value / 0x1000_0000 % TWO32, value / 0x100_0000_0000_0000 % TWO32;
      && (part2 == 0 <==> value < 0x100_0000_0000_0000)
      && (part2 < 0x80 <==> value < TWO63)
      && (part2 == 0 ==>
            && (part1 == 0 <==> value < 0x1000_0000)
            && (part1 < 0x80 <==> value < 0x8_0000_0000)
            && (part1 < 0x4000 <==> value < 0x400_0000_0000)
            && (part1 < 0x20_0000 <==> value < 0x2_0000_0000_0000))
      && (part2 == 0 && part1 == 0 ==> part0 == value)
  {
    if value < 0x100_0000_0000_0000 {
      assert value / 0x1000_0000 < TWO32;
    }
  }

  lemma DropValues(value: uint64)
    ensures Drop(value, 1) == value / 0x80 && Drop(value, 2) == value / 0x4000 && Drop(value, 3) == value / 0x20_0000
    ensures Drop(value, 4) == value / 0x1000_0000 && Drop(value, 5) == value / 0x8_0000_0000
    ensures Drop(value, 6) == value / 0x400_0000_0000 && Drop(value, 7) == value / 0x2_0000_0000_0000
    ensures Drop(value, 8) == value / 0x100_0000_0000_0000 && Drop(value, 9) == value / TWO63
  {
    assert Drop(value, 1) == Drop(value, 0) / 128;
    assert Drop(value, 2) == Drop(value, 1) / 128;
    assert Drop(value, 3) == Drop(value, 2) / 128;
    assert Drop(value, 4) == Drop(value, 3) / 128;
    assert Drop(value, 5) == Drop(value, 4) / 128;
    assert Drop(value, 6) == Drop(value, 5) / 128;
    assert Drop(value, 7) == Drop(value, 6) / 128;
    assert Drop(value, 8) == Drop(value, 7) / 128;
    assert Drop(value, 9) == Drop(value, 8) / 128;
  }

  /** `value` without its k lowest digits. */
  function Drop(value: nat, k: nat): nat { if k == 0 then value else Drop(value, k - 1) / 128 }

  lemma {:induction false} DropFirst(value: nat, k: nat)
    requires k > 0
    ensures Drop(value, k) == Drop(value / 128, k - 1)
  {
    if k > 1 { DropFirst(value, k - 1); }
  }

  lemma {:induction false} VarintDigit(value: nat, k: nat)
    requires k < |Varint(value)|
    ensures Varint(value)[k] == Drop(value, k) % 128 + (if k + 1 < |Varint(value)| then 128 else 0)
    decreases k
  {
    if k > 0 {
      DropFirst(value, k);
      VarintDigit(value / 128, k - 1);
    } else {
      assert Drop(value, 0) == value;
    }
  }

  /** Comparing with the encoding digit by digit. */
  lemma DigitsAre(value: uint32, digits: seq<byte>)
    requires |digits| == VarintSize32(value)
    requires digits[0] == value % 128 + (if |digits| > 1 then 128 else 0)
    requires |digits| > 1 ==> digits[1] == value / 0x80 % 128 + (if |digits| > 2 then 128 else 0)
    requires |digits| > 2 ==> digits[2] == value / 0x4000 % 128 + (if |digits| > 3 then 128 else 0)
    requires |digits| > 3 ==> digits[3] == value / 0x20_0000 % 128 + (if |digits| > 4 then 128 else 0)
    requires |digits| > 4 ==> digits[4] == value / 0x1000_0000
    ensures digits == Varint(value)
  {
    hide Drop, Varint, VarintSize32, VarintSize64;
    VarintLength(value);
    DropValues(value);
    ShortLength(value);
    forall j: nat | j < |digits| ensures digits[j] == Varint(value)[j] {
      VarintDigit(value, j);
      if j == 0 { DropNone(value); }
    }
  }

  lemma ShortLength(value: uint32)
    ensures VarintSize32(value) <= 5 && value / 0x1000_0000 % 128 == value / 0x1000_0000
  {
  }

  lemma DropNone(value: nat)
    ensures Drop(value, 0) == value
  {
  }

  method WriteVarint32(value: uint32, target: array<byte>) returns (size: nat)
    requires target.Length >= 5
    modifies target
    ensures 1 <= size <= 5 && target[..size] == Varint(value)
    ensures target[size..] == old(target[size..])
  {
    VarintLength(value);
    target[0] := Continued(value);
    if value >= 0x80 {
      target[1] := Continued(value / 0x80);
      if value >= 0x4000 {
        target[2] := Continued(value / 0x4000);
        if value >= 0x20_0000 {
          target[3] := Continued(value / 0x20_0000);
          if value >= 0x1000_0000 {
            target[4] := value / 0x1000_0000;
            size := 5;
          } else {
            target[3] := Digit(target[3]);
            size := 4;
          }
        } else {
          target[2] := Digit(target[2]);
          size := 3;
        }
      } else {
        target[1] := Digit(target[1]);
        size := 2;
      }
    } else {
      target[0] := Digit(target[0]);
      size := 1;
    }
    DigitsAre(value, target[..size]);
  }

  // ---- Readers

  /** The value of the first m digits. */
  function Sum(bytes: seq<byte>, m: nat): nat
    requires m <= |bytes|
    decreases m
  {
    if m == 0 then 0 else Digit(bytes[0]) + 128 * Sum(bytes[1..], m - 1)
  }

  /** `d` shifted left by k digits. */
  function Shl(d: int, k: nat): int { if k == 0 then d else 128 * Shl(d, k - 1) }

  lemma {:induction false} SumNext(bytes: seq<byte>, m: nat)
    requires m < |bytes|
    ensures Sum(bytes, m + 1) == Sum(bytes, m) + Shl(Digit(bytes[m]), m)
    decreases m
  {
    if m > 0 {
      SumNext(bytes[1..], m - 1);
    }
  }

  /** After `m` continued digits the parse is decided by the next byte, or by there being none. */
  lemma {:induction false} ParseAt(bytes: seq<byte>, limit: nat, m: nat)
    requires m <= limit && m <= |bytes| && forall i :: 0 <= i < m ==> bytes[i] >= 128
    ensures m == limit ==> Parse(bytes, limit) == Corrupt
    ensures m < limit && m == |bytes| ==> Parse(bytes, limit) == Overrun
    ensures m < limit && m < |bytes| && bytes[m] < 128 ==> Parse(bytes, limit) == Ok(Sum(bytes, m + 1), m + 1)
    decreases m
  {
    if m > 0 {
      ParseAt(bytes[1..], limit - 1, m - 1);
    } else if limit > 0 && bytes != [] {
      assert Sum(bytes[1..], 0) == 0;
    }
  }

  /** How the k-th byte is shifted inside its 28-bit part. */
  function Shifted(d: int, k: nat): int {
    if k == 0 || k == 4 || k == 8 then d
    else if k == 1 || k == 5 || k == 9 then 0x80 * d
    else if k == 2 || k == 6 then 0x4000 * d
    else 0x20_0000 * d
  }

  /** A number in units of the part of stage k. */
  function Scaled(x: int, k: nat): int {
    if k < 4 then x else if k < 8 then 0x1000_0000 * x else 0x100_0000_0000_0000 * x
  }

  /** Shifting by k digits is shifting inside the part, and then by the parts before it. */
  lemma ShlOfPart(d: int, k: nat)
    requires k < 10
    ensures Shl(d, k) == Scaled(Shifted(d, k), k)
  {
    assert Shl(d, 1) == 128 * Shl(d, 0) && Shl(d, 2) == 128 * Shl(d, 1) && Shl(d, 3) == 128 * Shl(d, 2);
    assert Shl(d, 4) == 128 * Shl(d, 3) && Shl(d, 5) == 128 * Shl(d, 4) && Shl(d, 6) == 128 * Shl(d, 5);
    assert Shl(d, 7) == 128 * Shl(d, 6) && Shl(d, 8) == 128 * Shl(d, 7) && Shl(d, 9) == 128 * Shl(d, 8);
  }

  function Truncated(r: Parsed<nat>, range: nat): Parsed<nat>
    requires range > 0
  {
    if r.Ok? then Ok(r.value % range, r.size) else r
  }

  /** What is known once the m first bytes all had bit 7 set. */
  ghost predicate Continues(bytes: seq<byte>, m: nat) {
    m <= |bytes| && forall i :: 0 <= i < m ==> bytes[i] >= 128
  }

  /** Addition with wrap-around. */
  function Add32(x: int, y: int): uint32 {
    if 0 <= x + y < TWO32 then x + y else (x + y) % TWO32
  }

  /** The three 28-bit parts a 64-bit reader collects. */
  datatype Parts = Parts(part0: uint32, part1: uint32, part2: uint32)

  /** The parts put together; they share no bits, so the or is a sum. */
  function Total(p: Parts): nat { p.part0 + p.part1 * 0x1000_0000 + p.part2 * 0x100_0000_0000_0000 }

  function PartOf(p: Parts, k: nat): uint32 { if k < 4 then p.part0 else if k < 8 then p.part1 else p.part2 }

  /** Adding to the part that stage k works on. */
  function AddAt(p: Parts, k: nat, x: int): Parts {
    if k < 4 then p.(part0 := Add32(p.part0, x))
    else if k < 8 then p.(part1 := Add32(p.part1, x))
    else p.(part2 := Add32(p.part2, x))
  }

  /** The part of stage k is below `limit`, the parts before it are full and those after it empty. */
  ghost predicate PartsBelow(p: Parts, k: nat, limit: nat) {
    if k < 4 then p.part0 < limit && p.part1 == 0 && p.part2 == 0
    else if k < 8 then p.part0 < 0x1000_0000 && p.part1 < limit && p.part2 == 0
    else p.part0 < 0x1000_0000 && p.part1 < 0x1000_0000 && p.part2 < limit
  }

  lemma StageAdds(p: Parts, k: nat, b: byte)
    requires k < 10 && PartsBelow(p, k, Shifted(1, k))
    ensures var added := AddAt(p, k, Shifted(b, k));
      && PartsBelow(added, k, Shifted(256, k))
      && PartOf(added, k) == PartOf(p, k) + Shifted(b, k)
      && Total(added) == Total(p) + Scaled(Shifted(b, k), k)
  {
    if k == 0 {} else if k == 1 {} else if k == 2 {} else if k == 3 {} else if k == 4 {} else if k == 5 {}
    else if k == 6 {} else if k == 7 {} else if k == 8 {} else {}
  }

  lemma StageClears(p: Parts, k: nat)
    requires k < 9 && PartsBelow(p, k, Shifted(256, k)) && PartOf(p, k) >= Shifted(128, k)
    ensures var cleared := AddAt(p, k, -Shifted(128, k));
      && PartsBelow(cleared, k + 1, Shifted(1, k + 1))
      && Total(cleared) == Total(p) - Scaled(Shifted(128, k), k)
  {
    if k == 0 {} else if k == 1 {} else if k == 2 {} else if k == 3 {} else if k == 4 {} else if k == 5 {}
    else if k == 6 {} else if k == 7 {} else {}
  }

  /** The parts after k continued bytes. */
  ghost predicate PartsHold(bytes: seq<byte>, k: nat, p: Parts)
    requires k <= |bytes|
  {
    Total(p) == Sum(bytes, k) && PartsBelow(p, k, Shifted(1, k))
  }

  /** One stage of a 64-bit reader: the byte is added at its shift, and if its bit 7 is set, that
      bit is taken off again. */
  lemma NextStage(bytes: seq<byte>, k: nat, p: Parts)
    requires k < 10 && k < |bytes| && PartsHold(bytes, k, p)
    ensures bytes[k] < 128 ==> Total(AddAt(p, k, Shifted(bytes[k], k))) == Sum(bytes, k + 1)
    ensures bytes[k] >= 128 && k < 9 ==>
      PartsHold(bytes, k + 1, AddAt(AddAt(p, k, Shifted(bytes[k], k)), k, -Shifted(128, k)))
  {
    SumNext(bytes, k);
    ShlOfPart(Digit(bytes[k]), k);
    StageAdds(p, k, bytes[k]);
    if bytes[k] >= 128 {
      ClearedDigit(k, bytes[k]);
      if k < 9 { StageClears(AddAt(p, k, Shifted(bytes[k], k)), k); }
    }
  }

  lemma ClearedDigit(k: nat, b: byte)
    requires b >= 128
    ensures Shifted(b, k) >= Shifted(128, k)
    ensures Scaled(Shifted(b, k), k) - Scaled(Shifted(128, k), k) == Scaled(Shifted(Digit(b), k), k)
  {
  }

  lemma NextStage32(bytes: seq<byte>, k: nat, result: uint32)
    requires k < 5 && k < |bytes| && result == Sum(bytes, k) < Shl(1, k)
    ensures bytes[k] < 128 ==> Add32(result, Shl(bytes[k], k)) == Sum(bytes, k + 1) % TWO32
    ensures bytes[k] >= 128 && k < 4 ==>
      Add32(Add32(result, Shl(bytes[k], k)), -Shl(128, k)) == Sum(bytes, k + 1) < Shl(1, k + 1)
  {
    hide Shl, Sum;
    SumNext(bytes, k);
    ShlOfPart(Digit(bytes[k]), k); ShlOfPart(bytes[k], k); ShlOfPart(128, k);
    ShlOfPart(1, k); ShlOfPart(1, k + 1);
    if k == 0 {} else if k == 1 {} else if k == 2 {} else if k == 3 {} else {}
  }

  method ReadVarint32(buffer: seq<byte>) returns (r: Parsed<nat>)
    ensures r == Truncated(Parse(buffer, 5), TWO32)
  {
    var result: uint32, ptr := 0, 0;
    while ptr < 5  // five stages, written out in the source
      invariant ptr <= 5 && Continues(buffer, ptr)
      invariant ptr < 5 ==> result == Sum(buffer, ptr) < Shl(1, ptr)
    {
      ParseAt(buffer, 5, ptr);
      if ptr >= |buffer| { return Overrun; }
      var b := buffer[ptr];
      NextStage32(buffer, ptr, result);
      result := Add32(result, Shl(b, ptr));
      if b < 128 { return Ok(result, ptr + 1); }
      if ptr < 4 { result := Add32(result, -Shl(128, ptr)); }
      ptr := ptr + 1;
    }
    ParseAt(buffer, 5, 5);
    r := Corrupt;
  }

  /** The parts once k bytes have been added and their bits 7 taken off. */
  function PartsAfter(bytes: seq<byte>, k: nat): Parts
    requires k <= |bytes|
  {
    if k == 0 then Parts(0, 0, 0)
    else AddAt(AddAt(PartsAfter(bytes, k - 1), k - 1, Shifted(bytes[k - 1], k - 1)), k - 1, -Shifted(128, k - 1))
  }

  /** Every stage leaves the digits read so far, split into parts of 28 bits. */
  lemma {:induction false} PartsAreDigits(bytes: seq<byte>, k: nat)
    requires k < 10 && Continues(bytes, k)
    ensures PartsHold(bytes, k, PartsAfter(bytes, k))
  {
    if k == 0 {
      assert Sum(bytes, 0) == 0;
    } else {
      PartsAreDigits(bytes, k - 1);
      NextStage(bytes, k - 1, PartsAfter(bytes, k - 1));
    }
  }

  /** Where the first byte without bit 7 is reached, the parts make up the answer. */
  lemma LastStage(bytes: seq<byte>, k: nat)
    requires k < 10 && Continues(bytes, k) && k < |bytes| && bytes[k] < 128
    ensures Ok(Total(AddAt(PartsAfter(bytes, k), k, Shifted(bytes[k], k))) % TWO64, k + 1)
         == Truncated(Parse(bytes, 10), TWO64)
  {
    ParseAt(bytes, 10, k);
    PartsAreDigits(bytes, k);
    NextStage(bytes, k, PartsAfter(bytes, k));
  }

  method ReadVarint64(buffer: seq<byte>) returns (r: Parsed<nat>)
    ensures r == Truncated(Parse(buffer, 10), TWO64)
  {
    var parts, ptr := Parts(0, 0, 0), 0;
    while ptr < 10  // ten stages, written out in the source
      invariant ptr <= 10 && Continues(buffer, ptr)
      invariant ptr < 10 ==> parts == PartsAfter(buffer, ptr)
    {
      ParseAt(buffer, 10, ptr);
      if ptr >= |buffer| { return Overrun; }
      var b := buffer[ptr];
      parts := AddAt(parts, ptr, Shifted(b, ptr));
      if b < 128 {
        LastStage(buffer, ptr);
        return Ok(Total(parts) % TWO64, ptr + 1);
      }
      if ptr < 9 { parts := AddAt(parts, ptr, -Shifted(128, ptr)); }
      ptr := ptr + 1;
    }
    ParseAt(buffer, 10, 10);
    r := Corrupt;
  }

  /** The answer of a bounds-checked reader: the fast reader's if the encoding fits in the first
      `size` bytes, and otherwise -1. */
  function WithinBounds(r: Parsed<nat>): Parsed<nat> { if r.Ok? then r else Corrupt }

  function Window(buffer: seq<byte>, size: int): seq<byte>
    requires size <= |buffer|
  {
    if size <= 0 then [] else buffer[..size]
  }

  method ReadVarint32Safe(buffer: seq<byte>, size: int) returns (r: Parsed<nat>)
    requires size <= |buffer|
    ensures r == WithinBounds(Truncated(Parse(Window(buffer, size), 5), TWO32))
  {
    var window := Window(buffer, size);
    var result: uint32, ptr := 0, 0;
    while ptr < 5  // five stages, written out in the source
      invariant ptr <= 5 && Continues(window, ptr)
      invariant ptr < 5 ==> result == Sum(window, ptr) < Shl(1, ptr)
    {
      ParseAt(window, 5, ptr);
      if ptr >= size { return Corrupt; }
      var b := buffer[ptr];
      NextStage32(window, ptr, result);
      result := Add32(result, Shl(b, ptr));
      if b < 128 { return Ok(result, ptr + 1); }
      if ptr < 4 { result := Add32(result, -Shl(128, ptr)); }
      ptr := ptr + 1;
    }
    ParseAt(window, 5, 5);
    r := Corrupt;
  }

  method ReadVarint64Safe(buffer: seq<byte>, size: int) returns (r: Parsed<nat>)
    requires size <= |buffer|
    ensures r == WithinBounds(Truncated(Parse(Window(buffer, size), 10), TWO64))
  {
    var window := Window(buffer, size);
    var parts, ptr := Parts(0, 0, 0), 0;
    while ptr < 10  // ten stages, written out in the source
      invariant ptr <= 10 && Continues(window, ptr)
      invariant ptr < 10 ==> parts == PartsAfter(window, ptr)
    {
      ParseAt(window, 10, ptr);
      if ptr >= size { return Corrupt; }
      var b := window[ptr];
      parts := AddAt(parts, ptr, Shifted(b, ptr));
      if b < 128 {
        LastStage(window, ptr);
        return Ok(Total(parts) % TWO64, ptr + 1);
      }
      if ptr < 9 { parts := AddAt(parts, ptr, -Shifted(128, ptr)); }
      ptr := ptr + 1;
    }
    ParseAt(window, 10, 10);
    r := Corrupt;
  }

  /** The bounds-checked readers agree with the fast ones exactly when the encoding ends within the
      first `size` bytes, and answer -1 otherwise. */
  lemma SafeReaderAgrees(buffer: seq<byte>, size: int, limit: nat)
    requires size <= |buffer|
    ensures var fast, safe := Parse(buffer, limit), WithinBounds(Parse(Window(buffer, size), limit));
      safe == if fast.Ok? && fast.size <= size then fast else Corrupt
  {
    var window := Window(buffer, size);
    var fast := Parse(buffer, limit);
    if Parse(window, limit) != Overrun {
      assert buffer == window + buffer[|window|..];
      ParsePrefix(window, buffer[|window|..], limit);
    } else if fast.Ok? && fast.size <= size {
      ParseTakesPrefix(buffer, limit, fast.size);
      assert window == buffer[..fast.size] + window[fast.size..];
      ParsePrefix(buffer[..fast.size], window[fast.size..], limit);
      assert false;
    }
  }

  /** An answer depends on no more bytes than it consumes. */
  lemma {:induction false} ParseTakesPrefix(bytes: seq<byte>, limit: nat, size: nat)
    requires Parse(bytes, limit).Ok? && size == Parse(bytes, limit).size
    ensures Parse(bytes[..size], limit) == Parse(bytes, limit)
    decreases |bytes|
  {
    if bytes[0] >= 128 {
      ParseTakesPrefix(bytes[1..], limit - 1, size - 1);
      assert bytes[..size][1..] == bytes[1..][..size - 1];
    }
  }

  /** The readers undo the writers: every word comes back, with the size the table gives, whatever follows. */
  lemma ReadersUndoWriters(value: uint64, rest: seq<byte>)
    ensures Truncated(Parse(Varint(value) + rest, 10), TWO64) == Ok(value, VarintSize64(value))
    ensures value < TWO32 ==> Truncated(Parse(Varint(value) + rest, 5), TWO32) == Ok(value, VarintSize32(value))
  {
    VarintLength(value);
    ParseVarint(value, rest, 10);
    if value < TWO32 { ParseVarint(value, rest, 5); }
  }

  // ---- ZigZag

  /** Small numbers of either sign become small numbers. */
  function ZigZag(n: int): nat { if n >= 0 then 2 * n else -2 * n - 1 }

  function UnZigZag(z: nat): int { if z % 2 == 0 then z / 2 else -(z / 2) - 1 }

  /** ZigZag is a bijection, and it takes signed words exactly to the unsigned words of the same width. */
  lemma ZigZagBijection(n: int, z: nat)
    ensures UnZigZag(ZigZag(n)) == n && ZigZag(UnZigZag(z)) == z
    ensures ZigZag(n) < TWO64 <==> -TWO63 <= n < TWO63
    ensures ZigZag(n) < TWO32 <==> -0x8000_0000 <= n < 0x8000_0000
  {
  }

  /** The word operations of the source; the right shift of a signed word copies its sign bit. */
  function SignBits32(n: bv32): bv32 { if n & 0x8000_0000 == 0 then 0 else 0xFFFF_FFFF }

  function SignBits64(n: bv64): bv64 { if n & 0x8000_0000_0000_0000 == 0 then 0 else 0xFFFF_FFFF_FFFF_FFFF }

  function ZigZagEncode32(n: bv32): bv32 { (n << 1) ^ SignBits32(n) }

  function ZigZagDecode32(z: bv32): bv32 { (z >> 1) ^ (0 - (z & 1)) }

  function ZigZagEncode64(n: bv64): bv64 { (n << 1) ^ SignBits64(n) }

  function ZigZagDecode64(z: bv64): bv64 { (z >> 1) ^ (0 - (z & 1)) }

  lemma EncodePositive32(w: bv32)
    requires !Negative32(w)
    ensures ZigZagEncode32(w) == Append32(w, false)
  {
  }

  lemma EncodeNegative32(w: bv32)
    requires Negative32(w)
    ensures !Negative32(Not32(w)) && ZigZagEncode32(w) == Append32(Not32(w), true)
  {
  }

  lemma DecodeBits32(z: bv32)
    ensures ZigZagDecode32(z) == if Odd32(z) then Not32(Half32(z)) else Half32(z)
    ensures !Negative32(Half32(z))
  {
  }

  /** Shifting and flipping a word of 32 bits is ZigZag of the signed number it stands for. */
  lemma ZigZagOfWord32(w: bv32)
    ensures Nat32(ZigZagEncode32(w)) == ZigZag(Signed32(w))
  {
    hide Nat32, Negative32, Append32, Not32, ZigZagEncode32;
    SignBit32(w);
    if Negative32(w) {
      EncodeNegative32(w);
      Complement32(w);
      AppendValue32(Not32(w), true);
    } else {
      EncodePositive32(w);
      AppendValue32(w, false);
    }
  }

  /** And the decoder undoes it. */
  lemma WordOfZigZag32(z: bv32)
    ensures Signed32(ZigZagDecode32(z)) == UnZigZag(Nat32(z))
  {
    hide Nat32, Negative32, Half32, Odd32, Not32, ZigZagDecode32;
    DecodeBits32(z);
    LowDigit32(z);
    SignBit32(Half32(z));
    Complement32(Half32(z));
  }

  lemma NumberOfZigZag32(z: uint32)
    ensures Signed32(ZigZagDecode32(Bits32(z))) == UnZigZag(z)
  {
    hide Nat32, Bits32, ZigZagDecode32, Signed32;
    WordOfZigZag32(Bits32(z));
    BitsRoundTrip32(z);
  }

  lemma EncodePositive64(w: bv64)
    requires !Negative64(w)
    ensures ZigZagEncode64(w) == Append64(w, false)
  {
  }

  lemma EncodeNegative64(w: bv64)
    requires Negative64(w)
    ensures !Negative64(Not64(w)) && ZigZagEncode64(w) == Append64(Not64(w), true)
  {
  }

  lemma DecodeBits64(z: bv64)
    ensures ZigZagDecode64(z) == if Odd64(z) then Not64(Half64(z)) else Half64(z)
    ensures !Negative64(Half64(z))
  {
  }

  /** Shifting and flipping a word of 64 bits is ZigZag of the signed number it stands for. */
  lemma ZigZagOfWord64(w: bv64)
    ensures Nat64(ZigZagEncode64(w)) == ZigZag(Signed64(w))
  {
    hide Nat64, Negative64, Append64, Not64, ZigZagEncode64;
    SignBit64(w);
    if Negative64(w) {
      EncodeNegative64(w);
      Complement64(w);
      AppendValue64(Not64(w), true);
    } else {
      EncodePositive64(w);
      AppendValue64(w, false);
    }
  }

  /** And the decoder undoes it. */
  lemma WordOfZigZag64(z: bv64)
    ensures Signed64(ZigZagDecode64(z)) == UnZigZag(Nat64(z))
  {
    hide Nat64, Negative64, Half64, Odd64, Not64, ZigZagDecode64;
    DecodeBits64(z);
    LowDigit64(z);
    SignBit64(Half64(z));
    Complement64(Half64(z));
  }

  lemma NumberOfZigZag64(z: uint64)
    ensures Signed64(ZigZagDecode64(Bits64(z))) == UnZigZag(z)
  {
    hide Nat64, Bits64, ZigZagDecode64, Signed64;
    WordOfZigZag64(Bits64(z));
    BitsRoundTrip64(z);
  }

  method WriteSignedVarint32(value: int32, target: array<byte>) returns (size: nat)
    requires target.Length >= 5
    modifies target
    ensures 1 <= size <= 5 && target[..size] == Varint(ZigZag(value))
    ensures target[size..] == old(target[size..])
  {
    hide Nat32, Word32, Signed32, ZigZagEncode32;
    var z := ZigZagEncode32(Word32(value));
    WordRoundTrip32(value);
    ZigZagOfWord32(Word32(value));
    Range32(z);
    size := WriteVarint32(Nat32(z), target);
  }

  method WriteSignedVarint64(value: int64, target: array<byte>) returns (size: nat)
    requires target.Length >= 10
    modifies target
    ensures 1 <= size <= 10 && target[..size] == Varint(ZigZag(value))
    ensures target[size..] == old(target[size..])
  {
    hide Nat64, Word64, Signed64, ZigZagEncode64;
    var z := ZigZagEncode64(Word64(value));
    WordRoundTrip64(value);
    ZigZagOfWord64(Word64(value));
    Range64(z);
    size := WriteVarint64(Nat64(z), target);
  }

  /** A signed reader, on numbers. */
  function UnZigZagged(r: Parsed<nat>): Parsed<int> {
    match r
    case Ok(z, size) => Ok(UnZigZag(z), size)
    case Overrun => Overrun
    case Corrupt => Corrupt
  }

  method ReadSignedVarint64(buffer: seq<byte>) returns (r: Parsed<int>)
    ensures r == UnZigZagged(Truncated(Parse(buffer, 10), TWO64))
    ensures forall n: int64, rest :: buffer == Varint(ZigZag(n)) + rest ==> r == Ok(n, VarintSize64(ZigZag(n)))
  {
    hide Bits64, ZigZagDecode64, Signed64, Parse, Varint;
    var u := ReadVarint64(buffer);
    match u {
      case Ok(z, size) =>
        r := Ok(Signed64(ZigZagDecode64(Bits64(z))), size);
        NumberOfZigZag64(z);
      case Overrun => r := Overrun;
      case Corrupt => r := Corrupt;
    }
    hide UnZigZag, ZigZag;
    forall n: int64, rest | buffer == Varint(ZigZag(n)) + rest ensures r == Ok(n, VarintSize64(ZigZag(n))) {
      ZigZagBijection(n, 0);
      ReadersUndoWriters(ZigZag(n), rest);
    }
  }

  method ReadSignedVarint32(buffer: seq<byte>) returns (r: Parsed<int>)
    ensures r == UnZigZagged(Truncated(Parse(buffer, 5), TWO32))
    ensures forall n: int32, rest :: buffer == Varint(ZigZag(n)) + rest ==> r == Ok(n, VarintSize32(ZigZag(n)))
  {
    hide Bits32, ZigZagDecode32, Signed32, Parse, Varint;
    var u := ReadVarint32(buffer);
    match u {
      case Ok(z, size) =>
        r := Ok(Signed32(ZigZagDecode32(Bits32(z))), size);
        NumberOfZigZag32(z);
      case Overrun => r := Overrun;
      case Corrupt => r := Corrupt;
    }
    hide UnZigZag, ZigZag;
    forall n: int32, rest | buffer == Varint(ZigZag(n)) + rest ensures r == Ok(n, VarintSize32(ZigZag(n))) {
      ZigZagBijection(n, 0);
      ReadersUndoWriters(ZigZag(n), rest);
    }
  }
}
