/** The size classes of the message pool (src/message_allocator.cpp): the free list for a capacity
    is found by rounding it up to one less than a power of two and multiplying with a De Bruijn
    constant. Words are bit-vectors here, as in the source. */
module SizeClasses {

  const ALLOCATE_START := 5
  const ALLOCATE_STOP := 22
  const CLASSES: nat := ALLOCATE_STOP - ALLOCATE_START + 1
  const LARGEST: bv32 := 0x40_0000  // two to the ALLOCATE_STOP

  /** All bits below the highest set bit are set. */
  function Smear(capacity: bv32): bv32 {
    var v := capacity;
    var v := v | (v >> 1);
    var v := v | (v >> 2);
    var v := v | (v >> 4);
    var v := v | (v >> 8);
    v | (v >> 16)
  }

  function DeBruijn(v: bv32): bv32 { (v * 0x07C4ACDD) >> 27 }

  /** One of eight entries, by the three low bits. */
  function Pick(slot: bv32, a: nat, b: nat, c: nat, d: nat, e: nat, f: nat, g: nat, h: nat): nat {
    if slot & 4 == 0 then
      if slot & 2 == 0 then (if slot & 1 == 0 then a else b) else (if slot & 1 == 0 then c else d)
    else
      if slot & 2 == 0 then (if slot & 1 == 0 then e else f) else (if slot & 1 == 0 then g else h)
  }

  /** The table MultiplyDeBruijnBitPosition, eight entries a row. */
  function PositionAt(slot: bv32): nat {
    if slot & 16 == 0 then
      if slot & 8 == 0 then Pick(slot, 0, 9, 1, 10, 13, 21, 2, 29)
      else Pick(slot, 11, 14, 16, 18, 22, 25, 3, 30)
    else
      if slot & 8 == 0 then Pick(slot, 8, 12, 20, 28, 15, 17, 24, 7)
      else Pick(slot, 19, 27, 23, 6, 26, 5, 4, 31)
  }

  /** Two to the k, for the bits of a word. */
  function Power(k: nat): bv32 { if k < 32 then 1 << k else 0 }

  /** The index of the free list for a capacity. */
  function ClassOf(capacity: bv32): nat {
    var position := PositionAt(DeBruijn(Smear(capacity)));
    if position > ALLOCATE_START then position - ALLOCATE_START else 0
  }

  /** The capacity of the messages on a free list. */
  function ClassSize(index: nat): bv32 { Power(ALLOCATE_START + index + 1) }

  /** A word with a single bit set. */
  predicate OneBit(p: bv32) { p != 0 && p & (p - 1) == 0 }

  /** The highest bit of a word, as smearing shows it. */
  function Top(v: bv32): bv32 { Smear(v) - (Smear(v) >> 1) }

  /** A bit with all bits below it. */
  function Filled(p: bv32): bv32 { p + (p - 1) }

  /** The highest bit: the word is not below it, and below twice as much. */
  predicate IsTop(p: bv32, v: bv32) { p <= v && v - p < p }

  /** Twice the highest bit has room, without being more than twice as large. */
  predicate Covers(p: bv32, v: bv32) { v < p << 1 && p << 1 <= 2 * v }

  /** Smearing sets every bit below the highest one. */
  lemma SmearFillsBelowTop(v: bv32)
    requires v != 0
    ensures OneBit(Top(v)) && Smear(v) == Filled(Top(v)) && IsTop(Top(v), v)
    ensures v <= LARGEST ==> Covers(Top(v), v)
  {
  }

  lemma HalfOfBit(p: bv32)
    requires OneBit(p) && p != 1
    ensures OneBit(p >> 1) && (p >> 1) << 1 == p && p >> 1 < p
  {
  }

  lemma PowerDoubles(k: nat)
    requires k < 32
    ensures Power(k + 1) == Power(k) << 1 && OneBit(Power(k))
  {
  }

  /** A single bit is a power of two. */
  lemma BitIsPower(p: bv32) returns (k: nat)
    requires OneBit(p)
    ensures k < 32 && Power(k) == p
    decreases p
  {
    if p == 1 {
      k := 0;
    } else {
      HalfOfBit(p);
      var half := BitIsPower(p >> 1);
      PowerDoubles(half);
      k := half + 1;
    }
  }

  /** What is looked up for a highest bit p, once it is smeared. */
  function Found(p: bv32): nat { PositionAt(DeBruijn(Filled(p))) }

  /** From bit p on, which is bit k, the table has every position. */
  predicate FoundFrom(p: bv32, k: nat)
    decreases 32 - k
  {
    k >= 32 || (Found(p) == k && FoundFrom(p << 1, k + 1))
  }

  lemma TableIsRight()
    ensures FoundFrom(1, 0)
  {
    assert FoundFrom(0x40000000, 30); assert FoundFrom(0x10000000, 28); assert FoundFrom(0x4000000, 26);
    assert FoundFrom(0x1000000, 24); assert FoundFrom(0x400000, 22); assert FoundFrom(0x100000, 20);
    assert FoundFrom(0x40000, 18); assert FoundFrom(0x10000, 16); assert FoundFrom(0x4000, 14);
    assert FoundFrom(0x1000, 12); assert FoundFrom(0x400, 10); assert FoundFrom(0x100, 8);
    assert FoundFrom(0x40, 6); assert FoundFrom(0x10, 4); assert FoundFrom(4, 2);
  }

  lemma {:induction false} PositionOfPower(k: nat)
    requires k < 32
    ensures Found(Power(k)) == k && FoundFrom(Power(k), k)
  {
    hide Found;
    if k == 0 {
      TableIsRight();
    } else {
      PositionOfPower(k - 1);
      PowerDoubles(k - 1);
    }
  }

  /** So multiplication and table give the base 2 logarithm of every 32-bit word but 0. */
  lemma PositionIsLogarithm(v: bv32)
    requires v != 0
    ensures var k := PositionAt(DeBruijn(Smear(v)));
      k < 32 && Power(k) == Top(v) && IsTop(Power(k), v)
  {
    hide Smear, DeBruijn, PositionAt, Power, Top, OneBit, Filled, IsTop, Covers;
    SmearFillsBelowTop(v);
    var k := BitIsPower(Top(v));
    PositionOfPower(k);
  }

  /** A power of two that is not above v has every smaller power with it. */
  lemma {:induction false} PowersBelow(i: nat, k: nat, v: bv32)
    requires i <= k < 32 && Power(k) <= v
    ensures Power(i) <= v
    decreases k
  {
    hide Power, OneBit;
    if i < k {
      PowerDoubles(k - 1);
      PowerDoubles(k);
      HalfBelow(Power(k - 1), v);
      PowersBelow(i, k - 1, v);
    }
  }

  lemma HalfBelow(p: bv32, v: bv32)
    requires OneBit(p) && OneBit(p << 1) && p << 1 <= v
    ensures p <= v
  {
  }

  /** A message of some size holds `capacity` bytes, and is not more than twice as large unless it
      is of the smallest size. */
  predicate RoomFor(capacity: bv32, size: bv32) { capacity < size && (size == 64 || size <= 2 * capacity) }

  /** Every capacity up to LARGEST gets a free list that exists, and whose messages hold it, without
      being more than twice as large unless they are the smallest there are. */
  lemma ClassFits(capacity: bv32)
    requires capacity <= LARGEST
    ensures ClassOf(capacity) < CLASSES && RoomFor(capacity, ClassSize(ClassOf(capacity)))
  {
    hide Smear, DeBruijn, PositionAt, Top, Power, IsTop, Covers, RoomFor;
    if capacity == 0 {
      NoPosition();
    } else {
      PositionIsLogarithm(capacity);
      var k := PositionAt(DeBruijn(Smear(capacity)));
      if k <= ALLOCATE_START {
        SmallTop(k, capacity);
      } else {
        TopIsSmall(k, capacity);
        SmearFillsBelowTop(capacity);
        NextPowerCovers(k, capacity);
      }
    }
  }

  lemma SmallTop(k: nat, v: bv32)
    requires k <= ALLOCATE_START && IsTop(Power(k), v)
    ensures RoomFor(v, ClassSize(0))
  {
    match k
    case 0 => case 1 => case 2 => case 3 => case 4 => case _ =>
  }

  lemma TopIsSmall(k: nat, v: bv32)
    requires k < 32 && IsTop(Power(k), v) && v <= LARGEST
    ensures k <= ALLOCATE_STOP
  {
    if k > ALLOCATE_STOP {
      BelowTop(Power(k), v);
      PowersBelow(23, k, v);
    }
  }

  lemma BelowTop(p: bv32, v: bv32)
    requires IsTop(p, v)
    ensures p <= v
  {
  }

  lemma NextPowerCovers(k: nat, v: bv32)
    requires ALLOCATE_START < k < 32 && Covers(Power(k), v)
    ensures RoomFor(v, ClassSize(k - ALLOCATE_START))
  {
    hide Power;
    PowerDoubles(k);
    TwiceCovers(Power(k), v);
  }

  lemma TwiceCovers(p: bv32, v: bv32)
    requires Covers(p, v)
    ensures RoomFor(v, p << 1)
  {
  }

  lemma NoPosition()
    ensures ClassOf(0) == 0 && RoomFor(0, ClassSize(0))
  {
  }

  lemma SmallerClass(capacity: bv32, index: nat, k: nat)
    requires ALLOCATE_START + index < k < 32 && Power(k) <= capacity
    ensures ClassSize(index) <= capacity
  {
    hide Power;
    PowersBelow(ALLOCATE_START + index + 1, k, capacity);
  }

  /** And every smaller class would be too small. */
  lemma ClassIsLeast(capacity: bv32, index: nat)
    requires capacity <= LARGEST && index < ClassOf(capacity)
    ensures ClassSize(index) <= capacity
  {
    hide Smear, DeBruijn, PositionAt, Top, Power, ClassSize, IsTop;
    if capacity == 0 {
      NoPosition();
    } else {
      PositionIsLogarithm(capacity);
      BelowTop(Power(PositionAt(DeBruijn(Smear(capacity)))), capacity);
      SmallerClass(capacity, index, PositionAt(DeBruijn(Smear(capacity))));
    }
  }

  /** What the size test of Allocate lets pass: it compares signed words, so also every negative one. */
  predicate Pooled(capacity: bv32) { capacity <= LARGEST || capacity >= 0x8000_0000 }

  /** Of those, exactly the capacities that are not negative have a free list in the array. */
  lemma IndexInArray(capacity: bv32)
    requires Pooled(capacity)
    ensures ClassOf(capacity) < CLASSES <==> capacity <= LARGEST
    ensures capacity > LARGEST ==> ClassOf(capacity) == 26
  {
    if capacity <= LARGEST {
      ClassFits(capacity);
    } else {
      SmearOfNegative(capacity);
      TableIsRight();
      PositionOfPower(31);
    }
  }

  lemma SmearOfNegative(v: bv32)
    requires v >= 0x8000_0000
    ensures Smear(v) == Filled(Power(31))
  {
  }
}
