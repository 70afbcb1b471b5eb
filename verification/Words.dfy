/** Machine words: the bits that shifts, masks and exclusive ors work on, and the numbers they
    stand for. Negative numbers are in two's complement. */
module Words {

  const TWO31 := 0x8000_0000
  const TWO32 := 0x1_0000_0000
  const TWO63 := 0x8000_0000_0000_0000
  const TWO64 := 0x1_0000_0000_0000_0000

  // ---- 32 bits

  function Nat32(w: bv32): nat { w as int }

  function Bits32(x: nat): bv32
    requires x < TWO32
  {
    x as bv32
  }

  /** Two's complement: the signed number that a word stands for, and the word of a signed number. */
  function Signed32(w: bv32): int { if Nat32(w) < TWO31 then Nat32(w) else Nat32(w) - TWO32 }

  function Word32(n: int): bv32
    requires -TWO31 <= n < TWO31
  {
    if n < 0 then Bits32(n + TWO32) else Bits32(n)
  }

  predicate Negative32(w: bv32) { w & 0x8000_0000 != 0 }

  predicate Odd32(w: bv32) { w & 1 != 0 }

  function Half32(w: bv32): bv32 { w >> 1 }

  function Append32(w: bv32, one: bool): bv32 { if one then (w << 1) | 1 else w << 1 }

  function Without32(w: bv32, part: bv32): bv32 { w ^ part }

  predicate Within32(part: bv32, w: bv32) { Both32(w, part) == part }

  function Both32(v: bv32, w: bv32): bv32 { v & w }

  function Not32(w: bv32): bv32 { !w }

  lemma Range32(w: bv32)
    ensures Nat32(w) < TWO32 && (Nat32(w) == 0 ==> w == 0) && Bits32(Nat32(w)) == w
    ensures Nat32(0) == 0 && Nat32(0xFFFF_FFFF) == TWO32 - 1
  {
  }

  lemma AppendZero32(w: bv32)
    requires w & 0x8000_0000 == 0
    ensures (w << 1) as int == 2 * (w as int)
  {
  }

  lemma AppendOne32(w: bv32)
    requires w & 0x8000_0000 == 0
    ensures ((w << 1) | 1) as int == 2 * (w as int) + 1
  {
  }

  lemma AppendValue32(w: bv32, one: bool)
    requires !Negative32(w)
    ensures Nat32(Append32(w, one)) == 2 * Nat32(w) + if one then 1 else 0
  {
    if one { AppendOne32(w); } else { AppendZero32(w); }
  }

  lemma Parts32(w: bv32)
    ensures !Negative32(Half32(w)) && w == Append32(Half32(w), Odd32(w))
  {
  }

  /** The value of a word, one digit at a time. */
  lemma LowDigit32(w: bv32)
    ensures Nat32(w) == 2 * Nat32(Half32(w)) + if Odd32(w) then 1 else 0
  {
    hide *;
    Parts32(w);
    AppendValue32(Half32(w), Odd32(w));
  }

  lemma HalfBits32(w: bv32, part: bv32)
    ensures Half32(Without32(w, part)) == Without32(Half32(w), Half32(part))
    ensures Half32(Both32(w, part)) == Both32(Half32(w), Half32(part))
  {
  }

  lemma WithoutBits32(w: bv32, part: bv32)
    requires Within32(part, w)
    ensures Within32(Half32(part), Half32(w))
    ensures Half32(Without32(w, part)) == Without32(Half32(w), Half32(part))
  {
    hide Half32, Without32, Both32;
    HalfBits32(w, part);
  }

  lemma WithoutLowBit32(w: bv32, part: bv32)
    requires Within32(part, w)
    ensures Odd32(Without32(w, part)) <==> Odd32(w) && !Odd32(part)
    ensures Odd32(part) ==> Odd32(w)
    ensures w == 0 ==> part == 0 && Without32(w, part) == 0
  {
  }

  /** Clearing some bits of a word subtracts them. */
  lemma {:induction false} WithoutValue32(w: bv32, part: bv32)
    requires Within32(part, w)
    ensures Nat32(Without32(w, part)) == Nat32(w) - Nat32(part)
    decreases Nat32(w)
  {
    hide *;
    Range32(w);
    LowDigit32(w);
    LowDigit32(part);
    LowDigit32(Without32(w, part));
    WithoutBits32(w, part);
    WithoutLowBit32(w, part);
    if w != 0 {
      Range32(Half32(w));
      WithoutValue32(Half32(w), Half32(part));
    }
  }

  lemma AllBits32(w: bv32)
    ensures Within32(w, 0xFFFF_FFFF) && Without32(0xFFFF_FFFF, w) == Not32(w)
    ensures Negative32(Not32(w)) <==> !Negative32(w)
  {
  }

  /** Flipping all bits. */
  lemma Complement32(w: bv32)
    ensures Nat32(Not32(w)) == TWO32 - 1 - Nat32(w)
  {
    hide *;
    Range32(0);
    AllBits32(w);
    WithoutValue32(0xFFFF_FFFF, w);
  }

  /** The highest bit is the sign. */
  lemma SignBit32(w: bv32)
    ensures Negative32(w) <==> Nat32(w) >= TWO31
  {
    hide Nat32, Negative32, Append32, Not32;
    Complement32(w);
    AllBits32(w);
    var v := if Negative32(w) then Not32(w) else w;
    AppendValue32(v, false);
    Range32(Append32(v, false));
  }

  lemma NoBits32()
    ensures Bits32(0) == 0
  {
  }

  /** Numbers and words of 32 bits are the same. */
  lemma {:induction false} BitsRoundTrip32(x: nat)
    requires x < TWO32
    ensures Nat32(Bits32(x)) == x
  {
    hide Nat32, Negative32, Append32, Bits32;
    if x == 0 {
      NoBits32();
      Range32(0);
    } else {
      var half := Bits32(x / 2);
      var w := Append32(half, x % 2 == 1);
      BitsRoundTrip32(x / 2);
      SignBit32(half);
      AppendValue32(half, x % 2 == 1);
      Range32(w);
    }
  }

  lemma WordRoundTrip32(n: int)
    requires -TWO31 <= n < TWO31
    ensures Signed32(Word32(n)) == n
  {
    hide Bits32, Nat32;
    BitsRoundTrip32(if n < 0 then n + TWO32 else n);
  }


  function Three(w: bv32): nat { Bit(w) + 2 * Bit(Half32(w)) + 4 * Bit(Half32(Half32(w))) }

  function Eighth(w: bv32): bv32 { Half32(Half32(Half32(w))) }

  /** The number made by the seven low bits. */
  function LowSeven(w: bv32): nat { Three(w) + 8 * Three(Eighth(w)) + 64 * Bit(Eighth(Eighth(w))) }

  function Bit(w: bv32): nat { if Odd32(w) then 1 else 0 }

  function Above(w: bv32): bv32 { w >> 7 }

  function Masked(w: bv32): bv32 { w & 0x7F }

  lemma SevenBits(w: bv32)
    ensures Above(w) == Half32(Eighth(Eighth(w)))
    ensures Above(Masked(w)) == 0
  {
  }

  lemma ThreeDigits(w: bv32)
    ensures Nat32(w) == 8 * Nat32(Eighth(w)) + Three(w)
  {
    hide Nat32, Half32, Odd32;
    LowDigit32(w);
    LowDigit32(Half32(w));
    LowDigit32(Half32(Half32(w)));
  }

  lemma MaskKeepsLowSeven(w: bv32)
    ensures LowSeven(Masked(w)) == LowSeven(w)
  {
  }

  lemma SevenDigits(w: bv32)
    ensures Nat32(w) == 128 * Nat32(Above(w)) + LowSeven(w)
  {
    hide Nat32, Half32, Odd32, Above, Masked, Eighth, Three;
    SevenBits(w);
    ThreeDigits(w);
    ThreeDigits(Eighth(w));
    LowDigit32(Eighth(Eighth(w)));
  }

  /** A shift by 7 is a division by 128, and masking seven bits gives the remainder. */
  lemma ShiftAndMask(w: bv32)
    ensures Nat32(w >> 7) == Nat32(w) / 128 && Nat32(w & 0x7F) == Nat32(w) % 128
  {
    hide Nat32, LowSeven;
    assert w >> 7 == Above(w) && w & 0x7F == Masked(w);
    QuotientAndRest(w);
  }

  lemma QuotientAndRest(w: bv32)
    ensures Nat32(Above(w)) == Nat32(w) / 128 && Nat32(Masked(w)) == Nat32(w) % 128
  {
    hide Nat32, Above, Masked, LowSeven;
    SevenDigits(w);
    SevenDigits(Masked(w));
    SevenBits(w);
    MaskKeepsLowSeven(w);
    LowSevenBound(w);
    Range32(0);
  }

  lemma LowSevenBound(w: bv32)
    ensures LowSeven(w) < 128
  {
    hide Half32, Odd32;
  }
  // ---- 64 bits

  function Nat64(w: bv64): nat { w as int }

  function Bits64(x: nat): bv64
    requires x < TWO64
  {
    x as bv64
  }

  /** Two's complement: the signed number that a word stands for, and the word of a signed number. */
  function Signed64(w: bv64): int { if Nat64(w) < TWO63 then Nat64(w) else Nat64(w) - TWO64 }

  function Word64(n: int): bv64
    requires -TWO63 <= n < TWO63
  {
    if n < 0 then Bits64(n + TWO64) else Bits64(n)
  }

  predicate Negative64(w: bv64) { w & 0x8000_0000_0000_0000 != 0 }

  predicate Odd64(w: bv64) { w & 1 != 0 }

  function Half64(w: bv64): bv64 { w >> 1 }

  function Append64(w: bv64, one: bool): bv64 { if one then (w << 1) | 1 else w << 1 }

  function Without64(w: bv64, part: bv64): bv64 { w ^ part }

  predicate Within64(part: bv64, w: bv64) { Both64(w, part) == part }

  function Both64(v: bv64, w: bv64): bv64 { v & w }

  function Not64(w: bv64): bv64 { !w }

  lemma Range64(w: bv64)
    ensures Nat64(w) < TWO64 && (Nat64(w) == 0 ==> w == 0) && Bits64(Nat64(w)) == w
    ensures Nat64(0) == 0 && Nat64(0xFFFF_FFFF_FFFF_FFFF) == TWO64 - 1
  {
  }

  lemma AppendZero64(w: bv64)
    requires w & 0x8000_0000_0000_0000 == 0
    ensures (w << 1) as int == 2 * (w as int)
  {
  }

  lemma AppendOne64(w: bv64)
    requires w & 0x8000_0000_0000_0000 == 0
    ensures ((w << 1) | 1) as int == 2 * (w as int) + 1
  {
  }

  lemma AppendValue64(w: bv64, one: bool)
    requires !Negative64(w)
    ensures Nat64(Append64(w, one)) == 2 * Nat64(w) + if one then 1 else 0
  {
    if one { AppendOne64(w); } else { AppendZero64(w); }
  }

  lemma Parts64(w: bv64)
    ensures !Negative64(Half64(w)) && w == Append64(Half64(w), Odd64(w))
  {
  }

  /** The value of a word, one digit at a time. */
  lemma LowDigit64(w: bv64)
    ensures Nat64(w) == 2 * Nat64(Half64(w)) + if Odd64(w) then 1 else 0
  {
    hide *;
    Parts64(w);
    AppendValue64(Half64(w), Odd64(w));
  }

  lemma HalfBits64(w: bv64, part: bv64)
    ensures Half64(Without64(w, part)) == Without64(Half64(w), Half64(part))
    ensures Half64(Both64(w, part)) == Both64(Half64(w), Half64(part))
  {
  }

  lemma WithoutBits64(w: bv64, part: bv64)
    requires Within64(part, w)
    ensures Within64(Half64(part), Half64(w))
    ensures Half64(Without64(w, part)) == Without64(Half64(w), Half64(part))
  {
    hide Half64, Without64, Both64;
    HalfBits64(w, part);
  }

  lemma WithoutLowBit64(w: bv64, part: bv64)
    requires Within64(part, w)
    ensures Odd64(Without64(w, part)) <==> Odd64(w) && !Odd64(part)
    ensures Odd64(part) ==> Odd64(w)
    ensures w == 0 ==> part == 0 && Without64(w, part) == 0
  {
  }

  /** Clearing some bits of a word subtracts them. */
  lemma {:induction false} WithoutValue64(w: bv64, part: bv64)
    requires Within64(part, w)
    ensures Nat64(Without64(w, part)) == Nat64(w) - Nat64(part)
    decreases Nat64(w)
  {
    hide *;
    Range64(w);
    LowDigit64(w);
    LowDigit64(part);
    LowDigit64(Without64(w, part));
    WithoutBits64(w, part);
    WithoutLowBit64(w, part);
    if w != 0 {
      Range64(Half64(w));
      WithoutValue64(Half64(w), Half64(part));
    }
  }

  lemma AllBits64(w: bv64)
    ensures Within64(w, 0xFFFF_FFFF_FFFF_FFFF) && Without64(0xFFFF_FFFF_FFFF_FFFF, w) == Not64(w)
    ensures Negative64(Not64(w)) <==> !Negative64(w)
  {
  }

  /** Flipping all bits. */
  lemma Complement64(w: bv64)
    ensures Nat64(Not64(w)) == TWO64 - 1 - Nat64(w)
  {
    hide *;
    Range64(0);
    AllBits64(w);
    WithoutValue64(0xFFFF_FFFF_FFFF_FFFF, w);
  }

  /** The highest bit is the sign. */
  lemma SignBit64(w: bv64)
    ensures Negative64(w) <==> Nat64(w) >= TWO63
  {
    hide Nat64, Negative64, Append64, Not64;
    Complement64(w);
    AllBits64(w);
    var v := if Negative64(w) then Not64(w) else w;
    AppendValue64(v, false);
    Range64(Append64(v, false));
  }

  lemma NoBits64()
    ensures Bits64(0) == 0
  {
  }

  /** Numbers and words of 64 bits are the same. */
  lemma {:induction false} BitsRoundTrip64(x: nat)
    requires x < TWO64
    ensures Nat64(Bits64(x)) == x
  {
    hide Nat64, Negative64, Append64, Bits64;
    if x == 0 {
      NoBits64();
      Range64(0);
    } else {
      var half := Bits64(x / 2);
      var w := Append64(half, x % 2 == 1);
      BitsRoundTrip64(x / 2);
      SignBit64(half);
      AppendValue64(half, x % 2 == 1);
      Range64(w);
    }
  }

  lemma WordRoundTrip64(n: int)
    requires -TWO63 <= n < TWO63
    ensures Signed64(Word64(n)) == n
  {
    hide Bits64, Nat64;
    BitsRoundTrip64(if n < 0 then n + TWO64 else n);
  }
}
