/** The buffers of limbs are large enough. */
module DtoaCapacity {
  import opened DtoaRounding
  import opened DtoaDivision
  import opened DtoaScaling
  import opened DtoaConvert
  import opened DtoaFloat
  import opened DtoaText
  import L = DtoaLogarithm

  /** The limbs of every buffer (`DBIGNUM_LEN_MAX`). */
  const CAPACITY: nat := 52

  /** The digits that always suffice (`dtoa_max_digits_table`). */
  const MAX_DIGITS: seq<nat> :=
    [54, 35, 28, 24, 22, 20, 19, 18, 17, 17, 16, 16, 15, 15, 15, 14, 14, 14, 14, 14, 13, 13, 13, 13, 13, 13, 13,
     12, 12, 12, 12, 12, 12, 12, 12]

  function MaxDigits(radix: nat): (p: nat)
    requires 2 <= radix <= 36
    ensures 12 <= p <= 54
  {
    MAX_DIGITS[radix - 2]
  }

  /** A radix split into its odd part and its power of two. */
  predicate Splits(radix: nat, radix1: nat, radixShift: nat) {
    2 <= radix <= 36 && OddRadix(radix1) && radix == Radix(radix1, radixShift)
  }

  /** n limbs are enough for every product that the search computes. */
  ghost predicate Roomy(n: nat, radix1: nat, radixShift: nat, e: int, e0: int, pMax: nat)
    requires OddRadix(radix1)
  {
    forall f | -e0 <= f <= pMax - e0 :: RoomFor(n, radix1, radixShift, e, f)
  }

  predicate RoomFor(n: nat, radix1: nat, radixShift: nat, e: int, f: int)
    requires OddRadix(radix1)
  {
    n >= 2 + Room(radix1, radixShift, f, e - PRECISION) && n >= 4 + Growth(radix1, radixShift, -f, false, 55)
  }

  // ----- limbs for digits -----

  lemma ChunksAtMost(n: nat, d: nat, k: nat)
    requires d > 0 && n <= k * d
    ensures Chunks(n, d) <= k
  {
    var c, r := DivMod(n + d - 1, d);
    if c > k {
      MulOrder(k + 1, c, d);
    }
  }

  lemma FewerDigits(a: nat)
    requires 2 <= a <= 35
    ensures DigitsPerLimb(a) >= DigitsPerLimb(a + 1)
  {
  }

  /** More digits of a smaller radix fit in a limb. */
  lemma {:induction false} DigitsOrder(a: nat, b: nat)
    requires 2 <= a <= b <= 36
    ensures DigitsPerLimb(a) >= DigitsPerLimb(b)
    decreases b - a
  {
    hide DigitsPerLimb;
    if a < b {
      FewerDigits(a);
      DigitsOrder(a + 1, b);
    }
  }

  // ----- the search -----

  /** The largest powers of the radix that the search multiplies by or divides by take 46 limbs. */
  lemma PowersFit(radix: nat)
    requires 2 <= radix <= 36
    ensures MaxDigits(radix) * L.TWO24 + 1074 * L.INVERSE_LOGS[radix - 2] <= 46 * DigitsPerLimb(radix) * L.TWO24
  {
    var mult: int, p: int, d: int := L.INVERSE_LOGS[radix - 2], MAX_DIGITS[radix - 2], DIGITS_PER_LIMB[radix - 2];
    hide L.INVERSE_LOGS, MAX_DIGITS, DIGITS_PER_LIMB;
  }

  lemma InverseBounds(radix: nat)
    requires 2 <= radix <= 36 && RadixBits(radix) == 0
    ensures var mult := L.INVERSE_LOGS[radix - 2];
            3_000_000 <= mult <= L.TWO24 && (radix >= 12 ==> 2 * mult <= L.TWO24) && (radix >= 24 ==> 3 * mult <= L.TWO24)
  {
  }

  lemma OddParts(radix: nat, radix1: nat, radixShift: nat)
    requires Splits(radix, radix1, radixShift)
    ensures radix1 <= radix && (radixShift > 0 ==> 2 * radix1 <= radix)
    ensures if radix1 == 1 then RadixBits(radix) == radixShift > 0
            else RadixBits(radix) == 0 && radixShift <= 3 && (radixShift >= 2 ==> radix >= 12) && (radixShift == 3 ==> radix >= 24)
  {
    hide Pow;
    PowersOfTwo();
    if radixShift >= 6 {
      PowMonotone(2, 6, radixShift);
      MulOrder(1, radix1, Pow(2, radixShift));
    }
  }

  lemma PowersOfTwo()
    ensures Pow(2, 0) == 1 && Pow(2, 1) == 2 && Pow(2, 2) == 4 && Pow(2, 3) == 8 && Pow(2, 4) == 16 && Pow(2, 5) == 32 && Pow(2, 6) == 64
  {
  }

  /** The powers of the search, for a radix that is not a power of two. */
  lemma PlainPowers(radix: nat, radix1: nat, radixShift: nat, e: int, e0: int, f: int)
    requires Splits(radix, radix1, radixShift) && radix1 > 1 && -1073 <= e <= 1024 && e0 == 1 + L.MulLog2Radix(e - 1, radix)
    requires -e0 <= f <= MaxDigits(radix) - e0
    ensures Chunks(if f < 0 then -f else f, DigitsPerLimb(radix1)) <= 46
    ensures f >= 0 ==> if e <= 1 then e - PRECISION + f * radixShift <= 110 else e - PRECISION + f * radixShift <= 450 && f <= 53
    ensures f < 0 ==> e >= 1
  {
    hide Pow, DigitsPerLimb, MaxDigits, Chunks;
    OddParts(radix, radix1, radixShift);
    var mult, d, p := L.INVERSE_LOGS[radix - 2], DigitsPerLimb(radix), MaxDigits(radix);
    hide L.INVERSE_LOGS;
    PowersFit(radix);
    InverseBounds(radix);
    DigitsOrder(radix1, radix);
    StartBounds(e, e0, mult, p, d, f);
    MulOrder(d, DigitsPerLimb(radix1), 46);
    ChunksAtMost(if f < 0 then -f else f, DigitsPerLimb(radix1), 46);
    if f >= 0 {
      if e <= 1 {
        ShiftTimes(mult, radixShift);
        LowShift(e, e0, mult, radixShift, p, f);
      } else {
        HighShift(e, e0, mult, radixShift, p, f);
      }
    }
  }

  lemma ShiftTimes(mult: nat, radixShift: nat)
    requires radixShift <= 3 && mult <= L.TWO24 && (radixShift >= 2 ==> 2 * mult <= L.TWO24) && (radixShift == 3 ==> 3 * mult <= L.TWO24)
    ensures mult * radixShift <= L.TWO24
  {
  }

  lemma StartBounds(e: int, e0: int, mult: nat, p: nat, d: nat, f: int)
    requires -1073 <= e <= 1024 && e0 == 1 + (e - 1) * mult / L.TWO24 && -e0 <= f <= p - e0
    requires p * L.TWO24 + 1074 * mult <= 46 * d * L.TWO24 && 1 <= p && mult > 0
    ensures (e0 - 1) * L.TWO24 <= (e - 1) * mult < e0 * L.TWO24
    ensures -46 * d <= f <= 46 * d && (f < 0 ==> e >= 1)
  {
    MulOrder(e - 1, 1023, mult);
    MulOrder(-1074, e - 1, mult);
    if e <= 0 {
      MulOrder(e - 1, -1, mult);
    }
  }

  lemma LowShift(e: int, e0: int, mult: nat, radixShift: nat, p: nat, f: int)
    requires e <= 1 && (e - 1) * mult < e0 * L.TWO24 && mult * radixShift <= L.TWO24 && radixShift <= 3 && p <= 54 && 0 <= f <= p - e0
    ensures e - PRECISION + f * radixShift <= 110
  {
    MulOrder(f, p - e0, radixShift);
    MulOrder(p, 54, radixShift);
    MulOrder(mult * radixShift, L.TWO24, 1 - e);
    MulOrder(-e0 * L.TWO24, (1 - e) * mult, radixShift);
    assert (1 - e) * mult * radixShift == mult * radixShift * (1 - e);
    assert -e0 * L.TWO24 * radixShift == L.TWO24 * (-e0 * radixShift);
  }

  lemma HighShift(e: int, e0: int, mult: nat, radixShift: nat, p: nat, f: int)
    requires 2 <= e && (e0 - 1) * L.TWO24 <= (e - 1) * mult < e0 * L.TWO24 && 3_000_000 <= mult && radixShift <= 3 && p <= 54
    requires 0 <= f <= p - e0
    ensures e - PRECISION + f * radixShift <= 450 && f <= 53
  {
    MulOrder(1, e - 1, mult);
    MulOrder(3_000_000, mult, e - 1);
    MulOrder(f, 53, radixShift);
  }

  lemma ChunksOfLimbs(n: int, k: nat)
    requires n <= k * 32
    ensures Chunks(AtLeastZero(n), 32) <= k
  {
  }

  /** Multiplying up: the digits, and the shift after them. */
  lemma RoomUp(radix1: nat, radixShift: nat, e: int, f: nat)
    requires OddRadix(radix1) && radix1 > 1 && Chunks(f, DigitsPerLimb(radix1)) <= 46
    requires if e <= 1 then e - PRECISION + f * radixShift <= 110 else e - PRECISION + f * radixShift <= 450 && f <= 53
    ensures RoomFor(CAPACITY, radix1, radixShift, e, f)
  {
    hide Chunks, DigitsPerLimb;
    ChunksOfLimbs(e - PRECISION + f * radixShift, if e <= 1 then 4 else 15);
    if e >= 2 {
      DigitsOrder(radix1, 36);
      SixDigits();
      ChunksAtMost(f, DigitsPerLimb(radix1), 9);
    }
    ChunksOfLimbs(56, 2);
    if f == 0 {
      ChunksAtMost(0, DigitsPerLimb(radix1), 0);
    }
  }

  lemma SixDigits()
    ensures DigitsPerLimb(36) == 6
  {
  }

  /** Dividing: the limbs that the division consumes, and the extra bits. */
  lemma RoomDown(radix1: nat, radixShift: nat, e: int, f: int)
    requires OddRadix(radix1) && radix1 > 1 && f < 0 && Chunks(-f, DigitsPerLimb(radix1)) <= 46 && e <= 1024
    ensures RoomFor(CAPACITY, radix1, radixShift, e, f)
  {
    hide Chunks, DigitsPerLimb;
    var l := Chunks(-f, DigitsPerLimb(radix1));
    MulOrder(0, -f, radixShift);
    ChunksOfLimbs(2 + (e - PRECISION) - (-f * radixShift + l * 32), if l <= 31 then 31 - l else 0);
  }

  lemma PlainRoom(radix: nat, radix1: nat, radixShift: nat, e: int, e0: int, f: int)
    requires Splits(radix, radix1, radixShift) && radix1 > 1 && -1073 <= e <= 1024 && e0 == 1 + L.MulLog2Radix(e - 1, radix)
    requires -e0 <= f <= MaxDigits(radix) - e0
    ensures RoomFor(CAPACITY, radix1, radixShift, e, f)
  {
    hide Pow, DigitsPerLimb, MaxDigits, L.MulLog2Radix, Radix, RoomFor, Chunks;
    PlainPowers(radix, radix1, radixShift, e, e0, f);
    if f >= 0 {
      RoomUp(radix1, radixShift, e, f);
    } else {
      RoomDown(radix1, radixShift, e, f);
    }
  }

  lemma BinaryRoom(radix: nat, radixShift: nat, e: int, e0: int, f: int)
    requires Splits(radix, 1, radixShift) && e0 == 1 + L.MulLog2Radix(e - 1, radix) && f <= MaxDigits(radix) - e0
    ensures RoomFor(CAPACITY, 1, radixShift, e, f)
  {
    hide Pow, MaxDigits, Radix, Chunks;
    OddParts(radix, 1, radixShift);
    assert e - 1 < radixShift * e0;
    MulOrder(f, MaxDigits(radix) - e0, radixShift);
    MulOrder(MaxDigits(radix), 54, radixShift);
    ChunksOfLimbs(e - PRECISION + f * radixShift, 8);
  }

  /** The buffers of the source hold every product that the search computes. */
  lemma SearchFits(n: nat, radix: nat, radix1: nat, radixShift: nat, e: int, e0: int)
    requires Splits(radix, radix1, radixShift) && -1073 <= e <= 1024 && e0 == 1 + L.MulLog2Radix(e - 1, radix) && n >= CAPACITY
    ensures Roomy(n, radix1, radixShift, e, e0, MaxDigits(radix))
  {
    hide Pow, MaxDigits, L.MulLog2Radix, Radix, Room, Growth;
    forall f | -e0 <= f <= MaxDigits(radix) - e0 ensures RoomFor(n, radix1, radixShift, e, f) {
      if radix1 == 1 {
        BinaryRoom(radix, radixShift, e, e0, f);
      } else {
        PlainRoom(radix, radix1, radixShift, e, e0, f);
      }
    }
  }
}
