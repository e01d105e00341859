/** The search of `js_dtoa` for a short mantissa that converts back. */
module DtoaSearch {
  import opened DtoaRounding
  import opened DtoaDivision
  import opened DtoaBignum
  import opened DtoaScaling
  import opened DtoaConvert
  import opened DtoaCapacity
  import opened DtoaFloat
  import opened DtoaFree
  import opened DtoaDouble
  import opened DtoaShortest
  import L = DtoaLogarithm

  /** That many digits tell all float64 numbers apart, and fit in 64 bits with one bit to spare. */
  lemma MaxDigitsEnough(radix: nat)
    requires 2 <= radix <= 36
    ensures var p := MaxDigits(radix); Pow(radix, p - 1) >= Pow(2, 53) && 2 * Pow(radix, p) < B * B
  {
    hide Pow;
    SmallPowers();
    PowersLow();
    PowersMiddle();
    PowersHigh();
    var p := MaxDigits(radix);
    if 10 <= radix {
      var low := if radix <= 11 then 10 else if radix <= 13 then 12 else if radix <= 16 then 14
                 else if radix <= 21 then 17 else if radix <= 28 then 22 else 29;
      var high := if radix <= 11 then 11 else if radix <= 13 then 13 else if radix <= 16 then 16
                  else if radix <= 21 then 21 else if radix <= 28 then 28 else 36;
      PowBase(low, radix, p - 1);
      PowBase(radix, high, p);
    }
  }

  const TWO53 := 0x20_0000_0000_0000
  const TWO63 := 0x8000_0000_0000_0000

  lemma PowersLow()
    ensures Pow(2, 54) < TWO63 && TWO53 <= Pow(3, 34) && Pow(3, 35) < TWO63 && TWO53 <= Pow(4, 27) && Pow(4, 28) < TWO63
    ensures TWO53 <= Pow(5, 23) && Pow(5, 24) < TWO63 && TWO53 <= Pow(6, 21) && Pow(6, 22) < TWO63
  {
    hide Pow;
    SmallPowers();
    PowPlus(2, 1, 53);
    SmallestPowers();
    PowSquare(3, 8); PowSquare(3, 16); PowPlus(3, 32, 2); PowPlus(3, 32, 3);
    PowPow(2, 2, 27); PowPow(2, 2, 28); PowPlus(2, 1, 54); PowPlus(2, 1, 55);
    PowSquare(5, 6); PowPlus(5, 12, 11); PowPlus(5, 12, 12); PowPlus(5, 6, 5);
    PowSquare(6, 5); PowPlus(6, 10, 10); PowPlus(6, 20, 1); PowPlus(6, 20, 2);
    LowValues();
  }

  lemma LowValues()
    ensures Pow(2, 2) == 4 && Pow(3, 2) == 9 && Pow(3, 3) == 27 && Pow(3, 8) == 6561
    ensures Pow(5, 5) == 3125 && Pow(5, 6) == 15625 && Pow(6, 1) == 6 && Pow(6, 2) == 36 && Pow(6, 5) == 7776
  {
  }

  lemma PowersMiddle()
    ensures TWO53 <= Pow(7, 19) && Pow(7, 20) < TWO63 && TWO53 <= Pow(8, 18) && Pow(8, 19) < TWO63
    ensures TWO53 <= Pow(9, 17) && Pow(9, 18) < TWO63 && TWO53 <= Pow(10, 16) && Pow(11, 17) < TWO63
    ensures TWO53 <= Pow(12, 15) && Pow(13, 16) < TWO63
  {
    hide Pow;
    MiddleValues();
    PowSquare(7, 5); PowPlus(7, 10, 9); PowPlus(7, 5, 4); PowPlus(7, 10, 10);
    PowSquare(8, 5); PowPlus(8, 10, 8); PowPlus(8, 10, 9); PowPlus(8, 5, 4); PowSquare(8, 4);
    PowSquare(9, 4); PowPlus(9, 8, 9); PowPlus(9, 8, 10); PowPlus(9, 8, 1); PowPlus(9, 9, 1);
    PowSquare(10, 4); PowSquare(10, 8);
    PowSquare(11, 4); PowPlus(11, 8, 9); PowPlus(11, 8, 1);
    PowSquare(12, 4); PowPlus(12, 8, 7); PowPlus(12, 4, 3);
    PowSquare(13, 4); PowSquare(13, 8);
  }

  lemma MiddleValues()
    ensures Pow(7, 4) == 2401 && Pow(7, 5) == 16807 && Pow(8, 4) == 4096 && Pow(8, 5) == 32768
    ensures Pow(9, 1) == 9 && Pow(9, 4) == 6561 && Pow(10, 4) == 10000 && Pow(11, 1) == 11 && Pow(11, 4) == 14641
    ensures Pow(12, 3) == 1728 && Pow(12, 4) == 20736 && Pow(13, 4) == 28561
  {
  }

  lemma PowersHigh()
    ensures TWO53 <= Pow(14, 14) && Pow(16, 15) < TWO63 && TWO53 <= Pow(17, 13) && Pow(21, 14) < TWO63
    ensures TWO53 <= Pow(22, 12) && Pow(28, 13) < TWO63 && TWO53 <= Pow(29, 11) && Pow(36, 12) < TWO63
  {
    hide Pow;
    HighValues();
    PowPlus(14, 4, 3); PowSquare(14, 7);
    PowSquare(16, 4); PowPlus(16, 4, 3); PowPlus(16, 8, 7);
    PowSquare(17, 3); PowSquare(17, 6); PowPlus(17, 12, 1);
    PowPlus(21, 4, 3); PowSquare(21, 7);
    PowSquare(22, 3); PowSquare(22, 6);
    PowSquare(28, 3); PowSquare(28, 6); PowPlus(28, 12, 1);
    PowSquare(29, 4); PowPlus(29, 8, 3);
    PowSquare(36, 3); PowSquare(36, 6);
  }

  lemma HighValues()
    ensures Pow(14, 3) == 2744 && Pow(14, 4) == 38416 && Pow(16, 3) == 4096 && Pow(16, 4) == 65536
    ensures Pow(17, 1) == 17 && Pow(17, 3) == 4913 && Pow(21, 3) == 9261 && Pow(21, 4) == 194481 && Pow(22, 3) == 10648
    ensures Pow(28, 1) == 28 && Pow(28, 3) == 21952 && Pow(29, 3) == 24389 && Pow(29, 4) == 707281 && Pow(36, 3) == 46656
  {
  }

  // ----- the search -----

  /** mant * radix^(E - P) has P digits, the last of them not zero, and converts back to (m, e). */
  ghost predicate Converts(m: nat, e: int, radix: nat, mant: nat, exp: int, p: nat)
    requires radix > 0
  {
    p >= 1 && Pow(radix, p - 1) <= mant < Pow(radix, p) && mant % radix != 0
    && Rounded(NearestEven, Times(mant as real, radix, exp - p), m, e)
  }

  lemma ExactTimes(m: nat, e: int, radix1: nat, radixShift: nat, f: int)
    requires radix1 > 0
    ensures Exact(m, radix1, radixShift, f, e - PRECISION) == Times(Float(m, e), Radix(radix1, radixShift), f)
    ensures Exact(m, radix1, radixShift, f, 0) == Times(m as real, Radix(radix1, radixShift), f)
  {
    hide Power, Radix;
    var r := Power(Radix(radix1, radixShift), f);
    Turn(m as real, r, Power(2, e - PRECISION));
    PowerZero(2);
    assert m as real * r * 1.0 == m as real * r;
  }

  lemma Turn(x: real, y: real, z: real)
    ensures x * y * z == x * z * y
  {
  }

  /** E is the only exponent of that kind. */
  lemma FirstExponentIs(e: int, radix: nat, e0: int)
    requires 2 <= radix <= 36 && FirstExponent(e, radix, e0) && -1073 <= e <= 1024
    ensures e0 == 1 + L.MulLog2Radix(e - 1, radix)
  {
    hide Power, L.MulLog2Radix;
    var n := L.MulLog2Radix(e - 1, radix);
    L.LogIsExact(e - 1, radix);
    PowerOrder(radix, e0 - 1, n + 1);
    PowerOrder(radix, n, e0);
  }

  lemma EnoughRoom(n: nat, radix: nat, radix1: nat, radixShift: nat, e: int, e0: int)
    requires Splits(radix, radix1, radixShift) && FirstExponent(e, radix, e0) && -1073 <= e <= 1024 && n >= CAPACITY
    ensures Roomy(n, radix1, radixShift, e, e0, MaxDigits(radix))
  {
    hide FirstExponent, Roomy, L.MulLog2Radix, MaxDigits, Radix;
    FirstExponentIs(e, radix, e0);
    SearchFits(n, radix, radix1, radixShift, e, e0);
  }

  /** One attempt at P digits: E is raised at most once. */
  method Attempt(tmp: Bignum, m: nat, e: int, radix: nat, radix1: nat, radixShift: nat, e0: int, p: nat)
    returns (mant: nat, exp: int)
    requires Float64(m, e) && e <= 1024 && Splits(radix, radix1, radixShift) && FirstExponent(e, radix, e0)
    requires 1 <= p <= MaxDigits(radix) && tmp.tab.Length >= CAPACITY
    modifies tmp, tmp.tab
    ensures exp == e0 || (exp == e0 + 1 && Round(NearestEven, Times(Float(m, e), radix, p - e0)) >= Pow(radix, p))
    ensures mant == Round(NearestEven, Times(Float(m, e), radix, p - exp))
    ensures Pow(radix, p - 1) <= mant < Pow(radix, p)
  {
    hide Pow, Round, Times, Float, FirstExponent, Room, Growth, Exact, MaxDigits, Radix;
    EnoughRoom(tmp.tab.Length, radix, radix1, radixShift, e, e0);
    Fits(m, e, radix, e0, p);
    var most := PowSmall(radix, p);
    exp := e0;
    while true
      invariant exp == e0 || (exp == e0 + 1 && Round(NearestEven, Times(Float(m, e), radix, p - e0)) >= Pow(radix, p))
      decreases e0 + 1 - exp
    {
      ExactTimes(m, e, radix1, radixShift, p - exp);
      assert RoomFor(tmp.tab.Length, radix1, radixShift, e, p - exp);
      MulPowRound(tmp, m, e - PRECISION, radix1, radixShift, p - exp, NearestEven);
      if exp == e0 {
        PlainSize(m, e, radix, e0, p);
      } else {
        CarriedSize(m, e, radix, e0, p);
      }
      mant := GetU64(tmp);
      if mant < most {
        break;
      }
      exp := exp + 1;
    }
  }

  lemma Fits(m: nat, e: int, radix: nat, e0: int, p: nat)
    requires 2 <= radix <= 36 && 1 <= p <= MaxDigits(radix) && Float64(m, e)
    ensures 0 < m < B * B && 2 * Pow(radix, p) < B * B
  {
    hide Pow, MaxDigits;
    MaxDigitsEnough(radix);
    PowMonotone(radix, p, MaxDigits(radix));
    SmallPowers();
  }

  /** Removes trailing zero digits. */
  method StripZeros(mant0: nat, exp: int, p0: nat, radix: nat) returns (mant: nat, p: nat)
    requires radix >= 2 && p0 >= 1 && Pow(radix, p0 - 1) <= mant0 < Pow(radix, p0)
    ensures 1 <= p <= p0 && Pow(radix, p - 1) <= mant < Pow(radix, p) && mant % radix != 0
    ensures Times(mant as real, radix, exp - p) == Times(mant0 as real, radix, exp - p0)
  {
    hide Pow, Times;
    mant, p := mant0, p0;
    while mant % radix == 0
      invariant 1 <= p <= p0 && Pow(radix, p - 1) <= mant < Pow(radix, p)
      invariant Times(mant as real, radix, exp - p) == Times(mant0 as real, radix, exp - p0)
      decreases p
    {
      DropDigit(mant, radix, p, exp);
      mant := mant / radix;
      p := p - 1;
    }
  }

  lemma DropDigit(mant: nat, radix: nat, p: nat, exp: int)
    requires radix >= 2 && p >= 1 && Pow(radix, p - 1) <= mant < Pow(radix, p) && mant % radix == 0
    ensures p >= 2 && Pow(radix, p - 2) <= mant / radix < Pow(radix, p - 1) && mant / radix < mant
    ensures Times((mant / radix) as real, radix, exp - (p - 1)) == Times(mant as real, radix, exp - p)
  {
    hide Pow;
    var q, _ := DivMod(mant, radix);
    PowUp(radix, p - 1);
    PowStart(radix);
    assert mant == radix * q;
    Cancels(radix, q, Pow(radix, p - 1));
    MulOrder(2, radix, q);
    PowUp(radix, p - 2);
    Cancels(radix, q, Pow(radix, p - 2));
    DropWeight(mant, q, radix, exp - p);
  }

  lemma Cancels(r: nat, q: int, x: int)
    requires r > 0
    ensures r * q < r * x ==> q < x
    ensures r * x <= r * q ==> x <= q
  {
    if q < x {
      MulOrder(q + 1, x, r);
    } else {
      MulOrder(x, q, r);
    }
  }

  lemma DropWeight(mant: nat, q: nat, radix: nat, f: int)
    requires radix > 0 && mant == radix * q
    ensures Times(q as real, radix, f + 1) == Times(mant as real, radix, f)
  {
    hide Power;
    PowerNext(radix, f);
    RealProduct(radix, q);
    Rotate(q as real, radix as real, Power(radix, f));
    AssociateReal(radix as real, q as real, Power(radix, f));
  }

  /** The first attempt, at the largest number of digits, needs no check. */
  lemma FirstAttempt(m: nat, e: int, radix: nat, e0: int, p: nat, mant: nat, exp: int)
    requires Float64(m, e) && radix >= 2 && FirstExponent(e, radix, e0) && p >= 1 && Pow(radix, p - 1) >= Pow(2, 53)
    requires exp == e0 || (exp == e0 + 1 && Round(NearestEven, Times(Float(m, e), radix, p - e0)) >= Pow(radix, p))
    requires mant == Round(NearestEven, Times(Float(m, e), radix, p - exp))
    ensures Rounded(NearestEven, Times(mant as real, radix, exp - p), m, e)
  {
    hide Pow, Round, Times, Float, FirstExponent, Rounded;
    if exp == e0 {
      PlainTry(m, e, radix, e0, p, mant);
    } else {
      CarriedTry(m, e, radix, e0, p, mant);
    }
  }

  /** What an attempt gives are the best digits. */
  lemma AttemptIsBest(m: nat, e: int, radix: nat, e0: int, p: nat, mant: nat, exp: int)
    requires radix > 0 && mant < Pow(radix, p) && mant == Round(NearestEven, Times(Float(m, e), radix, p - exp))
    requires exp == e0 || (exp == e0 + 1 && Round(NearestEven, Times(Float(m, e), radix, p - e0)) >= Pow(radix, p))
    ensures Times(mant as real, radix, exp - p) == BestValue(m, e, radix, e0, p)
  {
    hide Round, Float, Pow, Times;
  }

  /** Where the search stops: one digit, or the best numeral with one digit less means another float. */
  ghost predicate StopsShort(m: nat, e: int, radix: nat, e0: int, p: nat)
    requires radix > 0
  {
    p == 1 || (p > 1 && !Rounded(NearestEven, BestValue(m, e, radix, e0, p - 1), m, e))
  }

  lemma OtherFloat(m: nat, e: int, x: real, m1: nat, e1: int)
    requires Float64(m, e) && Rounded(NearestEven, x, m1, e1) && !(m1 == m && e1 == e)
    ensures !Rounded(NearestEven, x, m, e)
  {
    hide Rounded;
    MantissaBounds(m, e);
    if Rounded(NearestEven, x, m, e) {
      RoundedUnique(NearestEven, x, m, e, m1, e1);
    }
  }

  /** The free-format branch of `js_dtoa`. */
  method FindDigits(tmp: Bignum, m: nat, e: int, radix: nat, radix1: nat, radixShift: nat, e0: int)
    returns (mant: nat, exp: int, p: nat)
    requires Float64(m, e) && e <= 1024 && Splits(radix, radix1, radixShift) && FirstExponent(e, radix, e0)
    requires tmp.tab.Length >= CAPACITY
    modifies tmp, tmp.tab
    ensures p <= MaxDigits(radix) && Converts(m, e, radix, mant, exp, p) && e0 <= exp <= e0 + 1
    ensures StopsShort(m, e, radix, e0, p) && (Symmetric(m, e) ==> NoShorter(m, e, radix, p))
  {
    hide Pow, Times, Float, FirstExponent, Rounded, Round, MaxDigits, Room, Growth, Exact, BestValue, Symmetric, NoShorter;
    MaxDigitsEnough(radix);
    var tries := MaxDigits(radix);
    mant, exp, p := 0, 0, 0;
    while true
      invariant 1 <= tries <= MaxDigits(radix) && p <= MaxDigits(radix)
      invariant if p == 0 then tries == MaxDigits(radix) else Converts(m, e, radix, mant, exp, p) && e0 <= exp <= e0 + 1 && tries == p - 1
      decreases tries
    {
      var mant1, exp1 := Attempt(tmp, m, e, radix, radix1, radixShift, e0, tries);
      if p == 0 {
        FirstAttempt(m, e, radix, e0, tries, mant1, exp1);
      }
      ghost var mantAll := mant1;
      var p1;
      mant1, p1 := StripZeros(mant1, exp1, tries, radix);
      if p != 0 {
        var m1, e1 := ConvertBack(tmp, mant1, exp1 - p1, radix, radix1, radixShift, p1, e, e0);
        if !(m1 == m && e1 == e) {
          AttemptIsBest(m, e, radix, e0, tries, mantAll, exp1);
          OtherFloat(m, e, BestValue(m, e, radix, e0, tries), m1, e1);
          break;
        }
      }
      mant, exp, p := mant1, exp1, p1;
      if p == 1 {
        break;
      }
      tries := p - 1;
    }
    if Symmetric(m, e) {
      BestFails(m, e, radix, e0, p);
    }
  }

  method ConvertBack(tmp: Bignum, mant: nat, f: int, radix: nat, radix1: nat, radixShift: nat, ghost p: nat, ghost e: int, ghost e0: int)
    returns (m1: nat, e1: int)
    requires Splits(radix, radix1, radixShift) && 1 <= p <= MaxDigits(radix) && Pow(radix, p - 1) <= mant < Pow(radix, p)
    requires f == e0 - p || f == e0 + 1 - p
    requires FirstExponent(e, radix, e0) && -1073 <= e <= 1024 && tmp.tab.Length >= CAPACITY
    modifies tmp, tmp.tab
    ensures Rounded(NearestEven, Times(mant as real, radix, f), m1, e1)
  {
    hide Pow, Times, Rounded, Round, MaxDigits, Room, Growth, Exact, FirstExponent;
    EnoughRoom(tmp.tab.Length, radix, radix1, radixShift, e, e0);
    MaxDigitsEnough(radix);
    PowMonotone(radix, p, MaxDigits(radix));
    ghost var g := -f;
    assert RoomFor(tmp.tab.Length, radix1, radixShift, e, g);
    SetU64(tmp, mant);
    ExactTimes(mant, 0, radix1, radixShift, f);
    m1, e1 := MulPowRoundToFloat(tmp, radix1, radixShift, f, NearestEven);
  }
}
