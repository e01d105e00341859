/** The bits of a float64. */
module DtoaDouble {
  import opened DtoaRounding
  import opened DtoaDivision
  import opened DtoaBits
  import opened DtoaBignum
  import opened DtoaScaling
  import opened DtoaConvert
  import opened DtoaFloat
  import opened DtoaNearest
  import opened DtoaFree

  const FRACTION := 0x10_0000_0000_0000
  const INFINITY := 0x7FF0_0000_0000_0000

  /** The magnitude of a finite number other than zero. */
  predicate IsMagnitude(a: nat) {
    0 < a < INFINITY
  }

  /** The first lines of `js_dtoa`: a normalised mantissa and an exponent, for subnormals too */
  function Unpack(a: nat): (nat, int)
    requires IsMagnitude(a)
  {
    var e, m := a / FRACTION, a % FRACTION;
    if e == 0 then
      var l := 53 - BitLength(m);
      SubnormalBits(m);
      (m * Pow(2, l), -(l - 1) - 1022)
    else (m + FRACTION, e - 1022)
  }

  lemma SubnormalBits(m: nat)
    requires m < FRACTION
    ensures BitLength(m) <= 52
  {
    hide Pow;
    SmallPowers();
    if BitLength(m) > 52 {
      PowMonotone(2, 52, BitLength(m) - 1);
    }
  }

  /** The last lines of `js_atod`. */
  function Pack(m: nat, e: int): nat {
    if m == 0 then 0
    else if e > 1024 then INFINITY
    else if e < -1073 then 0
    else if e < -1021 then m / Pow(2, -e - 1021)
    else (e + 1022) * FRACTION + m % FRACTION
  }

  lemma UnpackParts(a: nat)
    requires IsMagnitude(a)
    ensures var (m, e) := Unpack(a); Float64(m, e) && e <= 1024
    ensures a < FRACTION ==> exists l: int | 1 <= l <= 52 :: Unpack(a) == (a * Pow(2, l), -1021 - l)
    ensures a >= FRACTION ==> Unpack(a) == (a % FRACTION + FRACTION, a / FRACTION - 1022) && 1 <= a / FRACTION <= 2046
  {
    hide Pow, BitLength;
    SmallPowers();
    var e, m := a / FRACTION, a % FRACTION;
    if e == 0 {
      var l: int := 53 - BitLength(m);
      SubnormalBits(m);
      assert a == m;
      PowPlus(2, BitLength(m) - 1, l);
      PowPlus(2, BitLength(m), l);
      MulOrder(Pow(2, BitLength(m) - 1), m, Pow(2, l));
      MulOrder(m, Pow(2, BitLength(m)) - 1, Pow(2, l));
      assert Unpack(a) == (a * Pow(2, l), -1021 - l);
      QuotientIs(m * Pow(2, l), Pow(2, l), m, 0);
    }
  }

  /** The number that bits stand for. */
  function Magnitude(a: nat): real {
    if a < FRACTION then Shifted(a, -1074) else Shifted(a % FRACTION + FRACTION, a / FRACTION - 1075)
  }

  lemma UnpackValue(a: nat)
    requires IsMagnitude(a)
    ensures var (m, e) := Unpack(a); Float(m, e) == Magnitude(a)
  {
    hide Pow, Power, Unpack, Shifted;
    UnpackParts(a);
    if a < FRACTION {
      var l: int :| 1 <= l <= 52 && Unpack(a) == (a * Pow(2, l), -1021 - l);
      ShiftMore(a, l, -1021 - l - PRECISION);
    }
  }

  /** Unpacking and packing again gives the bits back. */
  lemma PackUnpack(a: nat)
    requires IsMagnitude(a)
    ensures Pack(Unpack(a).0, Unpack(a).1) == a
  {
    hide Pow, Unpack;
    UnpackParts(a);
    SmallPowers();
    if a < FRACTION {
      var l: int :| 1 <= l <= 52 && Unpack(a) == (a * Pow(2, l), -1021 - l);
      QuotientIs(a * Pow(2, l), Pow(2, l), a, 0);
      assert a * Pow(2, l) != 0 by { SumIsZero(0, a, Pow(2, l)); }
      assert Pow(2, l) == Pow(2, -(-1021 - l) - 1021);
    }
  }

  /** Rounding has one result. */
  lemma RoundedUnique(mode: Mode, x: real, m: nat, e: int, m': nat, e': int)
    requires Rounded(mode, x, m, e) && Rounded(mode, x, m', e') && m > 0
    ensures m == m' && e == e'
  {
    hide Pow, Power, Round, InBinade, Units, Shifted, Float;
    var b :| InBinade(x, b) && (var k := Round(mode, Units(x, b));
                                if k == 0 then m == 0
                                else k > 0 && Pow(2, 52) <= m < Pow(2, 53) && Float(m, e) == Shifted(k, Quantum(b)));
    var b' :| InBinade(x, b') && (var k := Round(mode, Units(x, b'));
                                  if k == 0 then m' == 0
                                  else k > 0 && Pow(2, 52) <= m' < Pow(2, 53) && Float(m', e') == Shifted(k, Quantum(b')));
    SameBinade(x, b, b');
    FloatUnique(m, e, m', e');
  }

  lemma SameBinade(x: real, b: int, b': int)
    requires InBinade(x, b) && InBinade(x, b')
    ensures b == b'
  {
    hide Power;
    PowerOrder(2, b - 1, b');
    PowerOrder(2, b' - 1, b);
  }

  /** Normalised mantissas and exponents are unique. */
  lemma FloatUnique(m: nat, e: int, m': nat, e': int)
    requires Pow(2, 52) <= m < Pow(2, 53) && Pow(2, 52) <= m' < Pow(2, 53) && Float(m, e) == Float(m', e')
    ensures m == m' && e == e'
  {
    hide Pow, Power, Float, InBinade;
    FloatInBinade(m, e);
    FloatInBinade(m', e');
    SameBinade(Float(m, e), e, e');
    SameMantissa(m, m', e);
  }

  lemma SameMantissa(m: nat, m': nat, e: int)
    requires Float(m, e) == Float(m', e)
    ensures m == m'
  {
    hide Power;
    SameFactor(m as real, m' as real, Power(2, e - PRECISION));
  }

  lemma FloatInBinade(m: nat, e: int)
    requires Pow(2, 52) <= m < Pow(2, 53)
    ensures InBinade(Float(m, e), e)
  {
    hide Pow, Power, Float;
    FloatBounds(m, e);
    assert Power(2, e - 53) > 0.0;
  }

  // ----- nearest -----

  lemma LargeRounded(x: real, m: nat, e: int)
    requires x >= Power(2, 1024) && Rounded(NearestEven, x, m, e)
    ensures Pack(m, e) == INFINITY
  {
    hide Pow, Power, Round, Units, Shifted, Float;
    var b :| InBinade(x, b) && (var k := Round(NearestEven, Units(x, b));
                                if k == 0 then m == 0
                                else k > 0 && Pow(2, 52) <= m < Pow(2, 53) && Float(m, e) == Shifted(k, Quantum(b)));
    var k := Round(NearestEven, Units(x, b));
    PowerOrder(2, 1024, b);
    UnitsBound(NearestEven, x, b, 53);
    SmallPowers();
    ShiftedAtLeast(k, Quantum(b), 52);
    FloatInBinade(m, e);
    PowerMonotone(2, 1024, b - 1);
    PowerOrder(2, 1024, e);
  }

  lemma ShiftedAtLeast(k: nat, g: int, n: nat)
    requires k >= Pow(2, n)
    ensures Shifted(k, g) >= Power(2, n + g)
  {
    hide Pow, Power;
    PowerUp(2, n);
    PowerPlus(2, n, g);
    RealOrder(Pow(2, n) as real, k as real, Power(2, g));
  }

  /** `bits` is the float64 nearest to x, and even if there are two; infinity stands at 2^1024 (section 4.3.1 of
      IEEE 754-2019). */
  ghost predicate IsNearest(bits: nat, x: real) {
    && bits <= INFINITY
    && forall a: nat | a <= INFINITY ::
         && Gap(x, Magnitude(bits)) <= Gap(x, Magnitude(a))
         && (Gap(x, Magnitude(bits)) == Gap(x, Magnitude(a)) && Magnitude(a) != Magnitude(bits) ==> bits % 2 == 0)
  }

  /** `bits` is what rounding x gives. */
  ghost predicate RoundsTo(x: real, bits: nat) {
    exists m: nat, e: int :: Rounded(NearestEven, x, m, e) && bits == Pack(m, e)
  }

  lemma RoundsToPack(x: real, m: nat, e: int)
    requires Rounded(NearestEven, x, m, e)
    ensures RoundsTo(x, Pack(m, e))
  {
  }

  /** Rounding to nearest has one result. */
  lemma RoundsToOne(x: real, bits: nat, m: nat, e: int)
    requires x > 0.0 && RoundsTo(x, bits) && Rounded(NearestEven, x, m, e)
    ensures bits == Pack(m, e)
  {
    hide Pow, Power, Rounded;
    var m', e' :| Rounded(NearestEven, x, m', e') && bits == Pack(m', e');
    if m > 0 {
      RoundedUnique(NearestEven, x, m, e, m', e');
    } else if m' > 0 {
      RoundedUnique(NearestEven, x, m', e', m, e);
    }
  }

  /** The parts of bits. */
  function Parts(a: nat): (nat, int) {
    if a < FRACTION then (a, -1074) else (a % FRACTION + FRACTION, a / FRACTION - 1075)
  }

  lemma PartsParity(a: nat)
    ensures Parts(a).0 % 2 == a % 2 && Parts(a).0 < 2 * FRACTION && Magnitude(a) == Shifted(Parts(a).0, Parts(a).1) && Parts(a).1 >= -1074
  {
    hide Shifted;
    var q, r := a / FRACTION, a % FRACTION;
    assert a == q * FRACTION + r;
  }

  lemma MagnitudeIsFloat(a: nat)
    ensures IsFloat(Magnitude(a))
  {
    hide Pow, Shifted, Parts;
    PartsParity(a);
    SmallPowers();
  }

  lemma EvenBits(x: real, bits: nat)
    requires EvenQuanta(x, Magnitude(bits))
    ensures bits % 2 == 0
  {
    hide Pow, Power, InBinade, Shifted;
    var b: int, k: nat :| InBinade(x, b) && k % 2 == 0 && k <= Pow(2, 53) && Magnitude(bits) == Shifted(k, Quantum(b));
    var (j, h) := Parts(bits);
    var g := Quantum(b);
    PartsParity(bits);
    if g >= h {
      FinerParts(j, h, k, g);
    } else {
      CoarserParts(j, h, k, g);
    }
  }

  lemma FinerParts(j: nat, h: int, k: nat, g: int)
    requires Shifted(j, h) == Shifted(k, g) && g >= h && k % 2 == 0
    ensures j % 2 == 0
  {
    hide Pow, Shifted;
    ShiftMore(k, g - h, h);
    SameUnits(j, k * Pow(2, g - h), h);
    EvenProduct(k, Pow(2, g - h));
  }

  /** Rounding up to a power of two makes the mantissa 2^52. */
  lemma CoarserParts(j: nat, h: int, k: nat, g: int)
    requires Shifted(j, h) == Shifted(k, g) && g < h && k <= Pow(2, 53) && j >= FRACTION
    ensures j % 2 == 0
  {
    hide Pow, Shifted;
    ShiftMore(j, h - g, g);
    SameUnits(k, j * Pow(2, h - g), g);
    SmallPowers();
    SmallestPowers();
    PowMonotone(2, 1, h - g);
    MulOrder(2, Pow(2, h - g), j);
    assert Pow(2, h - g) * j == j * Pow(2, h - g);
  }

  lemma SameUnits(j: nat, k: nat, h: int)
    requires Shifted(j, h) == Shifted(k, h)
    ensures j == k
  {
    hide Power;
    SameFactor(j as real, k as real, Power(2, h));
  }

  lemma EvenProduct(k: int, p: int)
    requires k % 2 == 0
    ensures k * p % 2 == 0
  {
    assert k * p == 2 * (k / 2 * p);
  }

  lemma ZeroMagnitude()
    ensures Magnitude(0) == 0.0
  {
    hide Power;
  }

  lemma InfiniteMagnitude()
    ensures Magnitude(INFINITY) == Power(2, 1024)
  {
    hide Pow, Power, Shifted;
    SmallPowers();
    assert INFINITY == 2047 * FRACTION;
    assert Magnitude(INFINITY) == Shifted(FRACTION, 972);
    ShiftMore(1, 52, 972);
    WholePower(1024);
  }

  /** Packing a normal number keeps its value. */
  lemma PackNormal(m: nat, e: int)
    requires Pow(2, 52) <= m < Pow(2, 53) && -1021 <= e <= 1024
    ensures Pack(m, e) < INFINITY && Magnitude(Pack(m, e)) == Float(m, e)
  {
    hide Pow, Shifted;
    SmallPowers();
    var a := (e + 1022) * FRACTION + (m - FRACTION);
    QuotientIs(a, FRACTION, e + 1022, m - FRACTION);
    QuotientIs(m, FRACTION, 1, m - FRACTION);
    MulOrder(e + 1022, 2046, FRACTION);
    MulOrder(1, e + 1022, FRACTION);
  }

  /** So does packing a subnormal number, if it is a multiple of the least. */
  lemma PackSubnormal(m: nat, e: int, k: nat, g: int)
    requires Pow(2, 52) <= m < Pow(2, 53) && -1073 <= e < -1021 && g >= -1074 && Float(m, e) == Shifted(k, g)
    ensures Pack(m, e) < INFINITY && Magnitude(Pack(m, e)) == Float(m, e)
  {
    hide Pow, Shifted;
    SmallPowers();
    var n, i := -e - 1021, g + 1074;
    var q := k * Pow(2, i);
    ShiftMore(k, i, -1074);
    ShiftMore(q, n, e - PRECISION);
    SameUnits(m, q * Pow(2, n), e - PRECISION);
    QuotientIs(m, Pow(2, n), q, 0);
    SmallestPowers();
    PowMonotone(2, 1, n);
    MulOrder(2, Pow(2, n), q);
  }

  /** Packing what a number below 2^1024 rounds to keeps its value; the next one is infinity. */
  lemma PackRounded(x: real, m: nat, e: int)
    requires 0.0 < x < Power(2, 1024) && Rounded(NearestEven, x, m, e)
    ensures Pack(m, e) <= INFINITY && Magnitude(Pack(m, e)) == FloatOf(m, e)
  {
    hide Pow, Power, Round, Units, Shifted, Float, Pack, Magnitude;
    var b :| InBinade(x, b) && (var k := Round(NearestEven, Units(x, b));
                                if k == 0 then m == 0
                                else k > 0 && Pow(2, 52) <= m < Pow(2, 53) && Float(m, e) == Shifted(k, Quantum(b)));
    if m == 0 {
      ZeroMagnitude();
      PackZero(e);
    } else {
      SmallPowers();
      var k: nat, g := Round(NearestEven, Units(x, b)), Quantum(b);
      AtMostQuanta(x, b, k);
      PowerOrder(2, b - 1, 1024);
      QuantaBetween(k, g);
      FloatInBinade(m, e);
      PowerOrder(2, -1074, e);
      PowerOrderEqual(e - 1, 1024);
      if e == 1025 {
        InfiniteMagnitude();
        PackLarge(m, e);
      } else if e >= -1021 {
        PackNormal(m, e);
      } else {
        PackSubnormal(m, e, k, g);
      }
    }
  }

  lemma PackZero(e: int)
    ensures Pack(0, e) == 0
  {
  }

  lemma PackLarge(m: nat, e: int)
    requires m > 0 && e > 1024
    ensures Pack(m, e) == INFINITY
  {
  }

  lemma PowerOrderEqual(x: int, y: int)
    requires Power(2, x) <= Power(2, y)
    ensures x <= y
  {
    hide Power;
    if x > y {
      PowerStrict(2, y, x);
    }
  }

  lemma QuantaBetween(k: nat, g: int)
    requires 1 <= k <= Pow(2, 53) && -1074 <= g <= 971
    ensures Power(2, -1074) <= Shifted(k, g) <= Power(2, 1024)
  {
    hide Pow, Power;
    PowerMonotone(2, -1074, g);
    PowerMonotone(2, 53 + g, 1024);
    PowerPlus(2, 53, g);
    PowerUp(2, 53);
    ProductBetween(k as real, Power(2, 53), Power(2, g), Shifted(k, g), Power(2, 53 + g));
  }

  lemma ProductBetween(k: real, p: real, q: real, x: real, y: real)
    requires 1.0 <= k <= p && q > 0.0 && x == k * q && y == p * q
    ensures q <= x <= y
  {
    RealOrder(1.0, k, q);
    RealOrder(k, p, q);
  }

  lemma MagnitudeBelow(a: nat)
    requires a < INFINITY
    ensures Magnitude(a) < Power(2, 1024)
  {
    hide Pow, Power, Shifted, Parts;
    PartsParity(a);
    SmallPowers();
    TopPart(a);
    SmallFloat(Parts(a).0, Parts(a).1, 1024);
  }

  lemma TopPart(a: nat)
    requires a < INFINITY
    ensures Parts(a).1 <= 971
  {
  }

  /** The bits that rounding gives are the nearest. */
  lemma RoundsToNearest(x: real, bits: nat)
    requires x > 0.0 && RoundsTo(x, bits)
    ensures IsNearest(bits, x)
  {
    hide Pow, Power, Rounded, Pack, Magnitude, INFINITY, EvenQuanta, IsFloat;
    var m, e :| Rounded(NearestEven, x, m, e) && bits == Pack(m, e);
    InfiniteMagnitude();
    if x >= Power(2, 1024) {
      LargeRounded(x, m, e);
      forall a: nat | a < INFINITY ensures Magnitude(a) < Power(2, 1024) {
        MagnitudeBelow(a);
      }
    } else {
      PackRounded(x, m, e);
      forall a: nat
        ensures Gap(x, Magnitude(bits)) <= Gap(x, Magnitude(a))
        ensures Gap(x, Magnitude(bits)) == Gap(x, Magnitude(a)) && Magnitude(a) != Magnitude(bits) ==> bits % 2 == 0
      {
        MagnitudeIsFloat(a);
        RoundedIsNearest(x, m, e, Magnitude(a));
        if EvenQuanta(x, Magnitude(bits)) {
          EvenBits(x, bits);
        }
      }
    }
  }
}
