/** Rounding to nearest gives the float64 nearest to the exact value, and the even one of two
    (section 4.3.1 of IEEE 754-2019). */
module DtoaNearest {
  import opened DtoaRounding
  import opened DtoaBignum
  import opened DtoaConvert
  import opened DtoaFloat

  /** The non-negative float64 numbers, with no bound on large exponents. */
  ghost predicate IsFloat(z: real) {
    exists j: nat, h: int :: j < Pow(2, 53) && h >= E_MIN - PRECISION && z == Shifted(j, h)
  }

  function Gap(x: real, y: real): real {
    if x < y then y - x else x - y
  }

  /** The value of a rounding result, which may be zero. */
  function FloatOf(m: nat, e: int): real {
    if m == 0 then 0.0 else Float(m, e)
  }

  lemma RoundNearest(u: real, i: int)
    ensures var k := Round(NearestEven, u);
            && Gap(u, k as real) <= Gap(u, i as real)
            && (Gap(u, k as real) == Gap(u, i as real) && i != k ==> k % 2 == 0)
  {
  }

  /** y has an even significand at the precision of x. */
  ghost predicate EvenQuanta(x: real, y: real) {
    exists b: int, k: nat :: InBinade(x, b) && k % 2 == 0 && k <= Pow(2, 53) && y == Shifted(k, Quantum(b))
  }

  /** No float64 is closer to x than the one it is rounded to; if another is as close, the result
      has an even significand. */
  lemma RoundedIsNearest(x: real, m: nat, e: int, z: real)
    requires x >= 0.0 && Rounded(NearestEven, x, m, e) && IsFloat(z)
    ensures Gap(x, FloatOf(m, e)) <= Gap(x, z)
    ensures Gap(x, FloatOf(m, e)) == Gap(x, z) && z != FloatOf(m, e) ==> EvenQuanta(x, FloatOf(m, e))
  {
    hide Pow, Power, Round, InBinade, Units, Shifted, Float;
    if x != 0.0 {
      var b :| InBinade(x, b) && (var k := Round(NearestEven, Units(x, b));
                                  if k == 0 then m == 0
                                  else k > 0 && Pow(2, 52) <= m < Pow(2, 53) && Float(m, e) == Shifted(k, Quantum(b)));
      var k := Round(NearestEven, Units(x, b));
      var j: nat, h: int :| j < Pow(2, 53) && h >= E_MIN - PRECISION && z == Shifted(j, h);
      if k == 0 {
        NoUnits(Quantum(b));
      }
      assert FloatOf(m, e) == Shifted(k, Quantum(b));
      AtMostQuanta(x, b, k);
      if h >= Quantum(b) {
        FloatMultiple(x, b, k, j, h);
      } else {
        FloatBelow(x, b, k, j, h);
      }
    }
  }

  lemma AtMostQuanta(x: real, b: int, k: int)
    requires InBinade(x, b) && k == Round(NearestEven, Units(x, b))
    ensures 0 <= k <= Pow(2, 53)
  {
    hide Pow, Power, Round, InBinade, Units;
    var prec := b - Quantum(b);
    UnitsBound(NearestEven, x, b, prec);
    if prec >= 0 {
      PowMonotone(2, prec, 53);
    }
  }

  lemma NoUnits(g: int)
    ensures Shifted(0, g) == 0.0
  {
    hide Power;
  }

  /** Distances in units of the quantum. */
  lemma GapUnits(x: real, b: int, i: nat)
    ensures Gap(x, Shifted(i, Quantum(b))) == Gap(Units(x, b), i as real) * Power(2, Quantum(b))
  {
    hide Power;
    var q := Power(2, Quantum(b));
    Restore(x, b);
    GapProduct(Units(x, b), i as real, q, x, Shifted(i, Quantum(b)));
  }

  lemma GapProduct(u: real, i: real, q: real, x: real, y: real)
    requires q > 0.0 && x == u * q && y == i * q
    ensures Gap(x, y) == Gap(u, i) * q && Gap(y, x) == Gap(x, y)
  {
    if u < i {
      RealStrict(u, i, q);
    } else {
      RealOrder(i, u, q);
    }
  }

  lemma Restore(x: real, b: int)
    ensures Units(x, b) * Power(2, Quantum(b)) == x
  {
    hide Power;
    Unshift(x, Quantum(b), Units(x, b));
  }

  /** A float that is a multiple of the quantum. */
  lemma FloatMultiple(x: real, b: int, k: nat, j: nat, h: int)
    requires InBinade(x, b) && k == Round(NearestEven, Units(x, b)) && h >= Quantum(b)
    ensures Gap(x, Shifted(k, Quantum(b))) <= Gap(x, Shifted(j, h))
    ensures Gap(x, Shifted(k, Quantum(b))) == Gap(x, Shifted(j, h)) && Shifted(j, h) != Shifted(k, Quantum(b)) ==> k % 2 == 0
  {
    hide Pow, Power, Round, InBinade, Units, Shifted, Gap;
    var g := Quantum(b);
    var i, q := j * Pow(2, h - g), Power(2, g);
    ShiftMore(j, h - g, g);
    GapUnits(x, b, k);
    GapUnits(x, b, i);
    RoundNearest(Units(x, b), i);
    var c, d := Gap(Units(x, b), k as real), Gap(Units(x, b), i as real);
    RealOrder(c, d, q);
    if c != d {
      RealStrict(c, d, q);
    }
  }

  /** A float with a finer exponent lies below the binade. */
  lemma FloatBelow(x: real, b: int, k: nat, j: nat, h: int)
    requires InBinade(x, b) && k == Round(NearestEven, Units(x, b)) && E_MIN - PRECISION <= h < Quantum(b) && j < Pow(2, 53)
    ensures Gap(x, Shifted(k, Quantum(b))) < Gap(x, Shifted(j, h))
  {
    hide Pow, Power, Round, Units, Shifted;
    var g := Quantum(b);
    var low := Pow(2, 52);
    FloatMultiple(x, b, k, low, g);
    ShiftMore(1, 52, g);
    WholePower(g + 52);
    assert Shifted(low, g) == Power(2, b - 1) by { assert 1 * low == low; }
    SmallFloat(j, h, b - 1);
  }

  lemma WholePower(d: int)
    ensures Shifted(1, d) == Power(2, d)
  {
    hide Power;
  }

  lemma SmallFloat(j: nat, h: int, d: int)
    requires j < Pow(2, 53) && h + 53 <= d
    ensures Shifted(j, h) < Power(2, d)
  {
    hide Pow, Power;
    RealStrict(j as real, Pow(2, 53) as real, Power(2, h));
    PowerUp(2, 53);
    PowerPlus(2, 53, h);
    PowerMonotone(2, 53 + h, d);
  }

  /** The result is itself a float64. */
  lemma RoundedIsFloat(mode: Mode, x: real, m: nat, e: int)
    requires Rounded(mode, x, m, e)
    ensures IsFloat(FloatOf(m, e))
  {
    hide Pow, Power, Round, InBinade, Units, Shifted, Float;
    NoUnits(0);
    SmallPowers();
    if x == 0.0 || m == 0 {
      assert IsFloat(0.0);
    } else {
      var b :| InBinade(x, b) && (var k := Round(mode, Units(x, b));
                                  if k == 0 then m == 0
                                  else k > 0 && Pow(2, 52) <= m < Pow(2, 53) && Float(m, e) == Shifted(k, Quantum(b)));
      var k: nat, g := Round(mode, Units(x, b)), Quantum(b);
      UnitsBound(mode, x, b, b - g);
      if k >= Pow(2, 53) {
        if 0 <= b - g {
          PowMonotone(2, b - g, 53);
        }
        assert k == Pow(2, 52) * 2;
        ShiftMore(Pow(2, 52), 1, g);
        SmallestPowers();
        assert Shifted(k, g) == Shifted(Pow(2, 52), g + 1);
      }
    }
  }
}
