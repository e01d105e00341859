/** Free format: enough digits always convert back. */
module DtoaFree {
  import opened DtoaRounding
  import opened DtoaDivision
  import opened DtoaBignum
  import opened DtoaConvert
  import opened DtoaFloat
  import opened DtoaNearest

  /** m * 2^(e - 53) is a finite non-zero float64, normalised even if it is subnormal. */
  predicate Float64(m: nat, e: int) {
    Pow(2, 52) <= m < Pow(2, 53) && e >= -1073 && (e < E_MIN ==> m % Pow(2, E_MIN - e) == 0)
  }

  /** x * radix^f */
  function Times(x: real, radix: nat, f: int): real
    requires radix > 0
  {
    x * Power(radix, f)
  }

  /** What 1 + mul_log2_radix(e - 1, radix) computes. */
  ghost predicate FirstExponent(e: int, radix: nat, e0: int)
    requires radix > 0
  {
    Power(radix, e0 - 1) <= Power(2, e - 1) < Power(radix, e0)
  }

  // ----- numbers close to a float round to it -----

  lemma RoundNear(u: real, k: int)
    requires Gap(u, k as real) < 0.5 || (u == k as real - 0.5 && k % 2 == 0)
    ensures Round(NearestEven, u) == k
  {
  }

  /** A float64 as a number of quanta. */
  lemma WholeUnits(m: nat, e: int) returns (k: nat)
    requires Float64(m, e)
    ensures k > 0 && Shifted(k, Quantum(e)) == Float(m, e)
  {
    hide Pow, Shifted;
    if e >= E_MIN {
      k := m;
    } else {
      var n := E_MIN - e;
      var lo;
      k, lo := DivMod(m, Pow(2, n));
      ShiftMore(k, n, e - PRECISION);
    }
  }

  /** Half a quantum, or less, measured in units. */
  lemma UnitsClose(y: real, b: int, k: nat, d: int)
    requires d < Quantum(b)
    ensures Gap(y, Shifted(k, Quantum(b))) < Power(2, d) ==> Gap(Units(y, b), k as real) < 0.5
    ensures Gap(y, Shifted(k, Quantum(b))) <= Power(2, d) ==> Gap(Units(y, b), k as real) <= 0.5
  {
    hide Pow, Power, Units, Shifted, Gap;
    var q := Power(2, Quantum(b));
    GapUnits(y, b, k);
    PowerMonotone(2, d, Quantum(b) - 1);
    PowerNext(2, Quantum(b) - 1);
    var g := Gap(Units(y, b), k as real);
    if g >= 0.5 {
      RealOrder(0.5, g, q);
      if g > 0.5 {
        RealStrict(0.5, g, q);
      }
    }
  }

  lemma IsRoundedFrom(y: real, b: int, k: nat, m: nat, e: int)
    requires InBinade(y, b) && k > 0 && Round(NearestEven, Units(y, b)) == k
    requires Shifted(k, Quantum(b)) == Float(m, e) && Pow(2, 52) <= m < Pow(2, 53)
    ensures Rounded(NearestEven, y, m, e)
  {
    hide Pow, Power, Round, InBinade, Units, Shifted, Float;
    BinadeBounds(y, b);
  }

  lemma FloatBounds(m: nat, e: int)
    requires Pow(2, 52) <= m < Pow(2, 53)
    ensures Float(m, e) <= Power(2, e) - Power(2, e - 53)
    ensures if m == Pow(2, 52) then Float(m, e) == Power(2, e - 1) else Float(m, e) >= Power(2, e - 1) + Power(2, e - 53)
  {
    hide Pow, Power;
    var q, f := Power(2, e - 53), Float(m, e);
    PowerUp(2, 53);
    PowerUp(2, 52);
    PowerPlus(2, 53, e - 53);
    PowerPlus(2, 52, e - 53);
    assert 52 + (e - 53) == e - 1;
    LessOne(m as real, Power(2, 53), q, f);
    if m == Pow(2, 52) {
      assert f == Power(2, 52) * q;
    } else {
      MoreOne(Power(2, 52), m as real, q, f);
    }
  }

  lemma LessOne(m: real, n: real, q: real, f: real)
    requires q > 0.0 && m <= n - 1.0 && f == m * q
    ensures f <= n * q - q
  {
    RealOrder(m, n - 1.0, q);
    assert (n - 1.0) * q == n * q - q;
  }

  lemma MoreOne(n: real, m: real, q: real, f: real)
    requires q > 0.0 && n + 1.0 <= m && f == m * q
    ensures f >= n * q + q
  {
    RealOrder(n + 1.0, m, q);
    assert (n + 1.0) * q == n * q + q;
  }

  /** Less than half a unit in the last place away, and less than a quarter below a power of two. */
  lemma NearRounds(m: nat, e: int, y: real)
    requires Float64(m, e) && Gap(y, Float(m, e)) < Power(2, e - 54)
    requires m == Pow(2, 52) ==> y >= Float(m, e) - Power(2, e - 55)
    ensures Rounded(NearestEven, y, m, e)
  {
    hide Pow, Power, Round, Units, Shifted, Float, Rounded;
    FloatBounds(m, e);
    PowerNext(2, e - 54);
    PowerNext(2, e - 55);
    if y >= Power(2, e - 1) {
      var k := WholeUnits(m, e);
      UnitsClose(y, e, k, e - 54);
      RoundNear(Units(y, e), k);
      IsRoundedFrom(y, e, k, m, e);
    } else {
      NearBelow(m, e, y);
    }
  }

  lemma NotAbove(u: real, k: nat, g: int, y: real)
    requires u * Power(2, g) == y && y <= Shifted(k, g)
    ensures u <= k as real
  {
    hide Power;
  }

  lemma NearBelow(m: nat, e: int, y: real)
    requires Float64(m, e) && m == Pow(2, 52)
    requires Power(2, e - 1) - Power(2, e - 55) <= y < Power(2, e - 1)
    ensures Rounded(NearestEven, y, m, e)
  {
    hide Pow, Power, Round, Shifted, Float, Rounded;
    var b := e - 1;
    var g := Quantum(b);
    var k := Pow(2, b - g);
    FloatBounds(m, e);
    ShiftMore(1, b - g, g);
    WholePower(b);
    assert 1 * k == k;
    PowerMonotone(2, e - 55, e - 2);
    PowerNext(2, e - 2);
    assert InBinade(y, b);
    var u := Units(y, b);
    UnitsClose(y, b, k, e - 55);
    Restore(y, b);
    if g == e - 54 {
      EvenPower(53);
      NotAbove(u, k, g, y);
    } else {
      PowerStrict(2, e - 55, g - 1);
      UnitsClose(y, b, k, g - 1);
    }
    RoundNear(u, k);
    IsRoundedFrom(y, b, k, m, e);
  }

  // ----- the first try -----

  lemma TimesBack(x: real, radix: nat, f: int)
    requires radix > 0
    ensures Times(Times(x, radix, f), radix, -f) == x
  {
    hide Power;
    PowerInverse(radix, f);
    AssociateReal(x, Power(radix, f), Power(radix, -f));
    assert x * 1.0 == x;
  }

  /** Rounding to P digits moves x by at most half the weight of the last digit. */
  lemma DigitsClose(x: real, radix: nat, f: int, mant: nat)
    requires radix > 0 && mant == Round(NearestEven, Times(x, radix, f))
    ensures Gap(Times(mant as real, radix, -f), x) <= Power(radix, -f) / 2.0
  {
    hide Power, Round;
    var u, t := Times(x, radix, f), Power(radix, -f);
    HalfAway(u);
    TimesBack(x, radix, f);
    GapHalf(u, mant as real, t, x, Times(mant as real, radix, -f));
  }

  lemma GapHalf(u: real, k: real, t: real, x: real, y: real)
    requires t > 0.0 && Gap(u, k) <= 0.5 && x == u * t && y == k * t
    ensures Gap(y, x) <= t / 2.0
  {
    hide Gap;
    GapProduct(u, k, t, x, y);
    RealOrder(Gap(u, k), 0.5, t);
  }

  lemma HalfAway(u: real)
    ensures Gap(u, Round(NearestEven, u) as real) <= 0.5
  {
  }

  /** The weight of the last of P digits is at most a 2^53-th of the leading power of two. */
  lemma LastDigit(e: int, radix: nat, e0: int, p: nat)
    requires radix >= 2 && FirstExponent(e, radix, e0) && p >= 1 && Pow(radix, p - 1) >= Pow(2, 53)
    ensures Power(radix, e0 - p) <= Power(2, e - 54)
  {
    hide Pow, Power;
    var t := Power(radix, e0 - p);
    PowerPlus(radix, e0 - p, p - 1);
    PowerUp(radix, p - 1);
    PowerUp(2, 53);
    PowerPlus(2, e - 54, 53);
    assert e0 - p + (p - 1) == e0 - 1 && e - 54 + 53 == e - 1;
    ProductBound(t, Power(radix, p - 1), Power(2, e - 54), Power(2, 53));
  }

  lemma ProductBound(t: real, a: real, s: real, b: real)
    requires t > 0.0 && s > 0.0 && 0.0 < b <= a && t * a <= s * b
    ensures t <= s
  {
    if t > s {
      RealStrict(s, t, b);
      RealOrder(b, a, t);
    }
  }

  /** With E = e0: at most a quarter of a unit in the last place away. */
  lemma PlainTry(m: nat, e: int, radix: nat, e0: int, p: nat, mant: nat)
    requires Float64(m, e) && radix >= 2 && FirstExponent(e, radix, e0) && p >= 1 && Pow(radix, p - 1) >= Pow(2, 53)
    requires mant == Round(NearestEven, Times(Float(m, e), radix, p - e0))
    ensures Rounded(NearestEven, Times(mant as real, radix, e0 - p), m, e)
  {
    hide Pow, Power, Round, Float, Times, Float64, FirstExponent, Rounded;
    LastDigit(e, radix, e0, p);
    DigitsClose(Float(m, e), radix, p - e0, mant);
    assert -(p - e0) == e0 - p;
    PowerNext(2, e - 55);
    NearRounds(m, e, Times(mant as real, radix, e0 - p));
  }

  /** x * radix^(p - e0) came out as radix^p or more, so x is at least about radix^e0. */
  lemma CarriedLarge(x: real, radix: nat, e0: int, p: nat)
    requires radix >= 2 && Round(NearestEven, Times(x, radix, p - e0)) >= Pow(radix, p)
    ensures x >= Power(radix, e0) - Power(radix, e0 - p) / 2.0
    ensures Times(x, radix, p - e0) >= Pow(radix, p) as real - 0.5
  {
    hide Pow, Power, Round;
    var u, t, n := Times(x, radix, p - e0), Power(radix, e0 - p), Pow(radix, p) as real;
    HalfAway(u);
    TimesBack(x, radix, p - e0);
    PowerPlus(radix, p, e0 - p);
    PowerUp(radix, p);
    assert -(p - e0) == e0 - p && p + (e0 - p) == e0;
    assert u * t == x && n * t == Power(radix, e0);
    HalfBelow(u, n, t, x, Power(radix, e0));
  }

  lemma HalfBelow(u: real, n: real, t: real, x: real, r: real)
    requires u >= n - 0.5 && t > 0.0 && u * t == x && n * t == r
    ensures x >= r - t / 2.0
  {
    var h := n - 0.5;
    RealOrder(h, u, t);
    assert h * t == n * t - 0.5 * t;
  }

  /** With one digit fewer before the point, the mantissa has exactly p digits. */
  lemma CarriedSize(m: nat, e: int, radix: nat, e0: int, p: nat)
    requires Float64(m, e) && radix >= 2 && FirstExponent(e, radix, e0) && p >= 1
    requires Round(NearestEven, Times(Float(m, e), radix, p - e0)) >= Pow(radix, p)
    ensures Pow(radix, p - 1) <= Round(NearestEven, Times(Float(m, e), radix, p - (e0 + 1))) < Pow(radix, p)
  {
    hide Pow, Power, Round, Float, FirstExponent, Times;
    var x := Float(m, e);
    var u, v := Times(x, radix, p - e0), Times(x, radix, p - (e0 + 1));
    CarriedLarge(x, radix, e0, p);
    TimesNext(x, radix, p - (e0 + 1), p - e0);
    PowUpReal(radix, p - 1);
    DivideBound(v, radix as real, u, Pow(radix, p - 1) as real, Pow(radix, p) as real);
    RoundsUpTo(v, Pow(radix, p - 1));
    CarriedBelow(m, e, radix, e0, p);
  }

  lemma PowUpReal(b: nat, n: nat)
    ensures Pow(b, n + 1) == b * Pow(b, n) && Pow(b, n + 1) as real == b as real * Pow(b, n) as real
  {
    hide Pow;
    PowUp(b, n);
    RealProduct(b, Pow(b, n));
  }

  lemma TimesNext(x: real, radix: nat, f: int, f': int)
    requires radix > 0 && f' == f + 1
    ensures Times(x, radix, f') == radix as real * Times(x, radix, f)
  {
    hide Power;
    PowerNext(radix, f);
    Rotate(radix as real, x, Power(radix, f));
  }

  lemma DivideBound(v: real, r: real, u: real, n: real, n': real)
    requires r >= 2.0 && u == r * v && n' == r * n && u >= n' - 0.5
    ensures v >= n - 0.25
  {
    if v < n - 0.25 {
      RealStrict(v, n - 0.25, r);
    }
  }

  lemma RoundsUpTo(v: real, n: int)
    requires v >= n as real - 0.25
    ensures Round(NearestEven, v) >= n
  {
  }

  lemma CarriedBelow(m: nat, e: int, radix: nat, e0: int, p: nat)
    requires Float64(m, e) && radix >= 2 && FirstExponent(e, radix, e0) && p >= 1
    ensures 0 <= Round(NearestEven, Times(Float(m, e), radix, p - (e0 + 1))) < Pow(radix, p)
  {
    hide Pow, Power, Round, Float;
    var x, c := Float(m, e), Power(radix, p - (e0 + 1));
    FloatBounds(m, e);
    PowerNext(2, e - 1);
    PowUpReal(radix, p - 1);
    PowerPlus(radix, e0, p - (e0 + 1));
    PowerUp(radix, p - 1);
    assert e0 + (p - (e0 + 1)) == p - 1;
    var n := Pow(radix, p - 1);
    RealStrict(0.0, x, c);
    if radix == 2 {
      PowerOrder(2, e - 1, e0);
      PowerMonotone(2, e, e0);
      RealOrder(x, Power(radix, e0), c);
      RoundAtMost(NearestEven, Times(x, radix, p - (e0 + 1)), n);
    } else {
      RealOrder(x, 2.0 * Power(radix, e0), c);
      assert 2.0 * Power(radix, e0) * c == 2.0 * (Power(radix, e0) * c);
      RoundAtMost(NearestEven, Times(x, radix, p - (e0 + 1)), 2 * n);
      MulOrder(3, radix, n);
    }
  }

  /** With E = e0: at least p digits, and less than twice radix^p. */
  lemma PlainSize(m: nat, e: int, radix: nat, e0: int, p: nat)
    requires Float64(m, e) && radix >= 2 && FirstExponent(e, radix, e0) && p >= 1
    ensures Pow(radix, p - 1) <= Round(NearestEven, Times(Float(m, e), radix, p - e0)) <= 2 * Pow(radix, p)
  {
    hide Pow, Power, Round, Float;
    var x, c := Float(m, e), Power(radix, p - e0);
    FloatBounds(m, e);
    PowerNext(2, e - 1);
    PowerPlus(radix, e0, p - e0);
    PowerPlus(radix, e0 - 1, p - e0);
    PowerUp(radix, p);
    PowerUp(radix, p - 1);
    assert e0 + (p - e0) == p && e0 - 1 + (p - e0) == p - 1;
    RealOrder(Power(radix, e0 - 1), x, c);
    RealOrder(x, 2.0 * Power(radix, e0), c);
    assert 2.0 * Power(radix, e0) * c == 2.0 * (Power(radix, e0) * c);
    RoundAtLeast(NearestEven, Times(x, radix, p - e0), Pow(radix, p - 1));
    RoundAtMost(NearestEven, Times(x, radix, p - e0), 2 * Pow(radix, p));
  }

  /** With E = e0 + 1: less than half a unit in the last place away, and not below a power of two. */
  lemma CarriedTry(m: nat, e: int, radix: nat, e0: int, p: nat, mant: nat)
    requires Float64(m, e) && radix >= 2 && FirstExponent(e, radix, e0) && p >= 1 && Pow(radix, p - 1) >= Pow(2, 53)
    requires Round(NearestEven, Times(Float(m, e), radix, p - e0)) >= Pow(radix, p)
    requires mant == Round(NearestEven, Times(Float(m, e), radix, p - (e0 + 1)))
    ensures Rounded(NearestEven, Times(mant as real, radix, e0 + 1 - p), m, e)
  {
    hide Pow, Power, Round, Float, Times, Float64, Rounded;
    var x, y, t := Float(m, e), Times(mant as real, radix, e0 + 1 - p), Power(radix, e0 + 1 - p);
    LastDigit(e, radix, e0, p);
    CarriedLarge(x, radix, e0, p);
    CarriedSize(m, e, radix, e0, p);
    Leading(m, e);
    PowerNext(2, e - 54);
    PowerNext(2, e - 55);
    assert Power(radix, e0) < Power(2, e);
    WeightBelow(e, radix, e0, p);
    DigitsClose(x, radix, p - (e0 + 1), mant);
    assert -(p - (e0 + 1)) == e0 + 1 - p;
    NotBelow(mant, radix, e0, p);
    NearRounds(m, e, y);
  }

  lemma Leading(m: nat, e: int)
    requires Float64(m, e)
    ensures Float(m, e) <= Power(2, e) - Power(2, e - 53)
    ensures m == Pow(2, 52) ==> Float(m, e) == Power(2, e - 1)
  {
    hide Pow, Power, Float;
    FloatBounds(m, e);
  }

  lemma WeightBelow(e: int, radix: nat, e0: int, p: nat)
    requires radix >= 2 && p >= 1 && Power(radix, e0) < Power(2, e) && Pow(radix, p - 1) >= Pow(2, 53)
    ensures Power(radix, e0 + 1 - p) < Power(2, e - 53)
  {
    hide Pow, Power;
    var t := Power(radix, e0 + 1 - p);
    PowerPlus(radix, e0 + 1 - p, p - 1);
    PowerUp(radix, p - 1);
    PowerUp(2, 53);
    PowerPlus(2, e - 53, 53);
    assert e0 + 1 - p + (p - 1) == e0 && e - 53 + 53 == e;
    StrictBound(t, Power(radix, p - 1), Power(2, e - 53), Power(2, 53));
  }

  lemma StrictBound(t: real, a: real, s: real, b: real)
    requires t > 0.0 && s > 0.0 && 0.0 < b <= a && t * a < s * b
    ensures t < s
  {
    if t >= s {
      RealOrder(s, t, b);
      RealOrder(b, a, t);
    }
  }

  lemma NotBelow(mant: nat, radix: nat, e0: int, p: nat)
    requires radix >= 2 && p >= 1 && mant >= Pow(radix, p - 1)
    ensures Times(mant as real, radix, e0 + 1 - p) >= Power(radix, e0)
  {
    hide Pow, Power;
    PowerPlus(radix, p - 1, e0 + 1 - p);
    PowerUp(radix, p - 1);
    assert p - 1 + (e0 + 1 - p) == e0;
    RealOrder(Pow(radix, p - 1) as real, mant as real, Power(radix, e0 + 1 - p));
  }
}
