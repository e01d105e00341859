/** When no shorter numeral means the same float64. */
module DtoaShortest {
  import opened DtoaRounding
  import opened DtoaDivision
  import opened DtoaBits
  import opened DtoaBignum
  import opened DtoaConvert
  import opened DtoaFloat
  import opened DtoaNearest
  import opened DtoaFree
  import opened DtoaDouble

  /** The numbers that round to m * 2^(e - 53) reach as far below it as above it; this fails only for powers of two
      that are not subnormal. */
  ghost predicate Symmetric(m: nat, e: int) {
    m != Pow(2, 52) || e <= E_MIN
  }

  /** The number rounded to p digits, with the exponent at which it has that many. */
  ghost function BestDigits(m: nat, e: int, radix: nat, e0: int, p: nat): (int, int)
    requires radix > 0
  {
    var k := Round(NearestEven, Times(Float(m, e), radix, p - e0));
    if k < Pow(radix, p) then (k, e0) else (Round(NearestEven, Times(Float(m, e), radix, p - (e0 + 1))), e0 + 1)
  }

  /** The value of those digits. */
  ghost function BestValue(m: nat, e: int, radix: nat, e0: int, p: nat): real
    requires radix > 0
  {
    var (k, exp) := BestDigits(m, e, radix, e0, p);
    Times(k as real, radix, exp - p)
  }

  /** j * radix^g rounds to m * 2^(e - 53). */
  ghost predicate Means(m: nat, e: int, radix: nat, j: nat, g: int)
    requires radix > 0
  {
    Rounded(NearestEven, Times(j as real, radix, g), m, e)
  }

  /** No numeral with fewer than p digits rounds to m * 2^(e - 53), at any exponent. */
  ghost predicate NoShorter(m: nat, e: int, radix: nat, p: nat)
    requires radix > 0
  {
    forall j: nat, q: nat, g: int | q < p && j < Pow(radix, q) :: !Means(m, e, radix, j, g)
  }

  // ----- what rounds to a float -----

  lemma RoundHalf(u: real)
    ensures var k := Round(NearestEven, u); Gap(u, k as real) <= 0.5 && (Gap(u, k as real) == 0.5 ==> k % 2 == 0)
  {
  }

  lemma RoundTie(u: real, k: int)
    requires Gap(u, k as real) <= 0.5 && (Gap(u, k as real) == 0.5 ==> k % 2 == 0)
    ensures Round(NearestEven, u) == k
  {
  }

  /** y lies within half a quantum of k quanta, and at that distance only if k is even. */
  ghost predicate Near(y: real, k: nat, g: int) {
    Gap(y, Shifted(k, g)) <= Power(2, g - 1) && (Gap(y, Shifted(k, g)) == Power(2, g - 1) ==> k % 2 == 0)
  }

  /** Being near, in units. */
  lemma NearUnits(y: real, b: int, k: nat)
    ensures var c := Gap(Units(y, b), k as real); Near(y, k, Quantum(b)) <==> c <= 0.5 && (c == 0.5 ==> k % 2 == 0)
  {
    hide Power, Units, Shifted, Gap;
    var g := Quantum(b);
    var q, c := Power(2, g), Gap(Units(y, b), k as real);
    GapUnits(y, b, k);
    PowerNext(2, g - 1);
    HalfProduct(c, q, Gap(y, Shifted(k, g)), Power(2, g - 1));
  }

  lemma HalfProduct(c: real, q: real, x: real, h: real)
    requires q > 0.0 && x == c * q && q == 2.0 * h
    ensures (x <= h <==> c <= 0.5) && (x == h <==> c == 0.5)
  {
    assert h == 0.5 * q;
    if c < 0.5 {
      RealStrict(c, 0.5, q);
    } else if c > 0.5 {
      RealStrict(0.5, c, q);
    }
  }

  /** The binade in which rounding happened has the quantum of the result. */
  lemma SameQuantum(y: real, b: int, k: nat, m: nat, e: int)
    requires Float64(m, e) && Symmetric(m, e) && InBinade(y, b) && k == Round(NearestEven, Units(y, b)) && k > 0
    requires Shifted(k, Quantum(b)) == Float(m, e)
    ensures Quantum(b) == Quantum(e)
  {
    hide Pow, Power, Round, InBinade, Units, Shifted, Float;
    var prec := b - Quantum(b);
    UnitsBound(NearestEven, y, b, prec);
    FloatInBinade(m, e);
    BinadeBounds(Float(m, e), e);
    WholePowers(k, prec, Quantum(b));
    PowerOrderEqual(e - 1, b);
    if b >= E_MIN {
      PowerOrder(2, b - 1, e);
      if e == b + 1 {
        FloatBounds(m, e);
      }
    }
  }

  lemma WholePowers(k: nat, n: nat, g: int)
    requires k <= Pow(2, n) && (n >= 1 ==> k >= Pow(2, n - 1))
    ensures Shifted(k, g) <= Power(2, n + g) && (n >= 1 ==> Power(2, n + g - 1) <= Shifted(k, g))
  {
    hide Pow, Power;
    PowerPlus(2, n, g);
    PowerUp(2, n);
    RealOrder(k as real, Power(2, n), Power(2, g));
    if n >= 1 {
      PowerPlus(2, n - 1, g);
      PowerUp(2, n - 1);
      RealOrder(Power(2, n - 1), k as real, Power(2, g));
      assert n - 1 + g == n + g - 1;
    }
  }

  /** What rounds to a float lies near it. */
  lemma RoundedNear(y: real, m: nat, e: int) returns (k: nat)
    requires Float64(m, e) && Symmetric(m, e) && y >= 0.0 && Rounded(NearestEven, y, m, e)
    ensures k > 0 && Shifted(k, Quantum(e)) == Float(m, e) && Near(y, k, Quantum(e))
  {
    hide Pow, Power, Round, InBinade, Units, Shifted, Float, Near, Gap, Symmetric;
    SmallPowers();
    var b :| InBinade(y, b) && (var k := Round(NearestEven, Units(y, b));
                                if k == 0 then m == 0
                                else k > 0 && Pow(2, 52) <= m < Pow(2, 53) && Float(m, e) == Shifted(k, Quantum(b)));
    k := Round(NearestEven, Units(y, b));
    SameQuantum(y, b, k, m, e);
    RoundHalf(Units(y, b));
    NearUnits(y, b, k);
  }

  lemma NearBounds(d: real, k: nat, g: int)
    requires Near(d, k, g) && k > 0
    ensures d > 0.0 && Shifted(k, g) - Power(2, g - 1) <= d <= Shifted(k, g) + Power(2, g - 1)
  {
    hide Power;
    PowerNext(2, g - 1);
    ProductBetween(k as real, k as real, Power(2, g), Shifted(k, g), Shifted(k, g));
  }

  /** What lies near a float has a binade with its quantum. */
  lemma NearBinade(d: real, k: nat, m: nat, e: int) returns (b: int)
    requires Float64(m, e) && Symmetric(m, e) && k > 0 && Shifted(k, Quantum(e)) == Float(m, e) && Near(d, k, Quantum(e))
    ensures InBinade(d, b) && Quantum(b) == Quantum(e)
  {
    hide Pow, Power, Units, Shifted, Float, Near, InBinade;
    NearBounds(d, k, Quantum(e));
    b := BinadeOf(d);
    FloatBounds(m, e);
    FloatInBinade(m, e);
    BinadeBounds(Float(m, e), e);
    BinadeBounds(d, b);
    var h := Power(2, Quantum(e) - 1);
    if e > E_MIN {
      PowerStrict(2, e - 54, e - 53);
      PowerOrder(2, e - 1, b);
      PowerOrder(2, b - 1, e);
    } else {
      SubnormalBelow(m, e, d, h);
      PowerOrder(2, b - 1, E_MIN);
    }
  }

  lemma SubnormalBelow(m: nat, e: int, d: real, h: real)
    requires Float64(m, e) && e <= E_MIN && h == Power(2, -1075) && d <= Float(m, e) + h
    ensures d < Power(2, E_MIN)
  {
    hide Pow, Power, Float;
    FloatBounds(m, e);
    PowerNext(2, -1075);
    if e == E_MIN {
      PowerStrict(2, -1075, e - 53);
    } else {
      PowerMonotone(2, e, E_MIN - 1);
      PowerNext(2, E_MIN - 1);
      PowerStrict(2, -1075, E_MIN - 1);
    }
  }

  /** What lies near a float rounds to it. */
  lemma NearRounded(d: real, k: nat, m: nat, e: int)
    requires Float64(m, e) && Symmetric(m, e) && k > 0 && Shifted(k, Quantum(e)) == Float(m, e) && Near(d, k, Quantum(e))
    ensures Rounded(NearestEven, d, m, e)
  {
    hide Pow, Power, Round, InBinade, Units, Shifted, Float, Near, Gap, Rounded, Symmetric;
    var b := NearBinade(d, k, m, e);
    NearUnits(d, b, k);
    RoundTie(Units(d, b), k);
    IsRoundedFrom(d, b, k, m, e);
  }

  /** A number at least as close to a float as one that rounds to it rounds to it. */
  lemma CloserRounds(m: nat, e: int, y: real, d: real)
    requires Float64(m, e) && Symmetric(m, e) && y >= 0.0 && Rounded(NearestEven, y, m, e) && Gap(Float(m, e), d) <= Gap(Float(m, e), y)
    ensures Rounded(NearestEven, d, m, e)
  {
    hide Pow, Power, Shifted, Float, Rounded, Symmetric;
    var k := RoundedNear(y, m, e);
    NearRounded(d, k, m, e);
  }

  // ----- the closest numeral with p digits -----

  /** Of the multiples of r, the one that rounding u / r gives is the closest to u. */
  lemma CoarseClosest(u: real, v: real, r: real, k: int, w: real, i: int, y: real)
    requires r > 0.0 && u == v * r && k == Round(NearestEven, v) && w == k as real * r && y == i as real * r
    ensures Gap(u, w) <= Gap(u, y)
  {
    hide Gap, Round;
    RoundNearest(v, i);
    GapProduct(v, k as real, r, u, w);
    GapProduct(v, i as real, r, u, y);
    RealOrder(Gap(v, k as real), Gap(v, i as real), r);
  }

  /** If u rounds to b = n * r or more, it is also closer than everything below b. */
  lemma CoarseBelow(u: real, v: real, r: real, k: int, w: real, n: int, b: int, y: real)
    requires r > 0.0 && u == v * r && k == Round(NearestEven, v) && w == k as real * r && b as real == n as real * r
    requires Round(NearestEven, u) >= b && y <= b as real - 1.0
    ensures Gap(u, w) <= Gap(u, y)
  {
    hide Round;
    CoarseClosest(u, v, r, k, w, n, b as real);
    RoundHalf(u);
  }

  /** The value of the digits, in units of the last of them. */
  ghost function BestUnits(u: real, radix: nat, big: nat): real
    requires radix > 0
  {
    if Round(NearestEven, u) < big then Round(NearestEven, u) as real
    else Round(NearestEven, u / radix as real) as real * radix as real
  }

  /** No whole number that is a multiple of the radix or has no more digits is closer, and no number at or below n. */
  lemma BestCloser(u: real, radix: nat, n: nat, i: int)
    requires radix >= 2 && n >= 1 && u >= n as real && (i < n * radix || i % radix == 0)
    ensures Gap(u, BestUnits(u, radix, n * radix)) <= Gap(u, i as real)
  {
    hide Round, Gap;
    var r := radix as real;
    var v := u / r;
    Quotient(u, r, v);
    var k, w := Round(NearestEven, v), BestUnits(u, radix, n * radix);
    if Round(NearestEven, u) < n * radix {
      RoundNearest(u, i);
    } else if i % radix == 0 {
      RealProduct(i / radix, radix);
      assert i == i / radix * radix;
      CoarseClosest(u, v, r, k, w, i / radix, i as real);
    } else {
      RealProduct(n, radix);
      CoarseBelow(u, v, r, k, w, n, n * radix, i as real);
    }
  }

  lemma BestAbove(u: real, radix: nat, n: nat, y: real)
    requires radix >= 2 && n >= 1 && u >= n as real && y <= n as real
    ensures Gap(u, BestUnits(u, radix, n * radix)) <= Gap(u, y)
  {
    hide BestUnits;
    MulOrder(2, radix, n);
    BestCloser(u, radix, n, n);
  }

  /** The digits stand for a number of units of the last of p. */
  lemma BestValueUnits(m: nat, e: int, radix: nat, e0: int, p: nat)
    requires radix >= 2
    ensures BestValue(m, e, radix, e0, p) ==
            BestUnits(Times(Float(m, e), radix, p - e0), radix, Pow(radix, p)) * Power(radix, e0 - p)
  {
    hide Pow, Power, Round, Float;
    var x := Float(m, e);
    var u, v, r := Times(x, radix, p - e0), Times(x, radix, p - (e0 + 1)), radix as real;
    TimesNext(x, radix, p - (e0 + 1), p - e0);
    Quotient(u, r, u / r);
    SameFactor(v, u / r, r);
    PowerNext(radix, e0 - p);
    AssociateReal(Round(NearestEven, v) as real, r, Power(radix, e0 - p));
    assert e0 + 1 - p == e0 - p + 1;
  }

  /** x in units of the last digit is at least radix^(p - 1). */
  lemma EnoughUnits(m: nat, e: int, radix: nat, e0: int, p: nat)
    requires radix >= 2 && FirstExponent(e, radix, e0) && p >= 1 && Pow(2, 52) <= m < Pow(2, 53)
    ensures Times(Float(m, e), radix, p - e0) >= Pow(radix, p - 1) as real
  {
    hide Pow, Power, Float;
    FloatInBinade(m, e);
    BinadeBounds(Float(m, e), e);
    RealOrder(Power(radix, e0 - 1), Float(m, e), Power(radix, p - e0));
    PowerPlus(radix, e0 - 1, p - e0);
    assert e0 - 1 + (p - e0) == p - 1;
    PowerUp(radix, p - 1);
  }

  /** A numeral of weight radix^g, in units of radix^h. */
  lemma NumeralUnits(j: nat, radix: nat, g: int, h: int, n: nat) returns (y: real, i: int)
    requires radix >= 2 && n >= 1 && j < n * radix
    ensures Times(j as real, radix, g) == y * Power(radix, h)
    ensures g >= h ==> y == i as real && (i < n * radix || i % radix == 0)
    ensures g < h ==> y <= n as real
  {
    hide Pow, Power;
    y := Times(j as real, radix, g - h);
    TimesSplit(j as real, radix, g - h, h, g);
    i := 0;
    if g >= h {
      i := j * Pow(radix, g - h);
      PowerUp(radix, g - h);
      RealProduct(j, Pow(radix, g - h));
      if g == h {
        PowStart(radix);
      } else {
        PowUp(radix, g - h - 1);
        assert i == radix * (j * Pow(radix, g - h - 1));
        MultipleOf(j * Pow(radix, g - h - 1), radix);
      }
    } else {
      PowerMonotone(radix, g - h, -1);
      PowerNext(radix, -1);
      PowerZero(radix);
      RealOrder(Power(radix, g - h), Power(radix, -1), j as real);
      RealProduct(n, radix);
      BelowTop(j as real, n as real, radix as real, Power(radix, -1), y);
    }
  }

  lemma MultipleOf(x: nat, r: nat)
    requires r > 0
    ensures r * x % r == 0
  {
    QuotientIs(r * x, r, x, 0);
  }

  lemma TimesSplit(x: real, radix: nat, f: int, g: int, h: int)
    requires radix > 0 && h == f + g
    ensures Times(x, radix, h) == Times(x, radix, f) * Power(radix, g)
  {
    hide Power;
    PowerPlus(radix, f, g);
    AssociateReal(x, Power(radix, f), Power(radix, g));
  }

  lemma BelowTop(j: real, n: real, r: real, t: real, y: real)
    requires 0.0 <= j <= n * r && t > 0.0 && r * t == 1.0 && y <= t * j
    ensures y <= n
  {
    RealOrder(j, n * r, t);
    assert n * r * t == n * (r * t);
    assert j * t == t * j;
  }

  /** No numeral with at most p digits is closer to the number. */
  lemma BestNearest(m: nat, e: int, radix: nat, e0: int, p: nat, j: nat, g: int)
    requires radix >= 2 && FirstExponent(e, radix, e0) && p >= 1 && Pow(2, 52) <= m < Pow(2, 53) && j < Pow(radix, p)
    ensures Gap(Float(m, e), BestValue(m, e, radix, e0, p)) <= Gap(Float(m, e), Times(j as real, radix, g))
  {
    hide Pow, Power, Float, Times, BestUnits, BestValue, FirstExponent, Gap;
    var x, n, h := Float(m, e), Pow(radix, p - 1), e0 - p;
    var u, q := Times(x, radix, p - e0), Power(radix, h);
    BestValueUnits(m, e, radix, e0, p);
    EnoughUnits(m, e, radix, e0, p);
    PowUp(radix, p - 1);
    assert n * radix == Pow(radix, p);
    TimesBack(x, radix, p - e0);
    TimesIs(u, radix, h);
    assert -(p - e0) == h;
    var y, i := NumeralUnits(j, radix, g, h, n);
    if g >= h {
      BestCloser(u, radix, n, i);
    } else {
      BestAbove(u, radix, n, y);
    }
    var w := BestUnits(u, radix, n * radix);
    ScaleGaps(u, w, y, q, x, BestValue(m, e, radix, e0, p), Times(j as real, radix, g));
  }

  lemma ScaleGaps(u: real, w: real, y: real, q: real, x: real, d: real, z: real)
    requires q > 0.0 && x == u * q && d == w * q && z == y * q && Gap(u, w) <= Gap(u, y)
    ensures Gap(x, d) <= Gap(x, z)
  {
    hide Gap;
    GapProduct(u, w, q, x, d);
    GapProduct(u, y, q, x, z);
    RealOrder(Gap(u, w), Gap(u, y), q);
  }

  lemma TimesIs(x: real, radix: nat, f: int)
    requires radix > 0
    ensures Times(x, radix, f) == x * Power(radix, f)
  {
  }

  /** If the best numeral with p - 1 digits does not mean the float, no numeral with fewer than p digits does. */
  lemma BestFails(m: nat, e: int, radix: nat, e0: int, p: nat)
    requires radix >= 2 && Float64(m, e) && Symmetric(m, e) && FirstExponent(e, radix, e0) && p >= 1
    requires p == 1 || !Rounded(NearestEven, BestValue(m, e, radix, e0, p - 1), m, e)
    ensures NoShorter(m, e, radix, p)
  {
    hide Pow, Power, Times, Rounded, BestValue, FirstExponent, Symmetric, Float, Float64, Gap;
    forall j: nat, q: nat, g: int | q < p && j < Pow(radix, q) ensures !Means(m, e, radix, j, g) {
      if Means(m, e, radix, j, g) {
        PowMonotone(radix, q, p - 1);
        TimesPositive(j, radix, g);
        MantissaBounds(m, e);
        if p == 1 {
          PowStart(radix);
          ZeroMeans(m, e, radix, j, g);
        } else {
          BestNearest(m, e, radix, e0, p - 1, j, g);
          CloserRounds(m, e, Times(j as real, radix, g), BestValue(m, e, radix, e0, p - 1));
        }
      }
    }
  }

  lemma MantissaBounds(m: nat, e: int)
    requires Float64(m, e)
    ensures 0 < Pow(2, 52) <= m < Pow(2, 53)
  {
    SmallPowers();
  }

  lemma TimesPositive(j: nat, radix: nat, g: int)
    requires radix > 0
    ensures Times(j as real, radix, g) >= 0.0 && (j == 0 ==> Times(j as real, radix, g) == 0.0)
  {
    hide Power;
    RealOrder(0.0, j as real, Power(radix, g));
  }

  lemma ZeroMeans(m: nat, e: int, radix: nat, j: nat, g: int)
    requires radix > 0 && j == 0 && m > 0
    ensures !Means(m, e, radix, j, g)
  {
    TimesPositive(j, radix, g);
  }
}
