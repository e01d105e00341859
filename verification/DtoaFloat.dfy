/** Rounding to float64, subnormals included. */
module DtoaFloat {
  import opened DtoaRounding
  import opened DtoaDivision
  import opened DtoaLimbs
  import opened DtoaBignum
  import opened DtoaScaling
  import opened DtoaConvert

  const PRECISION := 53
  const E_MIN := -1021

  /** 2^(b - 1) <= x < 2^b */
  ghost predicate InBinade(x: real, b: int) {
    Power(2, b - 1) <= x < Power(2, b)
  }

  /** Floats in binade b are the multiples of 2^Quantum(b). */
  function Quantum(b: int): int {
    (if b < E_MIN then E_MIN else b) - PRECISION
  }

  /** x in units of the quantum */
  function Units(x: real, b: int): real {
    x * Power(2, -Quantum(b))
  }

  /** m * 2^(e - 53) */
  function Float(m: nat, e: int): real {
    Shifted(m, e - PRECISION)
  }

  /** (m, e) is x rounded to a float64 with an unbounded range of large exponents: normalised, or
      m = 0. */
  ghost predicate Rounded(mode: Mode, x: real, m: nat, e: int) {
    if x == 0.0 then m == 0
    else exists b ::
        && InBinade(x, b)
        && var k := Round(mode, Units(x, b));
        if k == 0 then m == 0
        else k > 0 && Pow(2, 52) <= m < Pow(2, 53) && Float(m, e) == Shifted(k, Quantum(b))
  }

  // ----- bounds on rounding -----

  lemma RoundAtMost(mode: Mode, x: real, n: int)
    requires 0.0 <= x <= n as real
    ensures 0 <= Round(mode, x) <= n
  {
  }

  lemma RoundAtLeast(mode: Mode, x: real, n: int)
    requires x >= n as real
    ensures Round(mode, x) >= n
  {
  }

  lemma RoundToZero(mode: Mode, x: real)
    requires 0.0 <= x < 0.5
    ensures Round(mode, x) == 0
  {
    FloorIs(x, 0);
  }

  // ----- `round_to_d` -----

  lemma ScaleBinade(x: real, b: int, d: int, y: real, c: int)
    requires InBinade(x, b) && y == x * Power(2, d) && c == b + d
    ensures InBinade(y, c)
  {
    hide Power;
    PowerPlus(2, b - 1, d);
    PowerPlus(2, b, d);
    assert b - 1 + d == b + d - 1;
    RealOrder(Power(2, b - 1), x, Power(2, d));
    RealStrict(x, Power(2, b), Power(2, d));
  }

  lemma WholeBinade(w: nat, r: nat)
    requires Pow(2, r) <= w < Pow(2, r + 1)
    ensures InBinade(w as real, r + 1)
  {
    hide Pow;
    PowerUp(2, r);
    PowerUp(2, r + 1);
  }

  /** `round_to_d`: a / 2^offset, rounded to a float64 */
  method RoundToFloat(a: Bignum, offset: int, mode: Mode) returns (m: nat, e: int)
    requires a.Valid() && a.Normal() && a.len + 2 <= a.tab.Length
    modifies a, a.tab
    ensures Rounded(mode, Shifted(old(a.Value()), -offset), m, e)
  {
    hide Pow, Val, Round, Shifted, InBinade, Units, Rounded, Float;
    ghost var w := a.Value();
    if a.tab[0] == 0 && a.len == 1 {
      OneLimb(a.tab[..1]);
      ZeroRounded(mode, offset);
      return 0, 0;
    }
    TopLimb(a.tab[..a.len]);
    if a.len == 1 {
      OneLimb(a.tab[..1]);
    }
    var log := FloorLog2(a);
    var b := log + 1 - offset;
    var prec := if b < E_MIN then PRECISION - (E_MIN - b) else PRECISION;
    ghost var x := Shifted(w, -offset);
    ShiftedBinade(w, log, offset);
    ShiftedUnits(w, offset, b, prec);
    a.ShiftRound(b + offset - prec, mode);
    UnitsBound(mode, x, b, prec);
    FitsU64(prec);
    var k := GetU64(a);
    var (m', e') := Assemble(k, b, prec);
    m, e := m', e';
    IsRounded(mode, x, b, prec, k, m, e);
  }

  lemma FitsU64(prec: int)
    requires prec <= PRECISION
    ensures prec >= 0 ==> Pow(2, prec) < B * B
  {
    hide Pow;
    SmallPowers();
    if prec >= 0 {
      PowMonotone(2, prec, 53);
    }
  }

  /** The last lines of `round_to_d`: the mantissa is shifted up to 53 bits, less one if rounding
      carried. */
  function Assemble(k: nat, b: int, prec: int): (r: (nat, int))
    requires prec <= PRECISION
  {
    var m := k * Pow(2, PRECISION - prec);
    if m >= Pow(2, 53) then (m / 2, b + 1) else (m, b)
  }

  lemma ZeroRounded(mode: Mode, offset: int)
    ensures Rounded(mode, Shifted(0, -offset), 0, 0)
  {
    hide Power;
    assert Shifted(0, -offset) == 0.0;
  }

  lemma ShiftedBinade(w: nat, log: nat, offset: int)
    requires Pow(2, log) <= w < Pow(2, log + 1)
    ensures InBinade(Shifted(w, -offset), log + 1 - offset)
  {
    hide Power, InBinade, Pow;
    WholeBinade(w, log);
    ScaleBinade(w as real, log + 1, -offset, Shifted(w, -offset), log + 1 - offset);
  }

  /** Shifting by offset and the quantum together. */
  lemma ShiftedUnits(w: nat, offset: int, b: int, prec: int)
    requires prec == b - Quantum(b)
    ensures Shifted(w, -(b + offset - prec)) == Units(Shifted(w, -offset), b)
  {
    hide Power;
    var g := Quantum(b);
    assert -(b + offset - prec) == -offset + -g;
    PowerPlus(2, -offset, -g);
    AssociateReal(w as real, Power(2, -offset), Power(2, -g));
  }

  /** How large the rounded number of quanta can be. */
  lemma UnitsBound(mode: Mode, x: real, b: int, prec: int)
    requires InBinade(x, b) && prec == b - Quantum(b)
    ensures var k := Round(mode, Units(x, b));
            && prec <= PRECISION
            && (prec < 0 ==> k == 0)
            && (prec >= 0 ==> 0 <= k <= Pow(2, prec))
            && (prec >= 1 ==> k >= Pow(2, prec - 1))
  {
    hide Power, Round, InBinade, Pow;
    var u := Units(x, b);
    ScaleBinade(x, b, -Quantum(b), u, prec);
    BinadeBounds(u, prec);
    if prec < 0 {
      PowerMonotone(2, prec, -1);
      HalfPower();
      RoundToZero(mode, u);
    } else {
      PowerUp(2, prec);
      RoundAtMost(mode, u, Pow(2, prec));
      if prec >= 1 {
        PowerUp(2, prec - 1);
        RoundAtLeast(mode, u, Pow(2, prec - 1));
      }
    }
  }

  lemma HalfPower()
    ensures Power(2, -1) == 0.5
  {
    assert Pow(2, 1) == 2;
  }

  lemma BinadeBounds(x: real, b: int)
    requires InBinade(x, b)
    ensures 0.0 < Power(2, b - 1) <= x < Power(2, b)
  {
    hide Power;
  }

  lemma IsRounded(mode: Mode, x: real, b: int, prec: int, k: nat, m: nat, e: int)
    requires InBinade(x, b) && prec == b - Quantum(b) && k == Round(mode, Units(x, b)) && (m, e) == Assemble(k, b, prec)
    ensures Rounded(mode, x, m, e)
  {
    hide Power, Round, InBinade, Pow, Units, Shifted, Float;
    BinadeBounds(x, b);
    UnitsBound(mode, x, b, prec);
    if k == 0 {
      assert 0 * Pow(2, PRECISION - prec) == 0;
      SmallPowers();
    } else {
      if prec == 0 {
        PowStart(2);
      }
      Mantissa(k, prec);
      MantissaValue(k, b, prec, m, e);
    }
    assert InBinade(x, b);
  }

  lemma SmallPowers()
    ensures Pow(2, 53) == 2 * Pow(2, 52) && Pow(2, 52) == 0x10_0000_0000_0000
  {
    hide Pow;
    PowPlus(2, 1, 52);
    LimbIsPower();
    PowPlus(2, 20, 32);
    PowPlus(2, 10, 10);
    SmallestPowers();
  }

  lemma SmallestPowers()
    ensures Pow(2, 1) == 2 && Pow(2, 10) == 1024
  {
  }

  lemma Mantissa(k: nat, prec: nat)
    requires prec <= PRECISION && 0 < k <= Pow(2, prec) && (prec >= 1 ==> k >= Pow(2, prec - 1))
    ensures Pow(2, 52) <= k * Pow(2, PRECISION - prec) <= Pow(2, 53)
  {
    hide Pow;
    var p := Pow(2, PRECISION - prec);
    PowPlus(2, prec, PRECISION - prec);
    MulOrder(k, Pow(2, prec), p);
    if prec >= 1 {
      PowPlus(2, prec - 1, PRECISION - prec);
      MulOrder(Pow(2, prec - 1), k, p);
    } else {
      SmallPowers();
      MulOrder(1, k, p);
    }
  }

  lemma MantissaValue(k: nat, b: int, prec: nat, m: nat, e: int)
    requires prec == b - Quantum(b) && prec <= PRECISION && (m, e) == Assemble(k, b, prec)
    requires Pow(2, 52) <= k * Pow(2, PRECISION - prec) <= Pow(2, 53)
    ensures Pow(2, 52) <= m < Pow(2, 53) && Float(m, e) == Shifted(k, Quantum(b))
  {
    hide Power, Pow, Shifted;
    SmallPowers();
    var m0 := k * Pow(2, PRECISION - prec);
    ShiftMore(k, PRECISION - prec, b - PRECISION);
    assert Shifted(m0, b - PRECISION) == Shifted(k, Quantum(b));
    if m0 == Pow(2, 53) {
      assert m0 == m * 2;
      ShiftMore(m, 1, b - PRECISION);
      SmallestPowers();
    }
  }

  lemma ShiftMore(k: nat, n: nat, d: int)
    ensures Shifted(k * Pow(2, n), d) == Shifted(k, n + d)
  {
    hide Power, Pow;
    RealProduct(k, Pow(2, n));
    PowerUp(2, n);
    PowerPlus(2, n, d);
    AssociateReal(k as real, Power(2, n), Power(2, d));
  }

  // ----- every number rounds to something -----

  lemma {:induction false} PowAbove(n: nat)
    ensures Pow(2, n) > n
  {
    if n > 0 {
      PowAbove(n - 1);
    }
  }

  lemma {:induction false} BinadeBetween(x: real, lo: int, hi: int) returns (b: int)
    requires Power(2, lo) <= x < Power(2, hi)
    ensures InBinade(x, b)
    decreases hi - lo
  {
    hide Power;
    PowerOrder(2, lo, hi);
    if Power(2, hi - 1) <= x {
      b := hi;
    } else {
      b := BinadeBetween(x, lo, hi - 1);
    }
  }

  lemma BinadeOf(x: real) returns (b: int)
    requires x > 0.0
    ensures InBinade(x, b)
  {
    hide Power, Pow;
    var hi, lo := x.Floor + 1, (1.0 / x).Floor + 1;
    PowAbove(hi);
    PowerUp(2, hi);
    PowAbove(lo);
    PowerDown(2, lo);
    Inverse(x, 1.0 / x);
    SmallInverse(x, 1.0 / x, Pow(2, lo) as real, Power(2, -lo));
    b := BinadeBetween(x, -lo, hi);
  }

  lemma Inverse(x: real, y: real)
    requires x > 0.0 && y == 1.0 / x
    ensures y > 0.0 && x * y == 1.0
  {
  }

  lemma SmallInverse(x: real, y: real, p: real, q: real)
    requires x > 0.0 && x * y == 1.0 && y < p && q * p == 1.0 && q > 0.0
    ensures q <= x
  {
    if q > x {
      RealStrict(x, q, p);
      RealStrict(y, p, x);
    }
  }

  /** Rounding always has a result. */
  lemma RoundedTotal(mode: Mode, x: real) returns (m: nat, e: int)
    requires x > 0.0
    ensures Rounded(mode, x, m, e)
  {
    hide Power, Round, InBinade, Pow, Units, Rounded;
    var b := BinadeOf(x);
    var prec := b - Quantum(b);
    UnitsBound(mode, x, b, prec);
    var k := Round(mode, Units(x, b));
    var (m', e') := Assemble(k, b, prec);
    m, e := m', e';
    IsRounded(mode, x, b, prec, k, m, e);
  }

  /** `mul_pow_round_to_d`: a * radix^f, rounded to a float64 */
  method MulPowRoundToFloat(a: Bignum, radix1: nat, radixShift: nat, f: int, mode: Mode) returns (m: nat, e: int)
    requires a.Valid() && a.Normal() && OddRadix(radix1) && a.len + Growth(radix1, radixShift, f, false, 55) + 2 <= a.tab.Length
    modifies a, a.tab
    ensures Rounded(mode, Exact(old(a.Value()), radix1, radixShift, f, 0), m, e)
  {
    hide Pow, Val, Shifted, Rounded, Exact, Growth, Scaled;
    ghost var v := a.Value();
    var offset := MulPow(a, radix1, radixShift, f, false, 55);
    ghost var w := a.Value();
    m, e := RoundToFloat(a, offset, mode);
    RoundedScaled(mode, w, v, radix1, radixShift, f, offset, m, e);
  }

  /** The sticky bit and 55 bits in front of it round as the exact product does. */
  lemma RoundedScaled(mode: Mode, w: nat, v: nat, radix1: nat, radixShift: nat, f: int, offset: int, m: nat, e: int)
    requires radix1 > 0 && Scaled(w, v, radix1, radixShift, f, offset, false, 55)
    requires Rounded(mode, Shifted(w, -offset), m, e)
    ensures Rounded(mode, Exact(v, radix1, radixShift, f, 0), m, e)
  {
    hide Pow, Power, Rounded, Exact, Sticky;
    var x, y := Exact(v, radix1, radixShift, f, offset), Exact(v, radix1, radixShift, f, 0);
    ExactShift(v, radix1, radixShift, f, offset, -offset);
    assert y == x * Power(2, -offset);
    var z := Shifted(w, -offset);
    if w as real == x {
      assert z == y;
    } else {
      RoundedSticky(mode, w, x, offset, y, z, m, e);
    }
  }

  lemma RoundedSticky(mode: Mode, w: nat, x: real, offset: int, y: real, z: real, m: nat, e: int)
    requires x >= 0.0 && w == Sticky(x) && w >= Pow(2, 55)
    requires y == x * Power(2, -offset) && z == w as real * Power(2, -offset) && Rounded(mode, z, m, e)
    ensures Rounded(mode, y, m, e)
  {
    hide Pow, Power, Sticky, Round, InBinade, Units, Shifted, Float;
    PositiveProduct(w as real, Power(2, -offset));
    var b :| InBinade(z, b) && (var k := Round(mode, Units(z, b));
                                if k == 0 then m == 0
                                else k > 0 && Pow(2, 52) <= m < Pow(2, 53) && Float(m, e) == Shifted(k, Quantum(b)));
    var l := b + offset;
    Unshift(w as real, offset, z);
    ScaleBinade(z, b, offset, w as real, l);
    StickyBinade(x, w, l);
    ScaleBinade(x, l, -offset, y, b);
    BinadeBounds(y, b);
    var s := offset + Quantum(b);
    UnitsShift(x, offset, b, y, s);
    UnitsShift(w as real, offset, b, z, s);
    RoundSticky(mode, w, x, s, Units(y, b), Units(z, b));
  }

  lemma PositiveProduct(x: real, y: real)
    requires x > 0.0 && y > 0.0
    ensures x * y > 0.0
  {
  }

  lemma Unshift(x: real, offset: int, z: real)
    requires z == x * Power(2, -offset)
    ensures x == z * Power(2, offset)
  {
    hide Power;
    PowerInverse(2, offset);
    AssociateReal(x, Power(2, -offset), Power(2, offset));
    assert x * 1.0 == x;
  }

  lemma UnitsShift(x: real, offset: int, b: int, y: real, s: int)
    requires y == x * Power(2, -offset) && s == offset + Quantum(b)
    ensures Units(y, b) == x * Power(2, -s)
  {
    hide Power;
    PowerPlus(2, -offset, -Quantum(b));
    AssociateReal(x, Power(2, -offset), Power(2, -Quantum(b)));
    assert -offset + -Quantum(b) == -s;
  }

  /** The sticky integer part lies in the binade of the number. */
  lemma StickyBinade(x: real, w: nat, l: int)
    requires x >= 0.0 && w == Sticky(x) && w >= Pow(2, 55) && InBinade(w as real, l)
    ensures l >= 56 && InBinade(x, l)
  {
    hide Power, Pow;
    PowerUp(2, 55);
    PowerOrder(2, 55, l);
    var lo, hi := Pow(2, l - 1), Pow(2, l);
    PowerUp(2, l - 1);
    PowerUp(2, l);
    EvenPower(l - 1);
    var q := x.Floor;
    assert lo <= w < hi;
    assert q <= w <= q + 1;
    assert q >= lo;
  }

  lemma EvenPower(n: nat)
    requires n >= 1
    ensures Pow(2, n) % 2 == 0
  {
  }
}
