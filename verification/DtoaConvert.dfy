/** Correct rounding of m * 2^e * radix^f, to an integer and to a float64. */
module DtoaConvert {
  import opened DtoaRounding
  import opened DtoaDivision
  import opened DtoaLimbs
  import opened DtoaBits
  import opened DtoaBignum
  import opened DtoaScaling

  /** `mpb_set_u64` */
  method SetU64(a: Bignum, m: nat)
    requires a.tab.Length >= 2 && m < B * B
    modifies a, a.tab
    ensures a.Valid() && a.Value() == m && a.Normal() && a.len <= 2
  {
    a.tab[0] := m % B;
    a.tab[1] := m / B;
    a.len := if a.tab[1] == 0 then 1 else 2;
    OneLimb(a.tab[..1]);
    TwoLimbs(a.tab[..2]);
  }

  lemma TwoLimbs(s: seq<Limb>)
    requires |s| == 2
    ensures Val(s) == s[0] + B * s[1]
  {
    OneLimb(s[1..]);
  }

  /** `mpb_get_u64` */
  method GetU64(a: Bignum) returns (m: nat)
    requires a.Valid() && a.Normal()
    ensures m < B * B && m == a.Value() % (B * B)
  {
    hide Val, Pow;
    if a.len == 1 {
      OneLimb(a.tab[..1]);
      m := a.tab[0];
    } else {
      m := a.tab[0] + a.tab[1] * B;
      TwoLimbs(a.tab[..a.len][..2]);
      LimbsDropped(a.tab[..a.len], 2);
      LimbSquare();
    }
  }

  lemma LimbSquare()
    ensures Pow(B, 2) == B * B
  {
  }

  /** `mpb_floor_log2` */
  method FloorLog2(a: Bignum) returns (r: int)
    requires a.Valid() && a.Normal()
    ensures a.Value() == 0 ==> r == -1
    ensures a.Value() > 0 ==> r >= 0 && Pow(2, r) <= a.Value() < Pow(2, r + 1)
  {
    hide Val, Pow, BitLength;
    var n, v := a.len - 1, a.tab[a.len - 1];
    ghost var s := a.tab[..a.len];
    if v == 0 {
      OneLimb(s);
      return -1;
    }
    LimbBits(v);
    r := a.len * 32 - 1 - (32 - BitLength(v));
    assert s == s[..n] + [v];
    ValAppend(s[..n], v);
    ValBound(s[..n]);
    var k := BitLength(v);
    LimbPower(n, k - 1);
    LimbPower(n, k);
    TopBits(Val(s[..n]), v, Pow(B, n), Pow(2, k - 1), Pow(2, k));
  }

  lemma TopBits(low: nat, v: nat, p: nat, x: nat, y: nat)
    requires low < p && x <= v < y
    ensures p * x <= low + v * p < p * y && (x > 0 ==> low + v * p > 0)
  {
    MulOrder(x, v, p);
    MulOrder(v + 1, y, p);
    if x > 0 {
      MulOrder(1, v, p);
    }
  }

  // ----- m * radix^f -----

  function Radix(radix1: nat, radixShift: nat): (r: nat)
    requires radix1 > 0
    ensures r > 0
  {
    radix1 * Pow(2, radixShift)
  }

  lemma RadixPower(radix1: nat, radixShift: nat, n: nat)
    requires radix1 > 0
    ensures Pow(Radix(radix1, radixShift), n) == Pow(radix1, n) * Pow(2, radixShift * n)
  {
    hide Pow;
    PowProduct(radix1, Pow(2, radixShift), n);
    PowPow(2, radixShift, n);
  }

  /** v * radix^f * 2^offset */
  function Exact(v: nat, radix1: nat, radixShift: nat, f: int, offset: int): real
    requires radix1 > 0
  {
    v as real * Power(Radix(radix1, radixShift), f) * Power(2, offset)
  }

  lemma ScaleUp(v: nat, radix1: nat, radixShift: nat, f: nat)
    requires radix1 > 0
    ensures Exact(v, radix1, radixShift, f, -(f * radixShift)) == (v * Pow(radix1, f)) as real
  {
    hide Pow, Power, Radix;
    var a, c := Pow(radix1, f), Pow(2, radixShift * f);
    RadixPower(radix1, radixShift, f);
    RealProduct(a, c);
    RealProduct(v, a);
    PowerUp(Radix(radix1, radixShift), f);
    PowerDown(2, f * radixShift);
    CancelUp(v as real, a as real, c as real, Power(Radix(radix1, radixShift), f), Power(2, -(f * radixShift)));
  }

  lemma PowerUp(b: nat, n: nat)
    requires b > 0
    ensures Power(b, n) == Pow(b, n) as real
  {
  }

  lemma PowerDown(b: nat, n: int)
    requires b > 0 && n >= 0
    ensures Power(b, -n) * Pow(b, n) as real == 1.0
  {
    hide Pow;
    PowStart(b);
  }

  lemma CancelUp(v: real, a: real, c: real, r: real, q: real)
    requires r == a * c && q * c == 1.0
    ensures v * r * q == v * a
  {
    assert v * (a * c) * q == v * a * (q * c);
  }

  lemma ScaleDown(v: nat, radix1: nat, radixShift: nat, g: int, s: nat)
    requires radix1 > 0 && g >= 0
    ensures g * radixShift >= 0
    ensures Exact(v, radix1, radixShift, -g, g * radixShift + s) == (v * Pow(2, s)) as real / Pow(radix1, g) as real
  {
    hide Pow, Power, Radix;
    MulOrder(0, g, radixShift);
    Swapped(radixShift, g);
    var h: nat := g * radixShift;
    RadixPower(radix1, radixShift, g);
    PowPlus(2, h, s);
    PowerDown(Radix(radix1, radixShift), g);
    PowerUp(2, h + s);
    ExactIs(v, radix1, radixShift, -g, h + s);
    hide Exact;
    DownParts(v, Pow(radix1, g), Pow(2, h), Pow(2, s), Pow(Radix(radix1, radixShift), g), Pow(2, h + s),
              Power(Radix(radix1, radixShift), -g), Power(2, h + s));
  }

  lemma Swapped(x: int, y: int)
    ensures x * y == y * x
  {
  }

  lemma DownParts(v: nat, a: nat, c: nat, t: nat, m: nat, n: nat, r: real, q: real)
    requires a > 0 && c > 0 && m == a * c && n == c * t && r * m as real == 1.0 && q == n as real
    ensures v as real * r * q == (v * t) as real / a as real
  {
    RealProduct(a, c);
    RealProduct(v, t);
    RealProduct(c, t);
    CancelDown(v as real, a as real, c as real, t as real, r, q);
  }

  lemma ExactIs(v: nat, radix1: nat, radixShift: nat, f: int, offset: int)
    requires radix1 > 0
    ensures Exact(v, radix1, radixShift, f, offset) == v as real * Power(Radix(radix1, radixShift), f) * Power(2, offset)
  {
    hide Power, Radix;
  }

  lemma CancelDown(v: real, a: real, c: real, t: real, r: real, q: real)
    requires a > 0.0 && c > 0.0 && r * (a * c) == 1.0 && q == c * t
    ensures v * r * q == v * t / a
  {
    var x := v * r * q;
    Cancelled(v, a, c, t, r);
    Quotient(v * t, a, v * t / a);
    SameFactor(x, v * t / a, a);
  }

  lemma Cancelled(v: real, a: real, c: real, t: real, r: real)
    requires r * (a * c) == 1.0
    ensures v * r * (c * t) * a == v * t
  {
    var y := r * (a * c);
    assert v * r * (c * t) * a == v * t * y;
  }

  /** What `mul_pow` makes of v: v * radix^f * 2^offset, exactly or cut to an integer with a sticky bit
      and enough bits to round to an integer multiple of 2^e, or to a number of e bits. */
  ghost predicate Scaled(w: nat, v: nat, radix1: nat, radixShift: nat, f: int, offset: int, isInt: bool, e: int)
    requires radix1 > 0 && (isInt || e >= 0)
  {
    var x := Exact(v, radix1, radixShift, f, offset);
    && x >= 0.0 && w == Sticky(x)
    && (if f >= 0 || radix1 == 1 then w as real == x && offset == -f * radixShift
        else if isInt then offset >= e + 2
        else w as real == x || w >= Pow(2, e))
  }

  lemma ScaledWhole(w: nat, v: nat, radix1: nat, radixShift: nat, f: int, offset: int, isInt: bool, e: int)
    requires radix1 > 0 && (isInt || e >= 0) && Exact(v, radix1, radixShift, f, offset) == w as real
    requires (f >= 0 || radix1 == 1) && offset == -f * radixShift
    ensures Scaled(w, v, radix1, radixShift, f, offset, isInt, e)
  {
    hide Exact;
    FloorIs(w as real, w);
  }

  predicate OddRadix(radix1: nat) {
    1 <= radix1 <= 35 && radix1 % 2 == 1
  }

  /** `mul_pow` */
  method MulPow(a: Bignum, radix1: nat, radixShift: nat, f: int, isInt: bool, e: int) returns (offset: int)
    requires a.Valid() && a.Normal() && OddRadix(radix1) && (isInt || e >= 0)
    requires a.len + Growth(radix1, radixShift, f, isInt, e) <= a.tab.Length
    modifies a, a.tab
    ensures a.Valid() && a.Normal() && a.len <= old(a.len) + Growth(radix1, radixShift, f, isInt, e)
    ensures Scaled(a.Value(), old(a.Value()), radix1, radixShift, f, offset, isInt, e)
  {
    hide Pow, Val, Exact, Scaled, DigitsPerLimb, Chunks, StickyDiv;
    offset := -f * radixShift;
    ghost var v := a.Value();
    if radix1 == 1 {
      NoScaling(v, radixShift, f, offset, isInt, e);
    } else if f >= 0 {
      MulPowers(a, radix1, f);
      ScaleUp(v, radix1, radixShift, f);
      assert -f * radixShift == -(f * radixShift);
      ScaledWhole(a.Value(), v, radix1, radixShift, f, offset, isInt, e);
    } else {
      offset := MulInverse(a, radix1, radixShift, -f, isInt, e);
    }
  }

  /** The branch of `mul_pow` that divides by radix1^g. */
  method MulInverse(a: Bignum, radix1: nat, radixShift: nat, g: int, isInt: bool, e: int) returns (offset: int)
    requires a.Valid() && a.Normal() && OddRadix(radix1) && radix1 > 1 && (isInt || e >= 0)
    requires g > 0 && a.len + Growth(radix1, radixShift, -g, isInt, e) <= a.tab.Length
    modifies a, a.tab
    ensures a.Valid() && a.Normal() && a.len <= old(a.len) + Growth(radix1, radixShift, -g, isInt, e)
    ensures Scaled(a.Value(), old(a.Value()), radix1, radixShift, -g, offset, isInt, e)
  {
    hide Pow, Shifted, Val, Round, Exact, Scaled, DigitsPerLimb, Chunks, StickyDiv;
    ghost var v := a.Value();
    var l := Chunks(g, DigitsPerLimb(radix1));
    offset := g * radixShift + l * 32;
    MulOrder(0, g, radixShift);
    var extra := ExtraBits(a, offset, isInt, e);
    FitsGrowth(l, extra, if isInt then extra else e + 1);
    FewerChunks(g, if g < DigitsPerLimb(radix1) then g else DigitsPerLimb(radix1), DigitsPerLimb(radix1));
    offset := offset + extra;
    var s: int := l * 32 + extra;
    ShiftedUp(v, s);
    a.ShiftRound(-s, TowardZero);
    DivPowers(a, radix1, g);
    Divided(a.Value(), v, radix1, radixShift, g, offset, isInt, e, s, l);
  }

  /** How far to shift beyond the limbs that the division consumes. */
  method ExtraBits(a: Bignum, offset: int, isInt: bool, e: int) returns (extra: nat)
    requires a.Valid() && a.Normal() && (isInt || e >= 0) && offset >= 0
    ensures isInt ==> extra == AtLeastZero(2 + e - offset)
    ensures !isInt ==> extra <= e + 1
    ensures !isInt && a.Value() > 0 ==> a.Value() * Pow(2, extra) >= Pow(2, e)
  {
    hide Pow, Val;
    if isInt {
      extra := AtLeastZero(2 + e - offset);
    } else {
      var log := FloorLog2(a);
      extra := AtLeastZero(e - log);
      if a.Value() > 0 {
        PowPlus(2, log, extra);
        PowMonotone(2, e, log + extra);
        MulOrder(Pow(2, log), a.Value(), Pow(2, extra));
      }
    }
  }

  lemma NoScaling(v: nat, radixShift: nat, f: int, offset: int, isInt: bool, e: int)
    requires offset == -f * radixShift && (isInt || e >= 0)
    ensures Scaled(v, v, 1, radixShift, f, offset, isInt, e)
  {
    hide Exact, Pow, Scaled;
    PowOne(if f >= 0 then f else -f);
    if f >= 0 {
      ScaleUp(v, 1, radixShift, f);
      assert v * 1 == v && -f * radixShift == -(f * radixShift);
    } else {
      ScaleDown(v, 1, radixShift, -f, 0);
      PowStart(2);
      assert v * 1 == v && (v as real) / (1 as real) == v as real;
    }
    ScaledWhole(v, v, 1, radixShift, f, offset, isInt, e);
  }

  lemma {:induction false} PowOne(n: nat)
    ensures Pow(1, n) == 1
  {
    if n > 0 {
      PowOne(n - 1);
    }
  }

  /** The shift needs no more limbs than `Growth` allows. */
  lemma FitsGrowth(l: nat, extra: nat, most: nat)
    requires extra <= most
    ensures (l * 32 + extra + 31) / 32 <= l + Chunks(most, 32)
  {
  }

  lemma ShiftedUp(v: nat, s: int)
    requires s > 0
    ensures Round(TowardZero, Shifted(v, -(-s))) == v * Pow(2, s)
  {
    hide Pow, Shifted, Round;
    ScaledRound(TowardZero, v, -s, s);
  }

  lemma Divided(w: nat, v: nat, radix1: nat, radixShift: nat, g: int, offset: int, isInt: bool, e: int, s: nat, l: nat)
    requires OddRadix(radix1) && radix1 > 1 && g > 0 && (isInt || e >= 0) && offset == g * radixShift + s
    requires l == Chunks(g, DigitsPerLimb(radix1)) && s >= 32 * l
    requires if isInt then offset >= e + 2 else v > 0 ==> v * Pow(2, s - 32 * l) >= Pow(2, e)
    requires w == StickyDiv(v * Pow(2, s), Pow(radix1, g))
    ensures Scaled(w, v, radix1, radixShift, -g, offset, isInt, e)
  {
    hide Exact, Pow, Sticky, DigitsPerLimb, Chunks;
    var n, d := v * Pow(2, s), Pow(radix1, g);
    ScaleDown(v, radix1, radixShift, g, s);
    StickyDivIs(n, d);
    NotNegative(n, d);
    if !isInt {
      if v == 0 {
        ZeroOver(d);
      } else {
        EnoughBits(v, radix1, g, e, s, l);
      }
    }
  }

  lemma NotNegative(n: nat, d: nat)
    requires d > 0
    ensures n as real / d as real >= 0.0
  {
    var x, y := n as real / d as real, d as real;
    Quotient(n as real, y, x);
    if x < 0.0 {
      RealStrict(x, 0.0, y);
    }
  }

  lemma ZeroOver(d: nat)
    requires d > 0
    ensures 0 as real / d as real == 0.0 && StickyDiv(0, d) == 0
  {
  }

  /** A quotient by radix1^g keeps e bits if g digits take no more than the l limbs shifted in. */
  lemma EnoughBits(v: nat, radix1: nat, g: nat, e: nat, s: nat, l: nat)
    requires OddRadix(radix1) && radix1 > 1 && l == Chunks(g, DigitsPerLimb(radix1)) && s >= 32 * l
    requires v * Pow(2, s - 32 * l) >= Pow(2, e)
    ensures v * Pow(2, s) / Pow(radix1, g) >= Pow(2, e)
  {
    hide Pow, DigitsPerLimb, Chunks;
    var p, q, d := Pow(2, s - 32 * l), Pow(B, l), Pow(radix1, g);
    LimbPower(l, s - 32 * l);
    DigitsFitLimbs(radix1, g);
    assert v * Pow(2, s) == v * p * q by { Associate(v, p, q); }
    MulOrder(Pow(2, e), v * p, q);
    MulOrder(d, q, Pow(2, e));
    AtLeast(v * Pow(2, s), d, Pow(2, e));
  }

  lemma AtLeast(n: nat, d: nat, k: nat)
    requires d > 0 && n >= k * d
    ensures n / d >= k
  {
    var hi, lo := DivMod(n, d);
    if hi < k {
      MulOrder(hi + 1, k, d);
    }
  }

  lemma {:induction false} DigitsFitLimbs(radix1: nat, g: nat)
    requires OddRadix(radix1) && radix1 > 1
    ensures Pow(radix1, g) <= Pow(B, Chunks(g, DigitsPerLimb(radix1)))
  {
    hide Pow, DigitsPerLimb, Chunks;
    var d := DigitsPerLimb(radix1);
    if g == 0 {
      PowStart(radix1);
    } else {
      var n := if g < d then g else d;
      DigitsFitLimbs(radix1, g - n);
      FewerChunks(g, n, d);
      DigitsFit(radix1, n);
      PowPlus(radix1, n, g - n);
      var c := Chunks(g - n, d);
      PowPlus(B, 1, c);
      PowStart(B);
      MulOrder(Pow(radix1, n), B, Pow(radix1, g - n));
      MulOrder(Pow(radix1, g - n), Pow(B, c), B);
    }
  }

  /** The limbs `mul_pow_round` may need beyond those of m. */
  function Room(radix1: nat, radixShift: nat, f: int, e: int): nat
    requires 1 <= radix1 <= 36
  {
    Growth(radix1, radixShift, f, true, e)
    + if f < 0 && radix1 > 1 then 0 else Chunks(AtLeastZero(e + f * radixShift), 32)
  }

  /** `mul_pow_round`: m * 2^e * radix^f, rounded to an integer in any of the modes */
  method MulPowRound(a: Bignum, m: nat, e: int, radix1: nat, radixShift: nat, f: int, mode: Mode)
    requires m < B * B && OddRadix(radix1) && a.tab.Length >= 2 + Room(radix1, radixShift, f, e)
    modifies a, a.tab
    ensures a.Valid() && a.Value() == Round(mode, Exact(m, radix1, radixShift, f, e))
    ensures m > 0 ==> a.Normal()
  {
    hide Pow, Shifted, Val, Round, Exact, Growth, Sticky;
    SetU64(a, m);
    var offset := MulPow(a, radix1, radixShift, f, true, e);
    var shift := -e + offset;
    assert f >= 0 || radix1 == 1 ==> -shift == e + f * radixShift;
    RoundScaled(mode, a.Value(), m, radix1, radixShift, f, offset, e);
    KeepsPositive(a.Value(), m, radix1, radixShift, f, offset, e);
    a.ShiftRound(shift, mode);
  }

  /** Rounding after the shift is rounding the exact product. */
  lemma RoundScaled(mode: Mode, w: nat, v: nat, radix1: nat, radixShift: nat, f: int, offset: int, e: int)
    requires radix1 > 0 && Scaled(w, v, radix1, radixShift, f, offset, true, e)
    ensures Round(mode, Shifted(w, -(-e + offset))) == Round(mode, Exact(v, radix1, radixShift, f, e))
  {
    hide Pow, Round, Exact, Sticky;
    var x, s := Exact(v, radix1, radixShift, f, offset), offset - e;
    ExactShift(v, radix1, radixShift, f, offset, -s);
    var y, z := Exact(v, radix1, radixShift, f, e), Shifted(w, -(-e + offset));
    assert y == x * Power(2, -s) && z == w as real * Power(2, -s);
    if f >= 0 || radix1 == 1 {
      assert z == y;
    } else {
      RoundSticky(mode, w, x, s, y, z);
    }
  }

  lemma RoundSticky(mode: Mode, w: int, x: real, s: int, y: real, z: real)
    requires s >= 2 && x >= 0.0 && w == Sticky(x) && y == x * Power(2, -s) && z == w as real * Power(2, -s)
    ensures Round(mode, z) == Round(mode, y)
  {
    hide Pow, Round, Sticky;
    var p := Pow(2, s) as real;
    GuardBits(s);
    assert Power(2, -s) == 1.0 / p;
    OverPower(x, p, y);
    OverPower(w as real, p, z);
    StickyRounds(mode, x, Pow(2, s));
  }

  lemma OverPower(x: real, p: real, y: real)
    requires p > 0.0 && y == x * (1.0 / p)
    ensures y == x / p
  {
  }

  lemma GuardBits(s: nat)
    requires s >= 2
    ensures Pow(2, s) % 4 == 0
  {
    hide Pow;
    PowPlus(2, 2, s - 2);
    PowSquare(2, 1);
    PowStart(2);
  }

  lemma ExactShift(v: nat, radix1: nat, radixShift: nat, f: int, offset: int, d: int)
    requires radix1 > 0
    ensures Exact(v, radix1, radixShift, f, offset + d) == Exact(v, radix1, radixShift, f, offset) * Power(2, d)
  {
    hide Power, Radix;
    PowerPlus(2, offset, d);
    AssociateReal(v as real * Power(Radix(radix1, radixShift), f), Power(2, offset), Power(2, d));
  }

  lemma AssociateReal(x: real, y: real, z: real)
    ensures x * y * z == x * (y * z)
  {
  }

  /** A product that is not zero stays so, with a sticky bit if need be. */
  lemma KeepsPositive(w: nat, v: nat, radix1: nat, radixShift: nat, f: int, offset: int, e: int)
    requires radix1 > 0 && Scaled(w, v, radix1, radixShift, f, offset, true, e)
    ensures v > 0 ==> w > 0
  {
    hide Power, Radix, Pow;
    if v > 0 {
      var x := Exact(v, radix1, radixShift, f, offset);
      Positive3(v as real, Power(Radix(radix1, radixShift), f), Power(2, offset));
    }
  }

  lemma Positive3(x: real, y: real, z: real)
    requires x > 0.0 && y > 0.0 && z > 0.0
    ensures x * y * z > 0.0
  {
    RealStrict(0.0, x, y);
    RealStrict(0.0, x * y, z);
  }
}
