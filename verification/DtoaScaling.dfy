/** Multiplying by powers of the radix, with a sticky bit for what division cuts off. */
module DtoaScaling {
  import opened DtoaRounding
  import opened DtoaDivision
  import opened DtoaLimbs
  import opened DtoaBits
  import opened DtoaBignum

  /** How many digits of each radix fit in a limb (`digits_per_limb_table`). */
  const DIGITS_PER_LIMB: seq<nat> :=
    [32, 20, 16, 13, 12, 11, 10, 10, 9, 9, 8, 8, 8, 8, 8, 7, 7, 7, 7, 7, 7, 7, 6, 6, 6, 6, 6, 6, 6, 6, 6, 6, 6, 6, 6]

  function DigitsPerLimb(radix: nat): (d: nat)
    requires 2 <= radix <= 36
    ensures 1 <= d <= 32
  {
    DIGITS_PER_LIMB[radix - 2]
  }

  lemma DigitsFit(radix: nat, n: nat)
    requires 3 <= radix <= 36 && radix % 2 == 1 && n <= DigitsPerLimb(radix)
    ensures 0 < Pow(radix, n) < B
  {
    hide Pow;
    PowMonotone(radix, n, DigitsPerLimb(radix));
    LimbPowers();
    if 13 <= radix <= 15 {
      PowBase(radix, 15, 8);
    } else if 17 <= radix <= 23 {
      PowBase(radix, 23, 7);
    } else if 25 <= radix {
      PowBase(radix, 35, 6);
    }
  }

  lemma LimbPowers()
    ensures Pow(3, 20) < B && Pow(5, 13) < B && Pow(7, 11) < B && Pow(9, 10) < B
    ensures Pow(11, 9) < B && Pow(15, 8) < B && Pow(23, 7) < B && Pow(35, 6) < B
  {
    assert Pow(3, 10) == 59049 && Pow(5, 6) == 15625;
    PowPlus(3, 10, 10);
    PowPlus(5, 6, 7);
  }

  lemma {:induction false} PowBase(a: nat, b: nat, n: nat)
    requires a <= b
    ensures Pow(a, n) <= Pow(b, n)
  {
    if n > 0 {
      PowBase(a, b, n - 1);
      MulOrder(a, b, Pow(a, n - 1));
      MulOrder(Pow(a, n - 1), Pow(b, n - 1), b);
    }
  }

  /** The number of bits, 32 - clz32(x). */
  function BitLength(x: nat): (n: nat)
    ensures x == 0 ==> n == 0
    ensures x > 0 ==> n > 0 && Pow(2, n - 1) <= x < Pow(2, n)
  {
    if x == 0 then 0 else 1 + BitLength(x / 2)
  }

  lemma LimbBits(x: Limb)
    ensures BitLength(x) <= 32
  {
    hide Pow;
    LimbIsPower();
    if BitLength(x) > 32 {
      PowMonotone(2, 32, BitLength(x) - 1);
    }
  }

  /** `pow_ui` without its table: square and multiply from the top bit down. */
  method PowSmall(a: nat, b: nat) returns (r: nat)
    requires a > 0
    ensures r == Pow(a, b)
  {
    hide Pow;
    PowStart(a);
    if b == 0 {
      return 1;
    }
    if b == 1 {
      return a;
    }
    r := a;
    var bits := BitLength(b);
    TopBit(b, bits);
    for i := bits - 1 downto 0
      invariant r == Pow(a, b / Pow(2, i))
    {
      var h := b / Pow(2, i + 1);
      HalveMore(b, i);
      r := r * r;
      PowPlus(a, h, h);
      if b / Pow(2, i) % 2 == 1 {
        PowPlus(a, h + h, 1);
        r := r * a;
      }
    }
    ShiftOne();
  }

  lemma TopBit(b: nat, n: nat)
    requires n > 0 && Pow(2, n - 1) <= b < Pow(2, n)
    ensures b / Pow(2, n - 1) == 1
  {
    QuotientIs(b, Pow(2, n - 1), 1, b - Pow(2, n - 1));
  }

  lemma HalveMore(b: nat, i: nat)
    ensures b / Pow(2, i + 1) == b / Pow(2, i) / 2
  {
    hide Pow;
    PowUp(2, i);
    DivDiv(b, Pow(2, i), 2);
  }

  /** `pow_ui_inv` without its table: a power that fits in a limb, normalised, and its reciprocal */
  method PowInverse(a: nat, b: nat) returns (r: Limb, inv: Limb, shift: nat)
    requires a > 0 && Pow(a, b) < B
    ensures shift < 32 && r >= HALF && r == Pow(a, b) * Pow(2, shift) && inv == Reciprocal(r)
  {
    hide Pow, Reciprocal;
    var p := PowSmall(a, b);
    LimbBits(p);
    shift := 32 - BitLength(p);
    Normalised(p, shift);
    r := p * Pow(2, shift);
    inv := Reciprocal(r);
  }

  lemma Normalised(p: Limb, shift: nat)
    requires p > 0 && BitLength(p) <= 32 && shift == 32 - BitLength(p)
    ensures HALF <= p * Pow(2, shift) < B
  {
    hide Pow, BitLength;
    var n := BitLength(p);
    LimbSplit(n);
    HalfLimb(n - 1);
    MulOrder(Pow(2, n - 1), p, Pow(2, shift));
    MulOrder(p, Pow(2, n) - 1, Pow(2, shift));
  }

  // ----- powers of the radix -----

  /** The limbs `mul_pow` may need beyond those it is given. */
  function Growth(radix1: nat, radixShift: nat, f: int, isInt: bool, e: int): nat
    requires 1 <= radix1 <= 36 && (isInt || e >= 0)
  {
    if radix1 == 1 then 0
    else if f >= 0 then Chunks(f, DigitsPerLimb(radix1))
    else
      var l := Chunks(-f, DigitsPerLimb(radix1));
      l + Chunks(if !isInt then e + 1 else AtLeastZero(2 + e - (-f * radixShift + l * 32)), 32)
  }

  function AtLeastZero(x: int): nat {
    if x > 0 then x else 0
  }

  /** Multiplies by radix1^f, as many digits at a time as fit in a limb. */
  method MulPowers(a: Bignum, radix1: nat, f: nat)
    requires a.Valid() && 3 <= radix1 <= 35 && radix1 % 2 == 1
    requires a.len + Chunks(f, DigitsPerLimb(radix1)) <= a.tab.Length
    modifies a, a.tab
    ensures a.Valid() && a.Value() == old(a.Value()) * Pow(radix1, f)
    ensures a.len <= old(a.len) + Chunks(f, DigitsPerLimb(radix1))
    ensures old(a.Normal()) ==> a.Normal()
  {
    hide Pow, Val, DigitsPerLimb, Chunks;
    var d := DigitsPerLimb(radix1);
    var left: nat := f;
    var b, n0 := 0, 0;
    ghost var v := a.Value();
    PowStart(radix1);
    while left != 0
      invariant left <= f && a.Valid() && a.len + Chunks(left, d) <= old(a.len) + Chunks(f, d)
      invariant a.Value() == v * Pow(radix1, f - left)
      invariant n0 > 0 ==> b == Pow(radix1, n0) && 0 < b < B
      invariant old(a.Normal()) ==> a.Normal()
    {
      var n := if left < d then left else d;
      if n != n0 {
        b := PowSmall(radix1, n);
        DigitsFit(radix1, n);
        n0 := n;
      }
      FewerChunks(left, n, d);
      MulLimb(a, b);
      PowPlus(radix1, f - left, n);
      Associate(v, Pow(radix1, f - left), b);
      left := left - n;
    }
  }

  lemma Associate(x: int, y: int, z: int)
    ensures x * y * z == x * (y * z)
  {
  }

  /** The number of pieces of at most d that n falls into. */
  function Chunks(n: nat, d: nat): nat
    requires d > 0
  {
    (n + d - 1) / d
  }

  lemma FewerChunks(left: nat, n: nat, d: nat)
    requires d > 0 && n == (if left < d then left else d) && left > 0
    ensures Chunks(left, d) == 1 + Chunks(left - n, d)
  {
    if left < d {
      QuotientIs(left + d - 1, d, 1, left - 1);
      QuotientIs(d - 1, d, 0, d - 1);
    } else {
      var hi, lo := DivMod(left - 1, d);
      assert d * (hi + 1) == hi * d + d;
      QuotientIs(left + d - 1, d, hi + 1, lo);
    }
  }

  method MulLimb(a: Bignum, b: Limb)
    requires a.Valid() && a.len < a.tab.Length && b > 0
    modifies a, a.tab
    ensures a.Valid() && a.Value() == old(a.Value()) * b && a.len <= old(a.len) + 1
    ensures old(a.Normal()) ==> a.Normal()
  {
    hide Val, Pow;
    ghost var v := a.Value();
    TopLimb(a.tab[..a.len]);
    var h := MulSmall(a.tab, a.len, b, 0);
    if h != 0 {
      ghost var low := a.tab[..a.len];
      a.tab[a.len] := h;
      a.len := a.len + 1;
      assert a.tab[..a.len] == low + [h];
      ValAppend(low, h);
    } else {
      MulOrder(1, b, v);
      TopLimb(a.tab[..a.len]);
    }
  }

  /** n / d with the lowest bit set if the division is not exact. */
  function StickyDiv(n: nat, d: nat): nat
    requires d > 0
  {
    if n % d == 0 then n / d else n / d - n / d % 2 + 1
  }

  lemma StickyDivIs(n: nat, d: nat)
    requires d > 0
    ensures Sticky(n as real / d as real) == StickyDiv(n, d)
  {
    var q, r := DivMod(n, d);
    var x, y := n as real / d as real, d as real;
    RealProduct(q, d);
    Quotient(n as real, y, x);
    var z := x - q as real;
    assert z * y == r as real by { assert (x - q as real) * y == x * y - q as real * y; }
    UnitFactor(z, r as real, y);
    FloorIs(x, q);
    if r == 0 {
      ZeroFactor(z, y);
    } else {
      assert z != 0.0;
    }
  }

  lemma ZeroFactor(z: real, y: real)
    requires y > 0.0 && z * y == 0.0
    ensures z == 0.0
  {
  }

  /** Divides by radix1^g, as many digits at a time as fit in a limb, and or-s all the remainders. */
  method DivPowers(a: Bignum, radix1: nat, g: nat)
    requires a.Valid() && 3 <= radix1 <= 35 && radix1 % 2 == 1
    modifies a, a.tab
    ensures a.Valid() && a.Value() == StickyDiv(old(a.Value()), Pow(radix1, g)) && a.len <= old(a.len)
    ensures g > 0 || old(a.Normal()) ==> a.Normal()
  {
    hide Pow, Val, DigitsPerLimb, Reciprocal;
    var d := DigitsPerLimb(radix1);
    var left: nat := g;
    var b, inv, shift, n0 := HALF, 0, 0, 0;
    var inexact := false;
    ghost var v, p := a.Value(), 1;
    PowStart(radix1);
    while left != 0
      invariant left <= g && a.Valid() && a.len <= old(a.len) && p == Pow(radix1, g - left)
      invariant a.Value() == v / p && inexact == (v % p != 0)
      invariant n0 > 0 ==> b == Pow(radix1, n0) * Pow(2, shift) && HALF <= b < B && inv == Reciprocal(b) && shift < 32
      invariant n0 > 0 ==> Pow(radix1, n0) < B
      invariant left < g || old(a.Normal()) ==> a.Normal()
    {
      var n := if left < d then left else d;
      if n != n0 {
        DigitsFit(radix1, n);
        b, inv, shift := PowInverse(radix1, n);
        n0 := n;
      }
      ghost var c := Pow(radix1, n);
      var r := DivLimb(a, b, inv, shift, c);
      inexact := inexact || r != 0;
      DivDiv(v, p, c);
      SumIsZero(v % p, v / p % c, p);
      PowPlus(radix1, g - left, n);
      p := p * c;
      left := left - n;
    }
    if inexact {
      SetLowBit(a);
    }
  }

  method DivLimb(a: Bignum, b: Limb, inv: Limb, shift: nat, ghost c: nat) returns (r: Limb)
    requires a.Valid() && shift < 32 && b >= HALF && inv == Reciprocal(b) && 0 < c < B && b == c * Pow(2, shift)
    modifies a, a.tab
    ensures a.Valid() && a.Value() == old(a.Value()) / c && r == old(a.Value()) % c && a.len <= old(a.len)
    ensures a.Normal()
  {
    hide Val, Pow, Reciprocal;
    ghost var v := a.Value();
    r := DivNormalised(a.tab, a.len, b, 0, inv, shift, c);
    QuotientIs(v, c, a.Value(), r);
    a.Renormalise();
  }

  /** `a->tab[0] |= 1` */
  method SetLowBit(a: Bignum)
    requires a.Valid()
    modifies a.tab
    ensures a.Valid() && a.Value() == old(a.Value()) - old(a.Value()) % 2 + 1
    ensures old(a.Normal()) ==> a.Normal()
  {
    ghost var s := a.tab[..a.len];
    a.tab[0] := a.tab[0] - a.tab[0] % 2 + 1;
    assert a.tab[..a.len][1..] == s[1..];
  }
}
