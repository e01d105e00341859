/** Powers with integer exponents, and rounding of non-negative reals to integers. */
module DtoaRounding {
  function Pow(b: nat, n: nat): (r: nat)
    ensures b > 0 ==> r > 0
  {
    if n == 0 then 1 else b * Pow(b, n - 1)
  }

  lemma PowStart(b: nat)
    ensures Pow(b, 0) == 1 && Pow(b, 1) == b
  {
  }

  lemma PowUp(b: nat, n: nat)
    ensures Pow(b, n + 1) == b * Pow(b, n)
  {
  }

  lemma Regroup(x: int, y: int, z: int)
    ensures x * (y * z) == x * y * z
  {
  }

  lemma {:induction false} PowPlus(b: nat, m: nat, n: nat)
    ensures Pow(b, m + n) == Pow(b, m) * Pow(b, n)
  {
    if m > 0 {
      PowPlus(b, m - 1, n);
      Regroup(b, Pow(b, m - 1), Pow(b, n));
    }
  }

  lemma PowSquare(b: nat, n: nat)
    ensures Pow(b, 2 * n) == Pow(b, n) * Pow(b, n)
  {
    PowPlus(b, n, n);
  }

  lemma Interleave(a: int, b: int, x: int, y: int)
    ensures a * b * (x * y) == a * x * (b * y)
  {
  }

  lemma {:induction false} PowProduct(a: nat, b: nat, n: nat)
    ensures Pow(a * b, n) == Pow(a, n) * Pow(b, n)
  {
    if n > 0 {
      PowProduct(a, b, n - 1);
      Interleave(a, b, Pow(a, n - 1), Pow(b, n - 1));
    }
  }

  lemma {:induction false} PowPow(b: nat, m: nat, n: nat)
    ensures Pow(Pow(b, m), n) == Pow(b, m * n)
  {
    if n > 0 {
      PowPow(b, m, n - 1);
      PowPlus(b, m, m * (n - 1));
      assert m + m * (n - 1) == m * n;
    }
  }

  lemma {:induction false} PowMonotone(b: nat, m: nat, n: nat)
    requires b > 0 && m <= n
    ensures Pow(b, m) <= Pow(b, n)
  {
    if m < n {
      PowMonotone(b, m, n - 1);
      var x := Pow(b, n - 1);
      assert x <= b * x;
    }
  }

  /** b^e for any integer e. */
  function Power(b: nat, e: int): (r: real)
    requires b > 0
    ensures r > 0.0
  {
    if e >= 0 then Pow(b, e) as real else 1.0 / Pow(b, -e) as real
  }

  lemma {:induction false} PowerNext(b: nat, e: int)
    requires b > 0
    ensures Power(b, e + 1) == b as real * Power(b, e)
  {
    if e < 0 {
      var x := Pow(b, -e - 1);
      assert Pow(b, -e) == b * x;
      CancelFactor(b as real, x as real);
    }
  }

  lemma CancelFactor(b: real, x: real)
    requires b > 0.0 && x > 0.0
    ensures b * x > 0.0 && b * (1.0 / (b * x)) == 1.0 / x
  {
    var y := 1.0 / (b * x);
    assert y * (b * x) == 1.0;
    assert (b * y) * x == 1.0;
  }

  lemma {:induction false} PowerPlus(b: nat, x: int, y: int)
    requires b > 0
    ensures Power(b, x + y) == Power(b, x) * Power(b, y)
    decreases if y < 0 then -y else y
  {
    hide Pow, Power;
    if y == 0 {
      PowerZero(b);
    } else if y > 0 {
      PowerPlus(b, x, y - 1);
      PowerNext(b, x + y - 1);
      PowerNext(b, y - 1);
      Rotate(b as real, Power(b, x), Power(b, y - 1));
    } else {
      PowerPlus(b, x, y + 1);
      PowerNext(b, x + y);
      PowerNext(b, y);
      Rotate(b as real, Power(b, x), Power(b, y));
      CancelLeft(b as real, Power(b, x + y), Power(b, x) * Power(b, y));
    }
  }

  lemma PowerZero(b: nat)
    requires b > 0
    ensures Power(b, 0) == 1.0
  {
  }

  lemma Rotate(a: real, b: real, c: real)
    ensures a * (b * c) == b * (a * c)
  {
  }

  lemma CancelLeft(a: real, x: real, y: real)
    requires a > 0.0 && a * x == a * y
    ensures x == y
  {
  }

  lemma PowerInverse(b: nat, e: int)
    requires b > 0
    ensures Power(b, e) * Power(b, -e) == 1.0
  {
    hide Power;
    PowerPlus(b, e, -e);
    PowerZero(b);
  }

  lemma {:induction false} PowerMonotone(b: nat, x: int, y: int)
    requires b > 0 && x <= y
    ensures Power(b, x) <= Power(b, y)
    decreases y - x
  {
    hide Pow, Power;
    if x < y {
      PowerMonotone(b, x, y - 1);
      PowerNext(b, y - 1);
      var p, q, c := Power(b, y - 1), Power(b, y), b as real;
      assert q == c * p;
      Grow(c, p);
      assert p <= q;
    }
  }

  lemma RealOrder(a: real, b: real, c: real)
    requires a <= b && c >= 0.0
    ensures a * c <= b * c
  {
  }

  lemma RealStrict(a: real, b: real, c: real)
    requires a < b && c > 0.0
    ensures a * c < b * c
  {
  }

  lemma Grow(b: real, x: real)
    requires b >= 1.0 && x >= 0.0
    ensures x <= b * x
  {
  }

  lemma PowerStrict(b: nat, x: int, y: int)
    requires b > 1 && x < y
    ensures Power(b, x) < Power(b, y)
  {
    hide Pow, Power;
    PowerMonotone(b, x, y - 1);
    PowerNext(b, y - 1);
    RealOrder(2.0, b as real, Power(b, y - 1));
  }

  /** The exponent of a power that lies in a binade is known. */
  lemma PowerOrder(b: nat, x: int, y: int)
    requires b > 1 && Power(b, x) < Power(b, y)
    ensures x < y
  {
    if y <= x {
      PowerMonotone(b, y, x);
    }
  }

  // ----- rounding -----

  datatype Mode = NearestEven | NearestAway | TowardZero

  /** Rounds `x` to an integer. */
  function Round(mode: Mode, x: real): int
  {
    var q := x.Floor;
    var twice := 2.0 * (x - q as real);
    if mode.TowardZero? || twice < 1.0 then q
    else if twice > 1.0 || mode.NearestAway? || q % 2 == 1 then q + 1
    else q
  }

  lemma FloorIs(x: real, q: int)
    requires q as real <= x < q as real + 1.0
    ensures x.Floor == q
  {
  }

  lemma RoundWhole(mode: Mode, n: int)
    ensures Round(mode, n as real) == n
  {
    FloorIs(n as real, n);
  }

  /** The integer part, with the lowest bit set if anything was cut off. */
  function Sticky(x: real): int {
    var q := x.Floor;
    if x == q as real then q else q - q % 2 + 1
  }

  /** Two bits below the rounding position suffice: the sticky integer part rounds as the real does. */
  lemma StickyRounds(mode: Mode, x: real, p: nat)
    requires x >= 0.0 && p > 0 && p % 4 == 0
    ensures Round(mode, Sticky(x) as real / p as real) == Round(mode, x / p as real)
  {
    hide Round;
    var q := x.Floor;
    if x != q as real {
      var hi, lo := DivMod(q, p);
      EvenMultiple(hi, p, lo);
      SameHalf(mode, hi, hi * p, p, lo, x - q as real);
    }
  }

  lemma DivMod(n: nat, d: nat) returns (hi: nat, lo: nat)
    requires d > 0
    ensures n == hi * d + lo && lo < d && hi == n / d && lo == n % d
  {
    hi, lo := n / d, n % d;
  }

  lemma SameHalf(mode: Mode, hi: int, n: int, p: nat, lo: nat, r: real)
    requires n == hi * p && p % 4 == 0 && lo < p && 0.0 < r < 1.0
    ensures Round(mode, (n + (lo - lo % 2 + 1)) as real / p as real) == Round(mode, ((n + lo) as real + r) / p as real)
  {
    hide Round;
    var lo' := lo - lo % 2 + 1;
    Rounds(mode, hi, n, p, lo' as real);
    Rounds(mode, hi, n, p, lo as real + r);
    assert (n + lo') as real == n as real + lo' as real;
    assert (n + lo) as real + r == n as real + (lo as real + r);
    assert 2 * lo < p <==> 2 * lo' < p;
  }

  lemma EvenMultiple(hi: int, p: int, lo: int)
    requires p % 4 == 0
    ensures (hi * p + lo) % 2 == lo % 2
  {
    assert hi * p == 2 * (hi * (p / 2)) by {
      assert p == 2 * (p / 2);
      assert hi * (2 * (p / 2)) == 2 * (hi * (p / 2));
    }
  }

  /** How hi * p + t rounds once it is divided by p. */
  lemma Rounds(mode: Mode, hi: int, n: int, p: nat, t: real)
    requires p > 0 && 0.0 <= t < p as real && n == hi * p
    ensures Round(mode, (n as real + t) / p as real) ==
            if mode.TowardZero? || 2.0 * t < p as real then hi
            else if 2.0 * t > p as real || mode.NearestAway? || hi % 2 == 1 then hi + 1
            else hi
  {
    var y, d := (n as real + t) / p as real, p as real;
    var z := t / d;
    Quotient(t, d, z);
    Quotient(n as real + t, d, y);
    SplitQuotient(n as real, hi as real, d, t, y, z);
    FloorIs(y, hi);
  }

  lemma SplitQuotient(n: real, hi: real, d: real, t: real, y: real, z: real)
    requires d > 0.0 && n == hi * d && 0.0 <= t < d && y * d == n + t && z * d == t
    ensures y == hi + z && 0.0 <= z < 1.0
    ensures (2.0 * z < 1.0 <==> 2.0 * t < d) && (2.0 * z > 1.0 <==> 2.0 * t > d)
  {
    assert (hi + z) * d == hi * d + z * d;
    SameFactor(y, hi + z, d);
    UnitFactor(z, t, d);
    HalfFactor(z, t, d);
  }

  lemma Quotient(x: real, d: real, z: real)
    requires d > 0.0 && z == x / d
    ensures z * d == x
  {
  }

  lemma SameFactor(x: real, y: real, d: real)
    requires d > 0.0 && x * d == y * d
    ensures x == y
  {
    CancelLeft(d, x, y);
  }

  lemma HalfFactor(z: real, t: real, d: real)
    requires d > 0.0 && z * d == t
    ensures (2.0 * z < 1.0 <==> 2.0 * t < d) && (2.0 * z > 1.0 <==> 2.0 * t > d)
  {
    var h := d / 2.0;
    if z < 0.5 {
      RealStrict(z, 0.5, d);
      assert t < h;
    } else if z > 0.5 {
      RealStrict(0.5, z, d);
      assert t > h;
    } else {
      assert z == 0.5;
      assert t == h;
    }
  }

  lemma UnitFactor(z: real, t: real, d: real)
    requires d > 0.0 && z * d == t && 0.0 <= t < d
    ensures 0.0 <= z < 1.0
  {
    if z < 0.0 {
      RealStrict(z, 0.0, d);
    } else if z >= 1.0 {
      RealOrder(1.0, z, d);
    }
  }
}
