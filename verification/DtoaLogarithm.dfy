/** Logarithms of powers of two to the base of the radix, and the tables of exponents. */
module DtoaLogarithm {
  import opened DtoaRounding
  import opened DtoaDivision
  import opened DtoaScaling
  import opened DtoaConvert
  import opened DtoaText
  import opened DtoaBounds

  /** 2^24 / log2(radix), rounded (`mul_log2_radix_table`). */
  const INVERSE_LOGS: seq<nat> :=
    [0x000000, 0xa1849d, 0x000000, 0x6e40d2, 0x6308c9, 0x5b3065, 0x000000, 0x50c24e,
     0x4d104d, 0x4a0027, 0x4768ce, 0x452e54, 0x433d00, 0x418677, 0x000000, 0x3ea16b,
     0x3d645a, 0x3c43c2, 0x3b3b9a, 0x3a4899, 0x39680b, 0x3897b3, 0x37d5af, 0x372069,
     0x367686, 0x35d6df, 0x354072, 0x34b261, 0x342bea, 0x33ac62, 0x000000, 0x32bfd9,
     0x3251dd, 0x31e8d6, 0x318465]

  const TWO24 := 0x100_0000

  /** `mul_log2_radix`; the division of C truncates, which is why negative numbers are moved first */
  function MulLog2Radix(a: int, radix: nat): int
    requires 2 <= radix <= 36
  {
    var bits := RadixBits(radix);
    if bits != 0 then
      var a' := if a < 0 then a - (bits - 1) else a;
      if a' < 0 then -(-a' / bits) else a' / bits
    else a * INVERSE_LOGS[radix - 2] / TWO24
  }

  /** n is the integer part of a / log2(radix). */
  ghost predicate IsLog(a: int, radix: nat, n: int)
    requires radix > 0
  {
    Power(radix, n) <= Power(2, a) < Power(radix, n + 1)
  }

  // ----- neighbouring fractions -----

  /** No fraction with a numerator below h1 + h2 lies strictly between two neighbours. */
  lemma Neighbours(h1: nat, k1: nat, h2: nat, k2: nat, a: nat, k: nat)
    requires h2 * k1 == h1 * k2 + 1 && a < h1 + h2
    ensures a * k1 <= k * h1 || k * h2 <= a * k2
  {
    if a * k1 > k * h1 && k * h2 > a * k2 {
      var x, y := a * k1 - k * h1, k * h2 - a * k2;
      assert h2 * x + h1 * y == a * (h2 * k1) - a * (h1 * k2);
      assert a * (h1 * k2 + 1) - a * (h1 * k2) == a;
      MulOrder(1, x, h2);
      MulOrder(1, y, h1);
    }
  }

  /** h1 / k1 lies below and h2 / k2 above both log2(radix) and its approximation, and they are
      neighbours; mult is the approximation of the inverse. */
  ghost predicate Certified(radix: nat, mult: nat, h1: nat, k1: nat, h2: nat, k2: nat) {
    && h2 * k1 == h1 * k2 + 1 && 0 < k1 && 0 < k2 && 2048 < h1 + h2
    && Pow(2, h1) < Pow(radix, k1) && Pow(radix, k2) < Pow(2, h2)
    && h1 * mult < k1 * TWO24 && k2 * TWO24 < h2 * mult
  }

  lemma {:induction false} PowStrict(x: nat, y: nat, n: nat)
    requires x < y && n > 0
    ensures Pow(x, n) < Pow(y, n)
  {
    if n == 1 {
      PowStart(x);
      PowStart(y);
    } else {
      PowStrict(x, y, n - 1);
      MulOrder(x, y, Pow(x, n - 1));
      MulOrder(Pow(x, n - 1) + 1, Pow(y, n - 1), y);
      assert (Pow(x, n - 1) + 1) * y == Pow(x, n - 1) * y + y;
    }
  }

  lemma PowRoot(x: nat, y: nat, n: nat)
    requires Pow(x, n) < Pow(y, n)
    ensures x < y
  {
    if y <= x {
      PowBase(y, x, n);
    }
  }

  /** 2^a < radix^k because a / k <= h / l and 2^h < radix^l. */
  lemma BelowPower(a: nat, b: nat, k: nat, c: nat, h: nat, l: nat)
    requires a * l <= k * h && Pow(b, h) < Pow(c, l) && k > 0 && b > 0
    ensures Pow(b, a) < Pow(c, k)
  {
    hide Pow;
    PowPow(b, a, l);
    PowMonotone(b, a * l, k * h);
    PowPow(b, h, k);
    PowStrict(Pow(b, h), Pow(c, l), k);
    PowPow(c, l, k);
    PowPow(c, k, l);
    assert h * k == k * h && l * k == k * l;
    PowRoot(Pow(b, a), Pow(c, k), l);
  }

  /** The approximation decides as the logarithm does. */
  lemma Decides(radix: nat, mult: nat, h1: nat, k1: nat, h2: nat, k2: nat, a: nat, k: nat)
    requires Certified(radix, mult, h1, k1, h2, k2) && radix >= 2 && 1 <= a <= 2048 && k > 0
    ensures if Pow(2, a) < Pow(radix, k) then a * mult < k * TWO24 else Pow(radix, k) < Pow(2, a) && k * TWO24 < a * mult
  {
    hide Pow;
    Neighbours(h1, k1, h2, k2, a, k);
    if a * k1 <= k * h1 {
      BelowPower(a, 2, k, radix, h1, k1);
      Below(a, k1, k, h1, mult, TWO24);
    } else {
      BelowPower(k, radix, a, 2, k2, h2);
      Below(k, h2, a, k2, TWO24, mult);
    }
  }

  lemma Below(a: nat, k1: nat, k: nat, h1: nat, m: nat, t: nat)
    requires a * k1 <= k * h1 && h1 * m < k1 * t && k > 0 && k1 > 0
    ensures a * m < k * t
  {
    assert a * m * k1 == a * k1 * m && k * t * k1 == k1 * t * k && k * h1 * m == h1 * m * k;
    assert (h1 * m + 1) * k == h1 * m * k + k;
    MulOrder(a * k1, k * h1, m);
    MulOrder(h1 * m + 1, k1 * t, k);
    if a * m >= k * t {
      MulOrder(k * t, a * m, k1);
    }
  }

  /** Neighbours for the radixes that are not powers of two. */
  const NEIGHBOURS: seq<(nat, nat, nat, nat)> :=
    [(0, 0, 0, 0), (1054, 665, 1539, 971), (0, 0, 0, 0), (1832, 789, 1493, 643),
     (1719, 665, 791, 306), (1909, 680, 1603, 571), (0, 0, 0, 0), (1623, 512, 485, 153),
     (485, 146, 1651, 497), (2003, 579, 128, 37), (1287, 359, 1097, 306), (1717, 464, 840, 227),
     (415, 109, 1759, 462), (965, 247, 1133, 290), (0, 0, 0, 0), (1075, 263, 1402, 343),
     (1497, 359, 638, 153), (2039, 480, 514, 121), (631, 146, 1517, 351), (571, 130, 1489, 339),
     (1922, 431, 165, 37), (864, 191, 1823, 403), (1646, 359, 1403, 306), (339, 73, 1969, 424),
     (1114, 237, 1067, 227), (1707, 359, 485, 102), (524, 109, 1697, 353), (1676, 345, 821, 169),
     (1212, 247, 1423, 290), (1838, 371, 649, 131), (0, 0, 0, 0), (1932, 383, 227, 45),
     (1338, 263, 1745, 343), (1349, 263, 1944, 379), (1856, 359, 791, 153)]

  /** Powers compare as the bounds of the logarithm do. */
  lemma BelowBound(radix: nat, h: nat, k: nat, lo: nat, hi: nat)
    requires Bits(radix, lo, hi) && h * FINE < k * lo
    ensures Pow(2, h) < Pow(radix, k)
  {
    hide Pow, Bits, FINE;
    PowPow(2, h, FINE);
    PowPow(radix, k, FINE);
    Raise(radix, lo, hi, k);
    PowGrows(2, h * FINE, k * lo);
    PowRoot(Pow(2, h), Pow(radix, k), FINE);
  }

  lemma AboveBound(radix: nat, h: nat, k: nat, lo: nat, hi: nat)
    requires Bits(radix, lo, hi) && k * hi < h * FINE
    ensures Pow(radix, k) < Pow(2, h)
  {
    hide Pow, Bits, FINE;
    PowPow(2, h, FINE);
    PowPow(radix, k, FINE);
    Raise(radix, lo, hi, k);
    PowGrows(2, k * hi, h * FINE);
    PowRoot(Pow(radix, k), Pow(2, h), FINE);
  }

  lemma Raise(radix: nat, lo: nat, hi: nat, k: nat)
    requires Bits(radix, lo, hi)
    ensures Pow(2, k * lo) <= Pow(radix, k * FINE) <= Pow(2, k * hi)
  {
    hide Pow;
    PowBase(Pow(2, lo), Pow(radix, FINE), k);
    PowBase(Pow(radix, FINE), Pow(2, hi), k);
    PowPow(2, lo, k);
    PowPow(2, hi, k);
    PowPow(radix, FINE, k);
    assert lo * k == k * lo && hi * k == k * hi;
  }

  lemma PowGrows(b: nat, m: nat, n: nat)
    requires m < n && b >= 2
    ensures Pow(b, m) < Pow(b, n)
  {
    hide Pow;
    PowMonotone(b, m + 1, n);
    PowUp(b, m);
    MulOrder(2, b, Pow(b, m));
  }

  lemma NeighbourTable(radix: nat)
    requires 2 <= radix <= 36 && RadixBits(radix) == 0
    ensures var (h1, k1, h2, k2) := NEIGHBOURS[radix - 2];
            h2 * k1 == h1 * k2 + 1 && 0 < k1 && 0 < k2 && 2048 < h1 + h2
  {
  }

  lemma InverseTable(radix: nat)
    requires 2 <= radix <= 36 && RadixBits(radix) == 0
    ensures var (h1, k1, h2, k2), mult := NEIGHBOURS[radix - 2], INVERSE_LOGS[radix - 2];
            h1 * mult < k1 * TWO24 && k2 * TWO24 < h2 * mult
  {
  }

  lemma BoundsTable(radix: nat)
    requires 2 <= radix <= 36 && RadixBits(radix) == 0
    ensures var (h1, k1, h2, k2), (lo, hi) := NEIGHBOURS[radix - 2], LOG_BOUNDS[radix - 2];
            (lo, hi) != (0, 0) && h1 * FINE < k1 * lo && k2 * hi < h2 * FINE
  {
  }

  /** The table and its neighbours fit together. */
  lemma TableCertified(radix: nat)
    requires 2 <= radix <= 36 && RadixBits(radix) == 0
    ensures var (h1, k1, h2, k2) := NEIGHBOURS[radix - 2];
            Certified(radix, INVERSE_LOGS[radix - 2], h1, k1, h2, k2)
  {
    hide Pow, Bits;
    var (h1, k1, h2, k2) := NEIGHBOURS[radix - 2];
    var (lo, hi) := LOG_BOUNDS[radix - 2];
    hide NEIGHBOURS, LOG_BOUNDS, INVERSE_LOGS;
    NeighbourTable(radix);
    InverseTable(radix);
    BoundsTable(radix);
    LogBounds(radix);
    BelowBound(radix, h1, k1, lo, hi);
    AboveBound(radix, h2, k2, lo, hi);
  }

  /** `mul_log2_radix` is exact on its whole documented range. */
  lemma LogIsExact(a: int, radix: nat)
    requires 2 <= radix <= 36 && -2048 <= a <= 2047
    ensures IsLog(a, radix, MulLog2Radix(a, radix))
  {
    hide Pow, Power;
    var n := MulLog2Radix(a, radix);
    if RadixBits(radix) != 0 {
      BinaryLog(a, radix, n);
    } else {
      var (h1, k1, h2, k2) := NEIGHBOURS[radix - 2];
      var mult := INVERSE_LOGS[radix - 2];
      TableCertified(radix);
      if a >= 0 {
        LogUp(a, radix, mult, h1, k1, h2, k2, n);
      } else {
        LogDown(-a, radix, mult, h1, k1, h2, k2, n);
      }
    }
  }

  /** For a radix 2^bits the quotient is exact. */
  lemma BinaryLog(a: int, radix: nat, n: int)
    requires 2 <= radix <= 36 && RadixBits(radix) != 0 && n == MulLog2Radix(a, radix)
    ensures IsLog(a, radix, n)
  {
    hide Pow, Power;
    var bits := RadixBits(radix);
    assert bits * n <= a < bits * (n + 1);
    BinaryPower(radix, n);
    BinaryPower(radix, n + 1);
    PowerMonotone(2, bits * n, a);
    PowerStrict(2, a, bits * (n + 1));
  }

  lemma BinaryPower(radix: nat, n: int)
    requires RadixBits(radix) != 0
    ensures radix > 0 && Power(radix, n) == Power(2, RadixBits(radix) * n)
  {
    hide Pow;
    if n >= 0 {
      BinaryRadix(radix, n);
    } else {
      BinaryRadix(radix, -n);
      assert RadixBits(radix) * n == -(RadixBits(radix) * -n) < 0;
    }
  }

  lemma LogUp(a: nat, radix: nat, mult: nat, h1: nat, k1: nat, h2: nat, k2: nat, n: int)
    requires Certified(radix, mult, h1, k1, h2, k2) && radix >= 2 && a <= 2047 && n == a * mult / TWO24
    ensures IsLog(a, radix, n)
  {
    hide Pow, Power;
    MulOrder(0, a, mult);
    PowerUp(2, a);
    PowerUp(radix, n);
    PowerUp(radix, n + 1);
    PowStart(radix);
    PowStart(2);
    if a == 0 {
      PowStart(radix);
    } else {
      Decides(radix, mult, h1, k1, h2, k2, a, n + 1);
      if n > 0 {
        Decides(radix, mult, h1, k1, h2, k2, a, n);
      } else {
        PowMonotone(2, 0, a);
      }
    }
  }

  lemma LogDown(a: nat, radix: nat, mult: nat, h1: nat, k1: nat, h2: nat, k2: nat, n: int)
    requires Certified(radix, mult, h1, k1, h2, k2) && radix >= 2 && 1 <= a <= 2048 && n == -(a as int) * mult / TWO24
    ensures IsLog(-(a as int), radix, n)
  {
    hide Pow, Power;
    var k := -n;
    assert -(a as int) * mult == -(a * mult);
    assert a * mult <= k * TWO24 && (k - 1) * TWO24 < a * mult;
    MulOrder(1, a, mult);
    MultPositive(mult, h2, k2);
    Decides(radix, mult, h1, k1, h2, k2, a, k);
    if k > 1 {
      Decides(radix, mult, h1, k1, h2, k2, a, k - 1);
    } else {
      PowMonotone(2, 1, a);
      PowStart(2);
      PowStart(radix);
    }
    Flipped(2, a, radix, k);
    Flipped(radix, k - 1, 2, a);
  }

  lemma MultPositive(mult: nat, h2: nat, k2: nat)
    requires 0 < k2 && k2 * TWO24 < h2 * mult
    ensures mult > 0
  {
  }

  /** Inverses compare the other way round. */
  lemma Flipped(b: nat, m: int, c: nat, n: int)
    requires b > 0 && c > 0 && m >= 0 && n >= 0 && Pow(b, m) < Pow(c, n)
    ensures Power(c, -n) < Power(b, -m)
  {
    hide Pow, Power;
    PowerDown(b, m);
    PowerDown(c, n);
    InverseOrder(Pow(b, m) as real, Pow(c, n) as real, Power(b, -m), Power(c, -n));
  }

  lemma InverseOrder(x: real, y: real, u: real, v: real)
    requires 0.0 < x < y && u * x == 1.0 && v * y == 1.0 && u > 0.0 && v > 0.0
    ensures v < u
  {
    if v >= u {
      RealOrder(u, v, x);
      RealStrict(x, y, v);
    }
  }
}
