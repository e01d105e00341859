/** Division of two limbs by one with a precomputed reciprocal. */
module DtoaDivision {
  const B := 0x1_0000_0000
  const HALF := 0x8000_0000

  /** A 32-bit limb. */
  type Limb = x: int | 0 <= x < B

  /** The reciprocal of a divisor whose top bit is set. */
  function Reciprocal(d: Limb): Limb
    requires d >= HALF
  {
    ((B - d - 1) * B + (B - 1)) / d % B
  }

  /** The first guess at the quotient, `a0`'s top bit deciding which way to lean. */
  function Guess(a1: Limb, a0: Limb, d: Limb, inv: Limb): Limb {
    var n1m: Limb := if a0 >= HALF then B - 1 else 0;
    var adj: Limb := (a0 + Masked(n1m, d)) % B;
    HighLimb((inv * ((a1 - n1m) % B) + adj) % (B * B), a1)
  }

  function HighLimb(a: int, a1: Limb): Limb {
    (a / B + a1) % B
  }

  /** `mask & d` for a mask of all zeros or all ones. */
  function Masked(mask: Limb, d: Limb): Limb
    requires mask == 0 || mask == B - 1
  {
    if mask == 0 then 0 else d
  }

  /** The guess and one conditional correction give the quotient and the remainder. */
  function DivideTwo(a1: Limb, a0: Limb, d: Limb, inv: Limb): (qr: (Limb, Limb))
    requires d >= HALF && a1 < d && inv == Reciprocal(d)
    ensures qr.0 * d + qr.1 == a1 * B + a0 && qr.1 < d
  {
    hide Guess, Reciprocal;
    GuessClose(a1, a0, d, inv);
    Corrected(a1 * B + a0, Guess(a1, a0, d, inv), d)
  }

  /** `q` is the quotient of `n` or one less. */
  function Corrected(n: int, q: Limb, d: Limb): (qr: (Limb, Limb))
    requires d >= HALF && 0 <= n - q * d < 2 * d && n < d * B
    ensures qr.0 * d + qr.1 == n && qr.1 < d
  {
    var a := (n - q * d - d) % (B * B);
    Correction(n, q, d, a);
    var ah: Limb := a / B;
    ((q + 1 + ah) % B, (a % B + Masked(ah, d)) % B)
  }

  lemma Correction(n: int, q: Limb, d: Limb, a: int)
    requires d >= HALF && 0 <= n - q * d < 2 * d && a == (n - q * d - d) % (B * B) && n < d * B
    ensures 0 <= a < B * B && (a / B == 0 || a / B == B - 1)
    ensures a / B == 0 ==> q + 1 < B && (q + 1) * d + a % B == n && a % B < d
    ensures a / B != 0 ==> q * d + (a % B + d) % B == n && (a % B + d) % B < d
  {
    var r := n - q * d;
    if r >= d {
      assert a == r - d;
      assert (q + 1) * d == q * d + d;
      if q + 1 >= B {
        MulOrder(B, q + 1, d);
      }
    } else {
      assert a == B * B + (r - d);
      assert a / B == B - 1;
    }
  }

  lemma MulOrder(a: int, b: int, c: int)
    requires a <= b && c >= 0
    ensures a * c <= b * c
  {
  }

  /** What the reciprocal leaves over. */
  lemma ReciprocalLeaves(d: Limb) returns (k: nat)
    requires d >= HALF
    ensures k < d && (Reciprocal(d) + B) * d == B * B - 1 - k
  {
    var n := (B - d - 1) * B + (B - 1);
    k := n % d;
    var v := n / d;
    assert n == B * B - 1 - B * d;
    assert v * d == n - k;
    assert v < B by {
      if v >= B {
        MulOrder(B, v, d);
      }
    }
    assert (v + B) * d == v * d + B * d;
  }

  /** The guess is the quotient or one less. */
  lemma GuessClose(a1: Limb, a0: Limb, d: Limb, inv: Limb)
    requires d >= HALF && a1 < d && inv == Reciprocal(d)
    ensures 0 <= a1 * B + a0 - Guess(a1, a0, d, inv) * d < 2 * d
  {
    hide Reciprocal, Guess;
    var k := ReciprocalLeaves(d);
    var u, b := inv + B, if a0 >= HALF then 1 else 0;
    var w := if a0 >= HALF then a0 + d - 2 * B else a0;
    var t := u * (a1 + b) + w;
    GuessIs(a1, a0, d, inv, b, w, t);
    Estimate(a1, a0, d, u, b, k, w, t);
  }

  /** t / B, taken modulo B, is the quotient or one less. */
  lemma Estimate(a1: Limb, a0: Limb, d: Limb, u: int, b: int, k: nat, w: int, t: int)
    requires d >= HALF && a1 < d && b == (if a0 >= HALF then 1 else 0) && k < d && u >= B && u * d == B * B - 1 - k
    requires w == a0 + b * (d - 2 * B) && t == u * (a1 + b) + w
    ensures 0 <= a1 * B + a0 - t / B % B * d < 2 * d && 0 <= t / B < B
  {
    var n := a1 * B + a0;
    Excess(a1, a0, d, u, b, k, w, t, n);
    WholeGuess(t, d, n, t / B);
    GuessFits(a1, a0, d, n, t / B);
    Positive(u, a1 + b, w, t);
  }

  lemma Positive(u: int, a: int, w: int, t: int)
    requires 0 <= a && t == u * a + w && u >= B && (w >= 0 || (a >= 1 && w >= -B))
    ensures t >= 0
  {
    if w < 0 {
      MulOrder(1, a, u);
    } else {
      MulOrder(0, a, u);
    }
  }

  lemma GuessFits(a1: Limb, a0: Limb, d: Limb, n: int, q: int)
    requires a1 < d && n == a1 * B + a0 && q * d <= n
    ensures q < B
  {
    if q >= B {
      MulOrder(B, q, d);
      MulOrder(a1 + 1, d, B);
    }
  }

  /** Without wrap-around, the guess is t / B. */
  lemma GuessIs(a1: Limb, a0: Limb, d: Limb, inv: Limb, b: int, w: int, t: int)
    requires d >= HALF && a1 < d && b == (if a0 >= HALF then 1 else 0)
    requires w == a0 + b * (d - 2 * B) && t == (inv + B) * (a1 + b) + w
    ensures Guess(a1, a0, d, inv) == t / B % B
  {
    hide HighLimb, Guess;
    var adj: Limb := if b == 1 then a0 + d - B else a0;
    GuessParts(a1, a0, d, inv, b, adj);
    var m := a1 + b;
    MulOrder(inv, B - 1, m);
    Tally(inv, m);
    Whole(inv * m, adj, a1);
    var k := inv * m;
    assert k + adj + a1 * B == t;
  }

  lemma GuessParts(a1: Limb, a0: Limb, d: Limb, inv: Limb, b: int, adj: Limb)
    requires d >= HALF && a1 < d && b == (if a0 >= HALF then 1 else 0) && adj == if b == 1 then a0 + d - B else a0
    ensures Guess(a1, a0, d, inv) == HighLimb((inv * (a1 + b) + adj) % (B * B), a1)
  {
    hide HighLimb;
    var n1m: Limb := if a0 >= HALF then B - 1 else 0;
    assert (a0 + Masked(n1m, d)) % B == adj && (a1 - n1m) % B == a1 + b;
  }

  lemma Tally(inv: int, m: int)
    ensures (inv + B) * m == inv * m + B * m
  {
  }

  lemma Whole(p: int, adj: Limb, a1: Limb)
    requires 0 <= p <= (B - 1) * (B - 1)
    ensures HighLimb((p + adj) % (B * B), a1) == (p + adj + a1 * B) / B % B
  {
    assert (p + adj) % (B * B) == p + adj;
  }

  /** n * B - t * d, in closed form, is at least 0 and below B * d. */
  lemma Excess(a1: Limb, a0: Limb, d: Limb, u: int, b: int, k: nat, w: int, t: int, n: int)
    requires d >= HALF && a1 < d && b == (if a0 >= HALF then 1 else 0) && k < d && u * d == B * B - 1 - k
    requires w == a0 + b * (d - 2 * B) && t == u * (a1 + b) + w && n == a1 * B + a0
    ensures 0 <= n * B - t * d <= B * d - B + d
  {
    var c, x := B - d, (1 + k) * (a1 + b);
    ExcessForm(a1, a0, d, u, b, k, w, t, n);
    assert 0 <= x <= d * (a1 + b) by { MulOrder(1 + k, d, a1 + b); }
    if b == 1 {
      Bounds(c, a0 - c, d);
      MulOrder(a1 + 1, d, d);
    } else {
      Bounds(c, a0, d);
      MulOrder(a1, d - 1, d);
    }
  }

  lemma Bounds(c: int, x: int, d: int)
    requires c == B - d && 0 <= x <= d - 1 && 0 <= c
    ensures 0 <= c * x <= B * d - B - d * d + d
  {
    MulOrder(x, d - 1, c);
    assert c * (d - 1) == B * (d - 1) - d * (d - 1);
  }

  lemma ExcessForm(a1: int, a0: int, d: int, u: int, b: int, k: int, w: int, t: int, n: int)
    requires (b == 0 || b == 1) && u * d == B * B - 1 - k
    requires w == a0 + b * (d - 2 * B) && t == u * (a1 + b) + w && n == a1 * B + a0
    ensures n * B - t * d == (B - d) * (a0 - b * (B - d)) + (1 + k) * (a1 + b)
  {
    var a := a1 + b;
    Product(u, a, d, w, k, t);
    if b == 1 {
      Square(d, a0);
    } else {
      assert (B - d) * a0 == B * a0 - d * a0;
    }
  }

  lemma Square(d: int, a0: int)
    ensures (B - d) * (a0 - (B - d)) == B * a0 - a0 * d - B * B + 2 * B * d - d * d
    ensures (a0 + d - 2 * B) * d == a0 * d + d * d - 2 * B * d
  {
  }

  lemma Product(u: int, a: int, d: int, w: int, k: int, t: int)
    requires u * d == B * B - 1 - k && t == u * a + w
    ensures t * d == B * B * a - (1 + k) * a + w * d
  {
    assert u * a * d == u * d * a by { Swap(u, a, d); }
    assert (u * a + w) * d == u * a * d + w * d;
    Spread(k, a);
  }

  lemma Spread(k: int, a: int)
    ensures (B * B - 1 - k) * a == B * B * a - (1 + k) * a
  {
  }

  lemma Swap(x: int, y: int, z: int)
    ensures x * y * z == x * z * y
  {
  }

  lemma WholeGuess(t: int, d: int, n: int, q: int)
    requires 0 < d <= B && 0 <= n * B - t * d <= B * d - B + d && q == t / B
    ensures 0 <= n - q * d < 2 * d
  {
    var f := t % B;
    assert t == q * B + f;
    assert t * d == q * d * B + f * d;
    assert 0 <= f * d <= (B - 1) * d by { MulOrder(f, B - 1, d); }
    assert 0 <= (n - q * d) * B <= 2 * B * d - B;
  }
}
