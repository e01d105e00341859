/** Bits of a number held in limbs, and rounding by looking at them. */
module DtoaBits {
  import opened DtoaRounding
  import opened DtoaDivision
  import opened DtoaLimbs

  /** Dropping l limbs and then k bits divides by 2^(32 l + k). */
  lemma LimbPower(l: nat, k: nat)
    ensures Pow(2, 32 * l + k) == Pow(B, l) * Pow(2, k)
  {
    hide Pow;
    PowPlus(2, 32 * l, k);
    PowPow(2, 32, l);
    LimbIsPower();
  }

  lemma ValSplit(s: seq<Limb>, l: nat)
    requires l <= |s|
    ensures Val(s) == Val(s[..l]) + Pow(B, l) * Val(s[l..]) && Val(s[..l]) < Pow(B, l)
  {
    hide Val, Pow;
    assert s == s[..l] + s[l..];
    ValJoin(s[..l], s[l..]);
    ValBound(s[..l]);
  }

  lemma ValFirst(s: seq<Limb>)
    requires s != []
    ensures Val(s) == s[0] + B * Val(s[1..])
  {
  }

  /** n == lo + p * hi */
  lemma QuotientIs(n: int, p: int, hi: int, lo: int)
    requires 0 <= lo < p && n == lo + p * hi
    ensures n / p == hi && n % p == lo
  {
    var x := hi - n / p;
    assert n == p * (n / p) + n % p;
    assert p * x == n % p - lo by { assert p * (hi - n / p) == p * hi - p * (n / p); }
    if x >= 1 {
      MulOrder(1, x, p);
    } else if x <= -1 {
      MulOrder(x, -1, p);
    }
  }

  /** Dividing in two stages. */
  lemma DivDiv(n: nat, p: nat, q: nat)
    requires p > 0 && q > 0
    ensures p * q > 0 && n / (p * q) == n / p / q && n % (p * q) == n % p + p * (n / p % q)
  {
    var a, b := DivMod(n, p);
    var c, d := DivMod(a, q);
    var lo := b + p * d;
    assert a * p == (c * q + d) * p == p * q * c + p * d;
    assert 0 <= p * d <= p * q - p by { MulOrder(d, q - 1, p); MulOrder(0, d, p); }
    assert p * q > 0 by { MulOrder(1, q, p); }
    QuotientIs(n, p * q, c, lo);
  }

  lemma LimbsDropped(s: seq<Limb>, l: nat)
    requires l <= |s|
    ensures Val(s) / Pow(B, l) == Val(s[l..]) && Val(s) % Pow(B, l) == Val(s[..l])
  {
    hide Val, Pow;
    ValSplit(s, l);
    QuotientIs(Val(s), Pow(B, l), Val(s[l..]), Val(s[..l]));
  }

  /** What lies below bit 32 l + k. */
  lemma BitsBelow(s: seq<Limb>, l: nat, k: nat)
    requires l < |s| && k < 32
    ensures Val(s) % Pow(2, 32 * l + k) == Val(s[..l]) + Pow(B, l) * (s[l] % Pow(2, k))
    ensures Val(s) / Pow(2, 32 * l + k) == Val(s[l..]) / Pow(2, k)
  {
    hide Val, Pow;
    LimbsDropped(s, l);
    LimbPower(l, k);
    DivDiv(Val(s), Pow(B, l), Pow(2, k));
    LowLimb(s[l..], k);
  }

  /** Only the lowest limb matters for the bits within it. */
  lemma LowLimb(s: seq<Limb>, k: nat)
    requires s != [] && k < 32
    ensures Val(s) % Pow(2, k) == s[0] % Pow(2, k) && Val(s) / Pow(2, k) % 2 == s[0] / Pow(2, k) % 2
  {
    hide Val, Pow;
    ValFirst(s);
    HalfLimb(k);
    LowBits(s[0], Val(s[1..]), Pow(2, k), Pow(2, 31 - k));
  }

  lemma LowBits(x: nat, v: nat, p: nat, q: nat)
    requires p > 0 && 2 * (p * q) == B
    ensures (x + B * v) % p == x % p && (x + B * v) / p % 2 == x / p % 2
  {
    var a, b := DivMod(x, p);
    var w := q * v;
    Regrouped(p, q, v);
    assert p * (a + 2 * w) == a * p + p * (2 * w);
    QuotientIs(x + B * v, p, a + 2 * w, b);
  }

  lemma Regrouped(p: int, q: int, v: int)
    requires 2 * (p * q) == B
    ensures B * v == p * (2 * (q * v))
  {
    assert 2 * (p * q) * v == p * (2 * (q * v));
  }

  lemma HalfLimb(k: nat)
    requires k < 32
    ensures 2 * (Pow(2, k) * Pow(2, 31 - k)) == B
  {
    hide Pow;
    LimbSplit(k);
    PowUp(2, 31 - k);
    Doubled(Pow(2, k), Pow(2, 31 - k));
  }

  lemma Doubled(p: int, q: int)
    ensures p * (2 * q) == 2 * (p * q)
  {
  }

  /** A number that fits in the limbs below bit 32 l. */
  lemma NothingAbove(s: seq<Limb>, l: nat, k: nat)
    requires |s| <= l
    ensures Val(s) % Pow(2, 32 * l + k) == Val(s) && Val(s) / Pow(2, 32 * l + k) == 0
  {
    hide Val, Pow;
    ValBound(s);
    PowMonotone(B, |s|, l);
    LimbPower(l, k);
    MulOrder(1, Pow(2, k), Pow(B, l));
    QuotientIs(Val(s), Pow(2, 32 * l + k), 0, Val(s));
  }

  /** The decision `mpb_shr_round` takes from the bits of v at s - 1, below s - 1 and at s. */
  predicate RoundsUp(mode: Mode, half: int, below: bool, odd: int) {
    !mode.TowardZero? && half == 1 && (mode.NearestAway? || below || odd == 1)
  }

  lemma RoundByBits(mode: Mode, v: nat, s: nat)
    requires s >= 1
    ensures var up := RoundsUp(mode, v / Pow(2, s - 1) % 2, v % Pow(2, s - 1) != 0, v / Pow(2, s) % 2);
            Round(mode, v as real / Pow(2, s) as real) == v / Pow(2, s) + if up then 1 else 0
  {
    hide Pow, Round;
    var p := Pow(2, s - 1);
    assert Pow(2, s) == 2 * p by { PowUp(2, s - 1); }
    DivDiv(v, p, 2);
    var hi, t := DivMod(v, 2 * p);
    assert v as real == (hi * (2 * p)) as real + t as real;
    Rounds(mode, hi, hi * (2 * p), 2 * p, t as real);
    assert v / (p * 2) == v / (2 * p) && v % (p * 2) == v % (2 * p);
    assert t == v % p + p * (v / p % 2);
    assert v / p % 2 == 0 ==> t == v % p;
    assert v / p % 2 == 1 ==> t == v % p + p;
  }
}
