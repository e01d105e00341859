/** Arithmetic in place on little-endian arrays of limbs. */
module DtoaLimbs {
  import opened DtoaRounding
  import opened DtoaDivision

  /** The number that limbs represent. */
  function Val(s: seq<Limb>): nat {
    if s == [] then 0 else s[0] + B * Val(s[1..])
  }

  lemma {:induction false} ValAppend(s: seq<Limb>, x: Limb)
    ensures Val(s + [x]) == Val(s) + x * Pow(B, |s|)
  {
    if s == [] {
      assert s + [x] == [x];
    } else {
      assert (s + [x])[1..] == s[1..] + [x];
      ValAppend(s[1..], x);
      var p := Pow(B, |s| - 1);
      assert B * (x * p) == x * (B * p);
    }
  }

  lemma {:induction false} ValBound(s: seq<Limb>)
    ensures Val(s) < Pow(B, |s|)
  {
    if s != [] {
      ValBound(s[1..]);
    }
  }

  lemma {:induction false} ValJoin(s: seq<Limb>, t: seq<Limb>)
    ensures Val(s + t) == Val(s) + Pow(B, |s|) * Val(t)
  {
    if s == [] {
      assert s + t == t;
    } else {
      assert (s + t)[1..] == s[1..] + t;
      ValJoin(s[1..], t);
      Regroup(B, Pow(B, |s| - 1), Val(t));
    }
  }

  // ----- one limb at a time -----

  /** From the low end: y * m plus the carry k gives the limb x and the carry k'. */
  ghost predicate Ascending(low: seq<Limb>, k: int, was: seq<Limb>, m: int, start: int) {
    |low| == |was| && Val(low) + k * Pow(B, |low|) == Val(was) * m + start
  }

  lemma Ascend(low: seq<Limb>, k: int, was: seq<Limb>, m: int, start: int, x: Limb, k': int, y: Limb)
    requires Ascending(low, k, was, m, start) && x + B * k' == y * m + k
    ensures Ascending(low + [x], k', was + [y], m, start)
  {
    hide Val;
    var p := Pow(B, |low|);
    ValAppend(low, x);
    ValAppend(was, y);
    assert Pow(B, |low + [x]|) == B * p;
    CarryUp(p, x, y * m, k, k');
    Distribute(Val(was), y, p, m);
  }

  lemma CarryUp(p: int, x: int, y: int, k: int, k': int)
    requires x + B * k' == y + k
    ensures x * p + k' * (B * p) == y * p + k * p
  {
    assert (x + B * k') * p == x * p + k' * (B * p);
    assert (y + k) * p == y * p + k * p;
  }

  lemma Distribute(v: int, y: int, p: int, m: int)
    ensures (v + y * p) * m == v * m + y * m * p
  {
  }

  /** From the high end: the remainder r and the limb y, divided by d, give the limb x and the
      remainder r'. */
  ghost predicate Descending(high: seq<Limb>, r: int, was: seq<Limb>, d: int, start: int) {
    |high| == |was| && Val(high) * d + r == start * Pow(B, |was|) + Val(was)
  }

  lemma Descend(high: seq<Limb>, r: int, was: seq<Limb>, d: int, start: int, x: Limb, r': int, y: Limb)
    requires Descending(high, r, was, d, start) && r * B + y == x * d + r'
    ensures Descending([x] + high, r', [y] + was, d, start)
  {
    assert ([x] + high)[1..] == high && ([y] + was)[1..] == was;
    CarryDown(Val(high), Val(was), Pow(B, |was|), r, d, start, x, r', y);
  }

  lemma CarryDown(v: int, w: int, p: int, r: int, d: int, start: int, x: int, r': int, y: int)
    requires v * d + r == start * p + w && r * B + y == x * d + r'
    ensures (x + B * v) * d + r' == start * (B * p) + (y + B * w)
  {
    assert (x + B * v) * d == x * d + B * (v * d);
    assert start * (B * p) == B * (start * p);
  }

  // ----- the loops -----

  /** `mp_add_ui` */
  method AddSmall(tab: array<Limb>, b: Limb, n: nat) returns (k: Limb)
    requires n <= tab.Length
    modifies tab
    ensures Val(tab[..n]) + k * Pow(B, n) == Val(old(tab[..n])) + b
    ensures tab[n..] == old(tab[n..])
  {
    hide Ascending, Val;
    k := b;
    ghost var t := old(tab[..]);
    var i := 0;
    AscendStart(b, 1);
    while i < n && k != 0
      invariant i <= n && tab[i..] == t[i..]
      invariant Ascending(tab[..i], k, t[..i], 1, b)
    {
      ghost var low, k0 := tab[..i], k;
      var a := (tab[i] + k) % B;
      k := if a < k then 1 else 0;
      Ascend(low, k0, t[..i], 1, b, a, k, t[i]);
      tab[i] := a;
      assert tab[..i + 1] == low + [a] && t[..i + 1] == t[..i] + [t[i]];
      i := i + 1;
    }
    assert t[..n] == old(tab[..n]);
    AscendEnd(tab[..i], k, t[..i], 1, b);
    if k == 0 {
      assert tab[..n] == tab[..i] + t[i..n] && t[..n] == t[..i] + t[i..n];
      ValJoin(tab[..i], t[i..n]);
      ValJoin(t[..i], t[i..n]);
    }
  }

  lemma AscendStart(start: int, m: int)
    ensures Ascending([], start, [], m, start)
  {
  }

  lemma AscendEnd(low: seq<Limb>, k: int, was: seq<Limb>, m: int, start: int)
    requires Ascending(low, k, was, m, start)
    ensures Val(low) + k * Pow(B, |low|) == Val(was) * m + start
  {
  }

  /** `mp_mul1`, in place */
  method MulSmall(tab: array<Limb>, n: nat, b: Limb, l: Limb) returns (carry: Limb)
    requires n <= tab.Length
    modifies tab
    ensures Val(tab[..n]) + carry * Pow(B, n) == Val(old(tab[..n])) * b + l
    ensures tab[n..] == old(tab[n..])
  {
    hide Ascending, Val;
    carry := l;
    ghost var t := old(tab[..]);
    AscendStart(l, b);
    for i := 0 to n
      invariant tab[i..] == t[i..]
      invariant Ascending(tab[..i], carry, t[..i], b, l)
    {
      ghost var low, k := tab[..i], carry;
      var x := tab[i] * b + carry;
      ProductFits(tab[i], b, carry);
      tab[i] := x % B;
      carry := x / B;
      Ascend(low, k, t[..i], b, l, x % B, carry, t[i]);
      assert tab[..i + 1] == low + [x % B] && t[..i + 1] == t[..i] + [t[i]];
    }
    assert t[..n] == old(tab[..n]);
    AscendEnd(tab[..n], carry, t[..n], b, l);
  }

  lemma ProductFits(x: Limb, y: Limb, z: Limb)
    ensures 0 <= (x * y + z) / B < B
  {
    var p := x * y;
    MulOrder(x, B - 1, y);
    MulOrder(0, x, y);
    assert 0 <= p <= (B - 1) * (B - 1);
  }

  /** `mp_shl`, in place; disjoint bits are or-ed by adding. */
  method ShiftLeft(tab: array<Limb>, n: nat, shift: nat, low: Limb) returns (carry: Limb)
    requires n <= tab.Length && 1 <= shift < 32 && low < Pow(2, shift)
    modifies tab
    ensures Val(tab[..n]) + carry * Pow(B, n) == Val(old(tab[..n])) * Pow(2, shift) + low
    ensures tab[n..] == old(tab[n..]) && carry < Pow(2, shift)
  {
    hide Ascending, Val, Pow;
    carry := low;
    ghost var t := old(tab[..]);
    var p, q := Pow(2, shift), Pow(2, 32 - shift);
    LimbSplit(shift);
    AscendStart(low, p);
    for i := 0 to n
      invariant tab[i..] == t[i..] && carry < p
      invariant Ascending(tab[..i], carry, t[..i], p, low)
    {
      ghost var done, k := tab[..i], carry;
      var a := tab[i];
      ShiftedLimb(a, p, q, carry);
      var x: Limb := a * p % B + carry;
      tab[i] := x;
      carry := a / q;
      Ascend(done, k, t[..i], p, low, x, carry, a);
      assert tab[..i + 1] == done + [x] && t[..i + 1] == t[..i] + [a];
    }
    assert t[..n] == old(tab[..n]);
    AscendEnd(tab[..n], carry, t[..n], p, low);
  }

  lemma LimbSplit(shift: nat)
    requires shift <= 32
    ensures Pow(2, shift) * Pow(2, 32 - shift) == B && Pow(2, shift) > 0 && Pow(2, 32 - shift) > 0
  {
    hide Pow;
    PowPlus(2, shift, 32 - shift);
    LimbIsPower();
  }

  lemma LimbIsPower()
    ensures Pow(2, 32) == B
  {
    assert Pow(2, 8) == 256;
    PowPlus(2, 8, 8);
    PowPlus(2, 16, 16);
  }

  /** a << shift loses the top bits, a >> (32 - shift), and leaves room for the carry. */
  lemma ShiftedLimb(a: Limb, p: nat, q: nat, carry: int)
    requires p > 0 && q > 0 && p * q == B && 0 <= carry < p
    ensures 0 <= a / q < p && 0 <= a * p % B + carry < B && a * p % B + carry + B * (a / q) == a * p + carry
  {
    var hi, lo := a / q, a % q;
    assert a == hi * q + lo;
    assert a * p == hi * B + lo * p by {
      Shuffle(hi, q, p);
      assert (hi * q + lo) * p == hi * q * p + lo * p;
    }
    assert 0 <= lo * p <= B - p by { MulOrder(lo, q - 1, p); }
    assert a * p % B == lo * p;
    assert hi < p by { if hi >= p { MulOrder(p, hi, q); } }
  }

  lemma Shuffle(hi: int, q: int, p: int)
    requires p * q == B
    ensures hi * q * p == hi * B
  {
    assert hi * q * p == hi * (p * q);
  }

  /** `mp_shr`, in place; bits of `high` above the shift are lost. */
  method ShiftRight(tab: array<Limb>, n: nat, shift: nat, high: Limb) returns (rem: Limb)
    requires n <= tab.Length && 1 <= shift < 32
    modifies tab
    ensures Val(tab[..n]) * Pow(2, shift) + rem == high % Pow(2, shift) * Pow(B, n) + Val(old(tab[..n]))
    ensures tab[n..] == old(tab[n..]) && rem < Pow(2, shift)
  {
    hide Descending, Val, Pow;
    ghost var t := old(tab[..]);
    var p, q := Pow(2, shift), Pow(2, 32 - shift);
    LimbSplit(shift);
    var l: Limb := high;
    ghost var h := high % p;
    var i := n;
    assert tab[n..n] == [] && t[n..n] == [];
    DescendStart(p, h);
    while i > 0
      invariant 0 <= i <= n && tab[..i] == t[..i] && tab[n..] == t[n..]
      invariant Descending(tab[i..n], l % p, t[i..n], p, h)
    {
      i := i - 1;
      ghost var done, r := tab[i + 1..n], l % p;
      var a := tab[i];
      MergedLimb(a, l, p, q);
      var x: Limb := a / p + l * q % B;
      tab[i] := x;
      l := a;
      Descend(done, r, t[i + 1..n], p, h, x, a % p, a);
      assert tab[i..n] == [x] + done && t[i..n] == [a] + t[i + 1..n];
    }
    rem := l % p;
    assert t[..n] == old(tab[..n]) && tab[0..n] == tab[..n] && t[0..n] == t[..n];
    DescendEnd(tab[..n], rem, t[..n], p, h);
  }

  lemma DescendStart(d: int, start: int)
    ensures Descending([], start, [], d, start)
  {
  }

  lemma DescendEnd(high: seq<Limb>, r: int, was: seq<Limb>, d: int, start: int)
    requires Descending(high, r, was, d, start)
    ensures Val(high) * d + r == start * Pow(B, |was|) + Val(was)
  {
  }

  /** (a >> shift) | (l << (32 - shift)) */
  lemma MergedLimb(a: Limb, l: Limb, p: nat, q: nat)
    requires p > 0 && q > 0 && p * q == B
    ensures 0 <= a / p + l * q % B < B && l % p * B + a == (a / p + l * q % B) * p + a % p
  {
    var hi, lo := DivMod(l, p);
    var x, y := DivMod(a, p);
    LowBitsUp(l, hi, lo, p, q);
    assert x < q by { if x >= q { MulOrder(q, x, p); } }
    Shuffle(lo, q, p);
    assert (x + lo * q) * p == x * p + lo * q * p;
  }

  lemma LowBitsUp(l: Limb, hi: int, lo: int, p: nat, q: nat)
    requires p > 0 && q > 0 && p * q == B && l == hi * p + lo && 0 <= lo < p
    ensures l * q % B == lo * q && 0 <= lo * q <= B - q
  {
    Shuffle(hi, p, q);
    assert (hi * p + lo) * q == hi * p * q + lo * q;
    MulOrder(lo, p - 1, q);
    MulOrder(0, lo, q);
    var y := lo * q;
    assert (hi * B + y) % B == y;
  }

  /** `mp_div1`, in place: plain long division */
  method DivSmall(tab: array<Limb>, n: nat, b: Limb, r: Limb) returns (rem: Limb)
    requires n <= tab.Length && r < b
    modifies tab
    ensures Val(tab[..n]) * b + rem == r * Pow(B, n) + Val(old(tab[..n])) && rem < b
    ensures tab[n..] == old(tab[n..])
  {
    hide Descending, Val, Pow;
    ghost var t := old(tab[..]);
    rem := r;
    var i := n;
    assert tab[n..n] == [] && t[n..n] == [];
    DescendStart(b, r);
    while i > 0
      invariant 0 <= i <= n && tab[..i] == t[..i] && tab[n..] == t[n..] && rem < b
      invariant Descending(tab[i..n], rem, t[i..n], b, r)
    {
      i := i - 1;
      ghost var done, k := tab[i + 1..n], rem;
      var a := rem * B + tab[i];
      QuotientFits(rem, tab[i], b, a);
      tab[i] := a / b;
      rem := a % b;
      Descend(done, k, t[i + 1..n], b, r, a / b, rem, t[i]);
      assert tab[i..n] == [a / b] + done && t[i..n] == [t[i]] + t[i + 1..n];
    }
    assert t[..n] == old(tab[..n]) && tab[0..n] == tab[..n] && t[0..n] == t[..n];
    DescendEnd(tab[..n], rem, t[..n], b, r);
  }

  lemma QuotientFits(r: Limb, x: Limb, b: Limb, a: int)
    requires r < b && a == r * B + x
    ensures 0 <= a / b < B && a == a / b * b + a % b
  {
    var q := a / b;
    if q >= B {
      MulOrder(B, q, b);
    }
  }

  /** `mp_div1norm`, in place: division by b >> shift through the reciprocal of b */
  method DivNormalised(tab: array<Limb>, n: nat, b: Limb, r: Limb, inv: Limb, shift: nat, ghost d: Limb) returns (rem: Limb)
    requires n <= tab.Length && shift < 32 && b >= HALF && inv == Reciprocal(b) && b == d * Pow(2, shift) && r < d
    modifies tab
    ensures Val(tab[..n]) * d + rem == r * Pow(B, n) + Val(old(tab[..n])) && rem < d
    ensures tab[n..] == old(tab[n..])
  {
    hide Descending, Val, Pow, Reciprocal;
    rem := r;
    ghost var was := old(tab[..]);
    ghost var p := Pow(2, shift);
    ShiftOne();
    if shift != 0 {
      LimbSplit(shift);
      var carry := ShiftLeft(tab, n, shift, 0);
      Widened(r, d, p, b, carry);
      rem := r * Pow(2, shift) % B + carry;
    }
    ghost var start, t := rem, tab[..];
    assert Val(t[..n]) + start * Pow(B, n) == (Val(was[..n]) + r * Pow(B, n)) * p by {
      assert t[..n] == tab[..n] && was[..n] == old(tab[..n]);
      WidenedSum(r, p, Pow(B, n), Val(was[..n]), start, Val(t[..n]), shift);
    }
    var i := n;
    assert tab[n..n] == [] && t[n..n] == [];
    DescendStart(b, start);
    while i > 0
      invariant 0 <= i <= n && tab[..i] == t[..i] && tab[n..] == t[n..] && rem < b
      invariant Descending(tab[i..n], rem, t[i..n], b, start)
    {
      i := i - 1;
      ghost var done, k := tab[i + 1..n], rem;
      var qr := DivideTwo(rem, tab[i], b, inv);
      tab[i] := qr.0;
      rem := qr.1;
      Descend(done, k, t[i + 1..n], b, start, qr.0, rem, t[i]);
      assert tab[i..n] == [qr.0] + done && t[i..n] == [t[i]] + t[i + 1..n];
    }
    assert tab[0..n] == tab[..n] && t[0..n] == t[..n] && was[..n] == old(tab[..n]);
    DescendEnd(tab[..n], rem, t[..n], b, start);
    Unscaled(Val(tab[..n]), d, p, b, rem, r * Pow(B, n) + Val(was[..n]));
    rem := rem / Pow(2, shift);
  }

  lemma ShiftOne()
    ensures Pow(2, 0) == 1
  {
  }

  lemma Widened(r: int, d: int, p: int, b: Limb, carry: int)
    requires 0 <= r < d && 0 <= carry < p && b == d * p
    ensures 0 <= r * p < B && r * p % B + carry == r * p + carry < b
  {
    MulOrder(r + 1, d, p);
    assert (r + 1) * p == r * p + p;
    MulOrder(0, r, p);
  }

  lemma WidenedSum(r: int, p: int, q: int, v: int, start: int, w: int, shift: nat)
    requires if shift == 0 then p == 1 && start == r && w == v
             else exists carry :: start == r * p + carry && w + carry * q == v * p
    ensures w + start * q == (v + r * q) * p
  {
    if shift != 0 {
      var carry :| start == r * p + carry && w + carry * q == v * p;
      assert (r * p + carry) * q == r * q * p + carry * q;
      assert (v + r * q) * p == v * p + r * q * p;
    }
  }

  lemma Unscaled(v: int, d: int, p: int, b: int, rem: int, n: int)
    requires p > 0 && b == d * p && 0 <= rem < b && v * b + rem == n * p
    ensures v * d + rem / p == n && 0 <= rem / p < d
  {
    var k := n - v * d;
    Rescaled(v, d, p, n, k);
    ExactDiv(rem, k, p);
    if k >= d {
      MulOrder(d, k, p);
    } else if k < 0 {
      MulOrder(k, -1, p);
    }
  }

  lemma Rescaled(v: int, d: int, p: int, n: int, k: int)
    requires k == n - v * d
    ensures k * p == n * p - v * (d * p)
  {
    assert v * (d * p) == v * d * p;
  }

  lemma ExactDiv(n: int, k: int, p: int)
    requires p > 0 && n == k * p
    ensures n / p == k
  {
    var q, r := n / p, n % p;
    assert n == p * q + r;
    if q < k {
      MulOrder(q + 1, k, p);
    } else if q > k {
      MulOrder(k + 1, q, p);
    }
  }
}
