/** `mpb_t`: a number in a buffer of limbs. */
module DtoaBignum {
  import opened DtoaRounding
  import opened DtoaDivision
  import opened DtoaLimbs
  import opened DtoaBits

  /** v * 2^e */
  function Shifted(v: nat, e: int): real {
    v as real * Power(2, e)
  }

  class Bignum {
    const tab: array<Limb>
    var len: nat

    ghost predicate Valid()
      reads this
    {
      1 <= len <= tab.Length
    }

    ghost function Value(): nat
      requires Valid()
      reads this, tab
    {
      Val(tab[..len])
    }

    /** No leading zero limb. */
    ghost predicate Normal()
      requires Valid()
      reads this, tab
    {
      len == 1 || tab[len - 1] != 0
    }

    constructor (capacity: nat)
      requires capacity >= 1
      ensures Valid() && fresh(tab) && tab.Length == capacity && Value() == 0 && Normal()
    {
      tab := new Limb[capacity](_ => 0);
      len := 1;
      new;
      OneLimb(tab[..1]);
    }

    /** `mpb_renorm` */
    method Renormalise()
      requires Valid()
      modifies this`len
      ensures Valid() && Normal() && Value() == old(Value()) && len <= old(len)
    {
      hide Val, Pow;
      while len > 1 && tab[len - 1] == 0
        invariant 1 <= len <= old(len)
        invariant Val(tab[..len]) == Val(tab[..old(len)])
      {
        assert tab[..len] == tab[..len - 1] + [0];
        ValAppend(tab[..len - 1], 0);
        len := len - 1;
      }
    }

    /** `mpb_get_bit` */
    method GetBit(k: nat) returns (bit: int)
      requires Valid()
      ensures bit == Value() / Pow(2, k) % 2
    {
      hide Val, Pow;
      var l, j := k / 32, k % 32;
      if l >= len {
        NothingAbove(tab[..len], l, j);
        bit := 0;
      } else {
        BitsBelow(tab[..len], l, j);
        LowLimb(tab[..len][l..], j);
        bit := tab[l] / Pow(2, j) % 2;
      }
    }

    /** The or of all the bits below bit `k`. */
    method AnyBelow(k: nat) returns (any: bool)
      requires Valid()
      ensures any == (Value() % Pow(2, k) != 0)
    {
      hide Val, Pow;
      var l, j := k / 32, k % 32;
      any := false;
      var n := if l < len then l else len;
      EmptyIsZero();
      for i := 0 to n
        invariant any == (Val(tab[..i]) != 0)
      {
        assert tab[..i + 1] == tab[..i] + [tab[i]];
        ValAppend(tab[..i], tab[i]);
        SumIsZero(Val(tab[..i]), tab[i], Pow(B, i));
        any := any || tab[i] != 0;
      }
      if l < len {
        BitsBelow(tab[..len], l, j);
        assert tab[..len][..l] == tab[..l];
        SumIsZero(Val(tab[..l]), tab[l] % Pow(2, j), Pow(B, l));
        any := any || tab[l] % Pow(2, j) != 0;
      } else {
        NothingAbove(tab[..len], l, j);
      }
    }

    /** Whether `mpb_shr_round` adds one. */
    method AddsOne(shift: nat, mode: Mode) returns (up: bool)
      requires Valid() && shift >= 1
      ensures up == RoundsUp(mode, Value() / Pow(2, shift - 1) % 2, Value() % Pow(2, shift - 1) != 0, Value() / Pow(2, shift) % 2)
    {
      hide Val, Pow;
      if mode.TowardZero? {
        return false;
      }
      var half := GetBit(shift - 1);
      if half == 0 {
        return false;
      }
      if mode.NearestAway? {
        return true;
      }
      var below := false;
      if shift >= 2 {
        below := AnyBelow(shift - 1);
      } else {
        NoBits(Value());
      }
      if below {
        return true;
      }
      var odd := GetBit(shift);
      return odd == 1;
    }

    /** `mpb_shr_round`: round(a / 2^shift) */
    method ShiftRound(shift: int, mode: Mode)
      requires Valid() && (shift < 0 ==> len + (-shift + 31) / 32 <= tab.Length)
      modifies this, tab
      ensures Valid() && Value() == Round(mode, Shifted(old(Value()), -shift))
      ensures len <= old(len) + if shift < 0 then (-shift + 31) / 32 else 0
      ensures old(Normal() && (Value() != 0 || shift >= 0)) ==> Normal()
    {
      hide Val, Pow, Shifted, Round;
      ghost var v := Value();
      ScaledRound(mode, v, shift, if shift < 0 then -shift else shift);
      if shift < 0 {
        ShiftUp(-shift);
      } else if shift > 0 {
        ShiftDown(shift, mode);
      }
    }

    /** `mpb_shr_round` with a negative shift */
    method ShiftUp(shift: nat)
      requires Valid() && len + (shift + 31) / 32 <= tab.Length
      modifies this, tab
      ensures Valid() && Value() == old(Value()) * Pow(2, shift) && len <= old(len) + (shift + 31) / 32
      ensures old(Normal() && Value() != 0) ==> Normal()
    {
      hide Val, Pow;
      var l, j := shift / 32, shift % 32;
      ghost var v := Value();
      if j != 0 {
        ShiftBits(j);
      }
      ShiftOne();
      LimbPower(l, j);
      if l > 0 {
        NotZero(tab[..len], v, Pow(2, j));
        MoveUp(l);
        Triple(v, Pow(2, j), Pow(B, l));
      }
    }

    method ShiftBits(j: nat)
      requires Valid() && len < tab.Length && 1 <= j < 32
      modifies this, tab
      ensures Valid() && Value() == old(Value()) * Pow(2, j) && len <= old(len) + 1 && Normal()
    {
      hide Val, Pow;
      LimbSplit(j);
      var carry := ShiftLeft(tab, len, j, 0);
      ghost var low := tab[..len];
      tab[len] := carry;
      len := len + 1;
      assert tab[..len] == low + [carry];
      ValAppend(low, carry);
      Renormalise();
    }

    method MoveUp(l: nat)
      requires Valid() && len + l <= tab.Length && l > 0
      modifies this, tab
      ensures Valid() && Value() == old(Value()) * Pow(B, l) && len == old(len) + l
      ensures tab[len - 1] == old(tab[len - 1])
    {
      hide Val, Pow;
      var n := len;
      ghost var t := tab[..n];
      CopyUp(tab, n, l);
      ZeroLow(tab, n, l);
      len := n + l;
      assert tab[..len] == tab[..l] + t;
      ValJoin(tab[..l], t);
      assert tab[len - 1] == tab[l..len][n - 1];
    }

    /** `mpb_shr_round` with a positive shift */
    method ShiftDown(shift: nat, mode: Mode)
      requires Valid() && shift >= 1
      modifies this, tab
      ensures Valid() && Value() == Round(mode, old(Value()) as real / Pow(2, shift) as real) && len <= old(len)
      ensures old(Normal()) ==> Normal()
    {
      hide Val, Pow, Round, RoundsUp;
      ghost var v := Value();
      RoundByBits(mode, v, shift);
      var up := AddsOne(shift, mode);
      var l, j := shift / 32, shift % 32;
      if l >= len {
        NothingAbove(tab[..len], l, j);
        len := 1;
        tab[0] := if up then 1 else 0;
        OneLimb(tab[..1]);
      } else {
        BitsBelow(tab[..len], l, j);
        ValBound(tab[..len]);
        BigPower(len);
        HalfFits(v, shift, Pow(B, len));
        DropBits(l, j);
        if up {
          AddOne();
        }
      }
    }

    method DropBits(l: nat, j: nat)
      requires Valid() && l < len && j < 32
      modifies this, tab
      ensures Valid() && Value() == old(Val(tab[..len][l..])) / Pow(2, j) && len <= old(len) - l
      ensures old(Normal()) ==> Normal()
    {
      hide Val, Pow;
      ghost var t := tab[..len];
      if l > 0 {
        var n := len - l;
        len := n;
        for i := 0 to n
          invariant len == n && tab[..i] == t[l..l + i]
          invariant forall x | i + l <= x < n + l :: tab[x] == t[x]
        {
          ghost var low := tab[..i];
          tab[i] := tab[i + l];
          assert tab[..i + 1] == low + [t[l + i]];
        }
      }
      assert tab[..len] == t[l..];
      ShiftOne();
      if j != 0 {
        ghost var w := Value();
        var _ := ShiftRight(tab, len, j, 0);
        ZeroMod(Pow(2, j), Pow(B, len));
        QuotientIs(w, Pow(2, j), Value(), w - Value() * Pow(2, j));
        Renormalise();
      }
    }

    method AddOne()
      requires Valid() && (len < tab.Length || Value() + 1 < Pow(B, len))
      modifies this, tab
      ensures Valid() && Value() == old(Value()) + 1
      ensures len <= if old(Value()) + 1 < Pow(B, old(len)) then old(len) else old(len) + 1
      ensures old(Normal()) ==> Normal()
    {
      hide Val, Pow;
      ghost var v, n := Value(), len;
      TopLimb(tab[..len]);
      var a := AddSmall(tab, 1, len);
      CarryOut(Val(tab[..len]), a, v, Pow(B, len));
      if a != 0 {
        ghost var low := tab[..len];
        tab[len] := a;
        len := len + 1;
        assert tab[..len] == low + [a];
        ValAppend(low, a);
      } else {
        TopLimb(tab[..len]);
      }
    }
  }

  lemma Triple(v: int, p: int, q: int)
    ensures v * p * q == v * (q * p)
  {
  }

  lemma CarryOut(x: nat, a: nat, v: nat, p: nat)
    requires x + a * p == v + 1
    ensures v + 1 < p ==> a == 0
  {
    if a > 0 {
      MulOrder(1, a, p);
    }
  }

  lemma HalfFits(v: nat, shift: nat, p: nat)
    requires shift >= 1 && v < p && p >= 2
    ensures v / Pow(2, shift) + 1 < p
  {
    hide Pow;
    var q := v / Pow(2, shift);
    PowMonotone(2, 1, shift);
    ShiftTwo();
    MulOrder(2, Pow(2, shift), q);
  }

  lemma BigPower(n: nat)
    requires n >= 1
    ensures Pow(B, n) >= B
  {
    PowMonotone(B, 1, n);
    assert Pow(B, 1) == B;
  }

  lemma ShiftTwo()
    ensures Pow(2, 1) == 2
  {
  }

  lemma TopLimb(s: seq<Limb>)
    requires s != []
    ensures s[|s| - 1] != 0 <==> Val(s) >= Pow(B, |s| - 1)
    ensures Val(s) < Pow(B, |s|)
  {
    hide Val, Pow;
    var n := |s| - 1;
    assert s == s[..n] + [s[n]];
    ValAppend(s[..n], s[n]);
    ValBound(s[..n]);
    ValBound(s);
    if s[n] > 0 {
      MulOrder(1, s[n], Pow(B, n));
    }
  }

  method CopyUp(tab: array<Limb>, n: nat, l: nat)
    requires n + l <= tab.Length && l > 0
    modifies tab
    ensures tab[l..n + l] == old(tab[..n])
  {
    ghost var t := tab[..n];
    for i := n downto 0
      invariant tab[..i] == t[..i] && tab[i + l..n + l] == t[i..]
    {
      ghost var high, low := tab[i + 1 + l..n + l], tab[..i];
      assert tab[i] == t[i];
      tab[i + l] := tab[i];
      assert tab[i + l..n + l] == [t[i]] + high;
      assert tab[..i] == low;
    }
  }

  method ZeroLow(tab: array<Limb>, n: nat, l: nat)
    requires n + l <= tab.Length
    modifies tab
    ensures tab[l..n + l] == old(tab[l..n + l]) && Val(tab[..l]) == 0
  {
    hide Val, Pow;
    ghost var t := tab[l..n + l];
    assert tab[..0] == [];
    EmptyIsZero();
    for i := 0 to l
      invariant tab[l..n + l] == t && Val(tab[..i]) == 0
    {
      ghost var low := tab[..i];
      tab[i] := 0;
      assert tab[..i + 1] == low + [0];
      ValAppend(low, 0);
    }
  }

  lemma NotZero(s: seq<Limb>, v: nat, p: nat)
    requires s != [] && Val(s) == v * p && p > 0
    ensures |s| == 1 && v != 0 ==> s[0] != 0
  {
    if |s| == 1 {
      OneLimb(s);
      SumIsZero(0, v, p);
    }
  }

  lemma ScaledRound(mode: Mode, v: nat, shift: int, n: nat)
    requires n == if shift < 0 then -shift else shift
    ensures Round(mode, Shifted(v, -shift)) ==
            if shift > 0 then Round(mode, v as real / Pow(2, n) as real)
            else if shift < 0 then v * Pow(2, n)
            else v
  {
    hide Pow, Round;
    var x := Shifted(v, -shift);
    if shift > 0 {
      var p := Pow(2, n) as real;
      assert Power(2, -shift) == 1.0 / p;
      Reciprocals(v as real, p);
      assert x == v as real / p;
    } else if shift < 0 {
      var p := Pow(2, n);
      assert Power(2, -shift) == p as real;
      RealProduct(v, p);
      assert x == (v * p) as real;
      RoundWhole(mode, v * p);
    } else {
      PowerZero(2);
      assert x == v as real;
      RoundWhole(mode, v);
    }
  }

  lemma RealProduct(x: int, y: int)
    ensures (x * y) as real == x as real * y as real
  {
  }

  lemma Reciprocals(x: real, p: real)
    requires p > 0.0
    ensures x * (1.0 / p) == x / p
  {
  }

  lemma EmptyIsZero()
    ensures Val([]) == 0
  {
  }

  lemma OneLimb(s: seq<Limb>)
    requires |s| == 1
    ensures Val(s) == s[0]
  {
    assert Val(s[1..]) == 0;
  }

  lemma SumIsZero(v: nat, x: nat, p: nat)
    requires p > 0
    ensures v + x * p == 0 <==> v == 0 && x == 0
    ensures v + p * x == 0 <==> v == 0 && x == 0
  {
    if x > 0 {
      MulOrder(1, x, p);
    }
  }

  lemma NoBits(v: nat)
    ensures v % Pow(2, 0) == 0
  {
  }

  lemma ZeroMod(p: nat, q: nat)
    requires p > 0
    ensures 0 % p * q == 0
  {
  }
}
