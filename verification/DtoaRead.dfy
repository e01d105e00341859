/** The digit loop of `js_atod`, and the round trip with `output_digits`. */
module DtoaRead {
  import opened DtoaRounding
  import opened DtoaDivision
  import opened DtoaLimbs
  import opened DtoaBits
  import opened DtoaBignum
  import opened DtoaScaling
  import opened DtoaText

  /** The digits that are read exactly (`atod_max_digits_table`). */
  const READ_DIGITS: seq<nat> :=
    [64, 80, 32, 55, 49, 45, 21, 40, 38, 37, 35, 34, 33, 32, 16, 31, 30, 30, 29, 29, 28, 28, 27, 27, 27, 26, 26,
     26, 26, 25, 12, 25, 25, 24, 24]

  function ReadDigits(radix: nat): nat
    requires 2 <= radix <= 36
  {
    READ_DIGITS[radix - 2]
  }

  /** `mpb_mul1_base`: r * base + x, where 0 stands for 2^32 */
  method MulAdd(r: Bignum, base: Limb, x: Limb)
    requires r.Valid() && r.Normal() && r.len + 2 <= r.tab.Length
    modifies r, r.tab
    ensures r.Valid() && r.Normal() && r.len <= old(r.len) + 1
    ensures r.Value() == old(r.Value()) * (if base == 0 then B else base) + x
  {
    hide Val, Pow;
    ghost var s := r.tab[..r.len];
    if r.tab[0] == 0 && r.len == 1 {
      r.tab[0] := x;
      OneLimb(s);
      OneLimb(r.tab[..1]);
    } else {
      var n := r.len;
      if base == 0 {
        ShiftIn(r.tab, n, x);
        ValFirst(r.tab[..n + 1]);
        assert r.tab[..n + 1][1..] == s;
      } else {
        var carry := MulSmall(r.tab, n, base, x);
        ghost var low := r.tab[..n];
        r.tab[n] := carry;
        assert r.tab[..n + 1] == low + [carry];
        ValAppend(low, carry);
      }
      r.len := n + 1;
      r.Renormalise();
    }
  }

  /** The loop that makes room below the lowest limb. */
  method ShiftIn(tab: array<Limb>, n: nat, x: Limb)
    requires n + 2 <= tab.Length
    modifies tab
    ensures tab[..n + 1] == [x] + old(tab[..n])
  {
    ghost var t := tab[..n + 1];
    for i := n + 1 downto 0
      invariant forall j | 0 <= j < i :: tab[j] == t[j]
      invariant forall j | i < j <= n + 1 :: tab[j] == t[j - 1]
    {
      tab[i + 1] := tab[i];
    }
    tab[0] := x;
  }

  /** v and the digits still held in one limb stand for the digits s. */
  ghost predicate Reading(v: nat, cur: nat, held: nat, radix: nat, s: string)
    requires 2 <= radix <= 36
  {
    && AreDigits(s, radix) && held == |s| % DigitsPerLimb(radix) && cur < Pow(radix, held)
    && Number(s, radix) == v * Pow(radix, held) + cur
  }

  /** One more digit: it joins the limb, and a full limb joins the number. */
  method Feed(a: Bignum, cur: nat, held: nat, radix: nat, c: char, ghost s: string) returns (cur': nat, held': nat)
    requires 2 <= radix <= 36 && ToDigit(c) < radix && a.Valid() && a.Normal() && Reading(a.Value(), cur, held, radix, s)
    requires a.len <= 1 + |s| / DigitsPerLimb(radix) && |s| / DigitsPerLimb(radix) + 3 <= a.tab.Length
    modifies a, a.tab
    ensures a.Valid() && a.Normal() && a.len <= 1 + |s + [c]| / DigitsPerLimb(radix)
    ensures Reading(a.Value(), cur', held', radix, s + [c])
  {
    hide Pow, Val, Number, DigitsPerLimb, RadixBase, ToDigit;
    var d := DigitsPerLimb(radix);
    cur' := cur * radix + ToDigit(c);
    held' := held + 1;
    OneMoreDigit(a.Value(), cur, held, radix, c, s, cur');
    if held' == d {
      RadixBaseIs(radix);
      MulAdd(a, RadixBase(radix), cur');
      cur' := 0;
      held' := 0;
      PowStart(radix);
    }
  }

  lemma OneMoreDigit(v: nat, cur: nat, held: nat, radix: nat, c: char, s: string, cur': nat)
    requires 2 <= radix <= 36 && ToDigit(c) < radix && Reading(v, cur, held, radix, s) && cur' == cur * radix + ToDigit(c)
    ensures cur' < Pow(radix, held + 1) <= B && AreDigits(s + [c], radix)
    ensures Number(s + [c], radix) == v * Pow(radix, held + 1) + cur'
    ensures var d := DigitsPerLimb(radix);
            if held + 1 == d then |s + [c]| % d == 0 && |s + [c]| / d == |s| / d + 1
            else |s + [c]| % d == held + 1 && |s + [c]| / d == |s| / d
  {
    hide Pow, Number, DigitsPerLimb, RadixBase, ToDigit;
    var p := Pow(radix, held);
    assert (s + [c])[..|s|] == s;
    NumberLast(s + [c], radix);
    PowUp(radix, held);
    MulOrder(cur + 1, p, radix);
    Extended(v, p, cur, radix);
    LimbFits(radix, held + 1);
    NextCount(|s|, DigitsPerLimb(radix));
  }

  lemma LimbFits(radix: nat, n: nat)
    requires 2 <= radix <= 36 && n <= DigitsPerLimb(radix)
    ensures Pow(radix, n) <= B
  {
    hide Pow, DigitsPerLimb, RadixBase;
    RadixBaseIs(radix);
    PowMonotone(radix, n, DigitsPerLimb(radix));
  }

  lemma NextCount(n: nat, d: nat)
    requires d > 0
    ensures if n % d + 1 == d then (n + 1) % d == 0 && (n + 1) / d == n / d + 1
            else (n + 1) % d == n % d + 1 && (n + 1) / d == n / d
  {
    var q, r := DivMod(n, d);
    if r + 1 == d {
      assert d * (q + 1) == q * d + d;
      QuotientIs(n + 1, d, q + 1, 0);
    } else {
      QuotientIs(n + 1, d, q, r + 1);
    }
  }

  lemma Extended(v: int, p: int, cur: int, radix: int)
    ensures (v * p + cur) * radix == v * (radix * p) + cur * radix
  {
    assert v * p * radix == v * (radix * p);
  }

  /** What is left in the limb joins the number. */
  method Flush(a: Bignum, cur: nat, held: nat, radix: nat, ghost s: string)
    requires 2 <= radix <= 36 && a.Valid() && a.Normal() && Reading(a.Value(), cur, held, radix, s) && a.len + 2 <= a.tab.Length
    modifies a, a.tab
    ensures a.Valid() && a.Normal() && a.Value() == Number(s, radix) && a.len <= old(a.len) + 1
  {
    hide Pow, Val, Number, DigitsPerLimb, RadixBase;
    PowStart(radix);
    if held != 0 {
      RadixBaseIs(radix);
      PartialLimb(radix, held);
      var base := PowSmall(radix, held);
      MulAdd(a, base, cur);
    }
  }

  lemma PartialLimb(radix: nat, held: nat)
    requires 2 <= radix <= 36 && held < DigitsPerLimb(radix)
    ensures 0 < Pow(radix, held) < B
  {
    hide Pow, DigitsPerLimb;
    RadixBaseIs(radix);
    PowUp(radix, held);
    PowMonotone(radix, held + 1, DigitsPerLimb(radix));
    MulOrder(2, radix, Pow(radix, held));
  }

  /** Any digit other than zero. */
  predicate SomeNonZero(s: string) {
    exists i | 0 <= i < |s| :: ToDigit(s[i]) != 0
  }

  function Min(x: nat, y: nat): nat {
    if x < y then x else y
  }

  /** The first `count` digits of s have entered the number and the limb; `extra` tells whether any of
      the others is not zero. */
  ghost predicate Taken(v: nat, len: nat, cur: nat, held: nat, count: nat, extra: bool, radix: nat, most: nat, s: string)
    requires 2 <= radix <= 36
  {
    && count == Min(|s|, most) && Reading(v, cur, held, radix, s[..count])
    && len <= 1 + count / DigitsPerLimb(radix) && extra == SomeNonZero(s[count..])
  }

  /** The body of the loop over the significant digits: at most `most` of them enter the number, the
      others only tell whether they are all zero. */
  method Take(a: Bignum, cur: nat, held: nat, count: nat, extra: bool, radix: nat, most: nat, c: char, ghost s: string)
    returns (cur': nat, held': nat, count': nat, extra': bool)
    requires 2 <= radix <= 36 && ToDigit(c) < radix && a.Valid() && a.Normal()
    requires Taken(a.Value(), a.len, cur, held, count, extra, radix, most, s) && most / DigitsPerLimb(radix) + 3 <= a.tab.Length
    modifies a, a.tab
    ensures a.Valid() && a.Normal() && Taken(a.Value(), a.len, cur', held', count', extra', radix, most, s + [c])
  {
    hide Pow, Val, Number, DigitsPerLimb, ToDigit, Reading, SomeNonZero;
    cur', held', count', extra' := cur, held, count, extra;
    if count < most {
      assert s[..count] == s && (s + [c])[..count + 1] == s + [c] && s[count..] == [] == (s + [c])[count + 1..];
      FewerLimbs(count, most, DigitsPerLimb(radix));
      cur', held' := Feed(a, cur, held, radix, c, s);
      count' := count + 1;
    } else {
      assert (s + [c])[..count] == s[..count] && (s + [c])[count..] == s[count..] + [c];
      OneMoreExtra(s[count..], c);
      extra' := extra || ToDigit(c) != 0;
    }
  }

  /** Before the first digit. */
  lemma NothingTaken(radix: nat, most: nat)
    requires 2 <= radix <= 36
    ensures Taken(0, 1, 0, 0, 0, false, radix, most, [])
  {
    hide Reading, SomeNonZero;
    NothingRead(radix);
  }

  lemma FewerLimbs(x: nat, y: nat, d: nat)
    requires x <= y && d > 0
    ensures x / d <= y / d
  {
    var a, b := DivMod(x, d);
    var p, q := DivMod(y, d);
    if a > p {
      MulOrder(p + 1, a, d);
    }
  }

  lemma OneMoreExtra(s: string, c: char)
    ensures SomeNonZero(s + [c]) == (SomeNonZero(s) || ToDigit(c) != 0)
  {
    var t := s + [c];
    if SomeNonZero(s) {
      var i :| 0 <= i < |s| && ToDigit(s[i]) != 0;
      assert t[i] == s[i];
    }
    if SomeNonZero(t) {
      var i :| 0 <= i < |t| && ToDigit(t[i]) != 0;
      assert i < |s| ==> s[i] == t[i];
    }
    assert t[|s|] == c;
  }

  lemma NothingRead(radix: nat)
    requires 2 <= radix <= 36
    ensures Reading(0, 0, 0, radix, []) && !SomeNonZero([])
  {
  }

  /** After the last digit: the number holds the first `most` digits. */
  method Finish(a: Bignum, cur: nat, held: nat, ghost count: nat, ghost extra: bool, radix: nat, ghost most: nat, ghost s: string)
    requires 2 <= radix <= 36 && a.Valid() && a.Normal()
    requires Taken(a.Value(), a.len, cur, held, count, extra, radix, most, s) && most / DigitsPerLimb(radix) + 3 <= a.tab.Length
    modifies a, a.tab
    ensures a.Valid() && a.Normal() && a.Value() == Number(s[..count], radix) && a.len <= most / DigitsPerLimb(radix) + 2
  {
    hide Pow, Val, Number, DigitsPerLimb, ToDigit, Reading, SomeNonZero;
    FewerLimbs(count, most, DigitsPerLimb(radix));
    Flush(a, cur, held, radix, s[..count]);
  }

  /** Reading the digits that were printed gives the number back. */
  lemma PrintedReads(v: nat, radix: nat, n: nat)
    requires 2 <= radix <= 36 && v < Pow(radix, n) && n <= ReadDigits(radix)
    ensures var s := Text(v, radix, n);
            AreDigits(s, radix) && Min(|s|, ReadDigits(radix)) == n && Number(s[..n], radix) == v && !SomeNonZero(s[n..])
  {
    hide Pow, Number, Text;
    var s := Text(v, radix, n);
    TextRoundTrip(v, radix, n);
    QuotientIs(v, Pow(radix, n), 0, v);
    assert s[..n] == s && s[n..] == [];
  }
}
