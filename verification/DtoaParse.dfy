/** `js_atod` on the numerals of a radix: digits, perhaps a point, perhaps an exponent. */
module DtoaParse {
  import opened Options
  import opened DtoaRounding
  import opened DtoaDivision
  import opened DtoaLimbs
  import opened DtoaBignum
  import opened DtoaScaling
  import opened DtoaText
  import opened DtoaRead
  import opened DtoaIntegers

  /** The character at p, or the zero byte behind the text. */
  function At(s: string, p: nat): char {
    if p < |s| then s[p] else '\0'
  }

  /** Digits with a point before position dot, if there is one; the point may also stand at the end. */
  function Body(ds: string, dot: Option<nat>): (t: string)
    requires dot.Some? ==> dot.value <= |ds|
    ensures |t| == |ds| + if dot.Some? then 1 else 0
  {
    if dot.None? then ds else ds[..dot.value] + ['.'] + ds[dot.value..]
  }

  /** What the parser meets after j digits, the point having been passed or not. */
  ghost predicate Placed(s: string, p0: nat, ds: string, dot: Option<nat>, tail: string) {
    && (dot.Some? ==> dot.value <= |ds|)
    && p0 <= |s| && s[p0..] == Body(ds, dot) + tail
  }

  lemma CharAt(s: string, p0: nat, ds: string, dot: Option<nat>, tail: string, j: nat, passed: bool)
    requires Placed(s, p0, ds, dot, tail) && j <= |ds| && (passed ==> dot.Some? && dot.value <= j)
    requires dot.Some? && dot.value < j ==> passed
    ensures var p := p0 + j + if passed then 1 else 0;
            At(s, p) == if dot == Some(j) && !passed then '.' else if j < |ds| then ds[j] else At(tail, 0)
  {
    var p, t := p0 + j + if passed then 1 else 0, Body(ds, dot) + tail;
    assert |s| == p0 + |t|;
    if p < |s| {
      assert s[p] == s[p0..][p - p0] == t[p - p0];
    }
  }

  /** How many zeros the digits start with. */
  function Zeros(ds: string): (z: nat)
    ensures z <= |ds| && (forall i | 0 <= i < z :: ds[i] == '0') && (z < |ds| ==> ds[z] != '0')
  {
    if ds != [] && ds[0] == '0' then 1 + Zeros(ds[1..]) else 0
  }

  lemma ZerosAre(ds: string, z: nat)
    requires z <= |ds| && (forall i | 0 <= i < z :: ds[i] == '0') && (z < |ds| ==> ds[z] != '0')
    ensures Zeros(ds) == z
  {
    var y := Zeros(ds);
  }

  /** The rest of the text does not go on with digits or a point. */
  predicate Stops(tail: string, radix: nat) {
    ToDigit(At(tail, 0)) >= radix && At(tail, 0) != '.'
  }

  /** Skips leading zeros, and the point if it comes first. */
  method SkipZeros(s: string, p0: nat, radix: nat, ghost ds: string, ghost dot: Option<nat>, ghost tail: string)
    returns (p: nat, pos: nat, dotPos: int)
    requires 2 <= radix <= 36 && Placed(s, p0, ds, dot, tail) && AreDigits(ds, radix) && ds != [] && Stops(tail, radix)
    ensures pos == Zeros(ds) && Passed(p, pos, dotPos, p0, ds, dot)
    ensures dot == Some(pos) ==> dotPos >= 0
  {
    hide Placed, Zeros, ToDigit, Passed;
    p, pos, dotPos := p0, 0, -1;
    NotPassed(p0, ds, dot);
    while true
      invariant pos <= |ds| && Passed(p, pos, dotPos, p0, ds, dot) && forall i | 0 <= i < pos :: ds[i] == '0'
      decreases |ds| - pos
    {
      var stop;
      p, dotPos, stop := PassPoint(s, p, pos, dotPos, p0, radix, ds, dot, tail);
      DigitIsNoPoint(ds, radix, pos, tail);
      if stop || At(s, p) != '0' {
        break;
      }
      PassedDigit(p, pos, dotPos, p0, ds, dot);
      p := p + 1;
      pos := pos + 1;
    }
    ZerosAre(ds, pos);
  }

  lemma NotPassed(p0: nat, ds: string, dot: Option<nat>)
    ensures Passed(p0, 0, -1, p0, ds, dot)
  {
  }

  lemma PassedDigit(p: nat, pos: nat, dotPos: int, p0: nat, ds: string, dot: Option<nat>)
    requires Passed(p, pos, dotPos, p0, ds, dot) && pos < |ds| && (dot == Some(pos) ==> dotPos >= 0)
    ensures Passed(p + 1, pos + 1, dotPos, p0, ds, dot)
  {
  }

  /** Passes the point, if it is here. */
  method PassPoint(s: string, p: nat, pos: nat, dotPos: int, p0: nat, radix: nat, ghost ds: string, ghost dot: Option<nat>,
                   ghost tail: string) returns (p': nat, dotPos': int, stop: bool)
    requires 2 <= radix <= 36 && Placed(s, p0, ds, dot, tail) && AreDigits(ds, radix) && ds != [] && Stops(tail, radix)
    requires Passed(p, pos, dotPos, p0, ds, dot)
    ensures Passed(p', pos, dotPos', p0, ds, dot) && !stop && (dot == Some(pos) ==> dotPos' >= 0)
    ensures At(s, p') == if pos < |ds| then ds[pos] else At(tail, 0)
  {
    hide Placed, ToDigit;
    p', dotPos', stop := p, dotPos, false;
    CharAt(s, p0, ds, dot, tail, pos, dotPos >= 0);
    DigitIsNoPoint(ds, radix, pos, tail);
    PointFirst(s, p0, ds, dot, tail, radix);
    if At(s, p) == '.' && (p > p0 || ToDigit(At(s, p + 1)) < radix) {
      if dotPos >= 0 {
        stop := true;
      } else {
        dotPos' := pos;
        p' := p + 1;
        CharAt(s, p0, ds, dot, tail, pos, true);
      }
    }
  }

  /** The position, the number of digits read and the point seen agree. */
  ghost predicate Passed(p: nat, pos: nat, dotPos: int, p0: nat, ds: string, dot: Option<nat>) {
    && pos <= |ds| && p == p0 + pos + (if dotPos >= 0 then 1 else 0)
    && (if dotPos >= 0 then dot == Some(dotPos) && dotPos <= pos else dotPos == -1 && (dot.Some? ==> pos <= dot.value))
  }

  lemma DigitIsNoPoint(ds: string, radix: nat, j: nat, tail: string)
    requires 2 <= radix <= 36 && AreDigits(ds, radix) && j <= |ds| && Stops(tail, radix)
    ensures j < |ds| ==> ds[j] != '.' && ToDigit(ds[j]) < radix
    ensures At(tail, 0) != '.' && At(tail, 0) != '0'
  {
    if j < |ds| {
      assert ToDigit(ds[j]) < radix;
    }
  }

  lemma PointFirst(s: string, p0: nat, ds: string, dot: Option<nat>, tail: string, radix: nat)
    requires Placed(s, p0, ds, dot, tail) && AreDigits(ds, radix) && ds != []
    ensures dot == Some(0) ==> ToDigit(At(s, p0 + 1)) < radix
  {
    if dot == Some(0) {
      CharAt(s, p0, ds, dot, tail, 0, true);
      assert ToDigit(ds[0]) < radix;
    }
  }

  /** The loop over the significant digits. */
  method ReadSignificant(a: Bignum, s: string, p0: nat, radix: nat, most: nat, start: nat, sigPos: nat, dotPos0: int,
                         ghost ds: string, ghost dot: Option<nat>, ghost tail: string)
    returns (p: nat, pos: nat, dotPos: int, count: nat, extra: bool)
    requires 2 <= radix <= 36 && Placed(s, p0, ds, dot, tail) && AreDigits(ds, radix) && ds != [] && Stops(tail, radix)
    requires sigPos <= |ds| && Passed(start, sigPos, dotPos0, p0, ds, dot)
    requires a.Valid() && a.Normal() && a.Value() == 0 && a.len == 1 && most / DigitsPerLimb(radix) + 4 <= a.tab.Length
    modifies a, a.tab
    ensures p == p0 + |Body(ds, dot)| && pos == |ds| && dotPos == (if dot.Some? then dot.value else -1)
    ensures count == Min(|ds| - sigPos, most) && a.Valid() && a.Normal() && a.Value() == Number(ds[sigPos..sigPos + count], radix)
    ensures extra == SomeNonZero(ds[sigPos + count..]) && a.len <= most / DigitsPerLimb(radix) + 2
  {
    hide Placed, ToDigit, Pow, Val, Number, Taken, SomeNonZero, DigitsPerLimb, Passed;
    var cur, held := 0, 0;
    p, pos, dotPos, count, extra := start, sigPos, dotPos0, 0, false;
    NothingTaken(radix, most);
    assert ds[sigPos..sigPos] == [];
    while true
      invariant sigPos <= pos <= |ds| && Passed(p, pos, dotPos, p0, ds, dot) && 0 <= cur && 0 <= held
      invariant a.Valid() && a.Normal() && Taken(a.Value(), a.len, cur, held, count, extra, radix, most, ds[sigPos..pos])
      decreases |ds| - pos
    {
      var stop;
      p, dotPos, stop := PassPoint(s, p, pos, dotPos, p0, radix, ds, dot, tail);
      var c := At(s, p);
      if stop || ToDigit(c) >= radix {
        break;
      }
      PassedDigit(p, pos, dotPos, p0, ds, dot);
      p := p + 1;
      cur, held, count, extra := Take(a, cur, held, count, extra, radix, most, c, ds[sigPos..pos]);
      assert ds[sigPos..pos] + [ds[pos]] == ds[sigPos..pos + 1];
      pos := pos + 1;
    }
    AllPassed(s, p, dotPos, p0, ds, dot, tail);
    TakenCount(a.Value(), a.len, cur, held, count, extra, radix, most, ds[sigPos..pos]);
    Finish(a, cur, held, count, extra, radix, most, ds[sigPos..pos]);
    SlicesOf(ds, sigPos, count);
    assert ds[sigPos..pos] == ds[sigPos..];
  }

  lemma SlicesOf(ds: string, i: nat, k: nat)
    requires i + k <= |ds|
    ensures ds[i..][..k] == ds[i..i + k] && ds[i..][k..] == ds[i + k..]
  {
  }

  lemma AllPassed(s: string, p: nat, dotPos: int, p0: nat, ds: string, dot: Option<nat>, tail: string)
    requires Placed(s, p0, ds, dot, tail) && Passed(p, |ds|, dotPos, p0, ds, dot) && (dot == Some(|ds|) ==> dotPos >= 0)
    ensures p == p0 + |Body(ds, dot)| && dotPos == (if dot.Some? then dot.value else -1)
  {
  }

  lemma TakenCount(v: nat, len: nat, cur: nat, held: nat, count: nat, extra: bool, radix: nat, most: nat, s: string)
    requires 2 <= radix <= 36 && Taken(v, len, cur, held, count, extra, radix, most, s)
    ensures count == Min(|s|, most) && extra == SomeNonZero(s[count..])
  {
    hide Reading, SomeNonZero;
  }

  // ----- the exponent -----

  /** The letter that introduces an exponent. */
  function ExponentLetter(radix: nat): char {
    if radix == 10 then 'e' else if 1 <= RadixBits(radix) <= 4 then 'p' else '@'
  }

  function ExponentText(radix: nat, x: int): string {
    [ExponentLetter(radix), if x < 0 then '-' else '+'] + Canonical(if x < 0 then -x else x, 10)
  }

  lemma ExponentStops(radix: nat, x: int)
    requires 2 <= radix <= 36
    ensures Stops(ExponentText(radix, x), radix) && Stops([], radix)
  {
  }

  predicate StartsExponent(radix: nat, c: char) {
    || (radix == 10 && (c == 'e' || c == 'E'))
    || (radix != 10 && (c == '@' || (1 <= RadixBits(radix) <= 4 && (c == 'p' || c == 'P'))))
  }

  const EXPONENT_LIMIT := (0x7FFF_FFFF - 2 - 9) / 10

  /** t are the decimal digits at p, as far as they go. */
  predicate DigitRun(s: string, p: nat, t: string) {
    p + |t| <= |s| && s[p..p + |t|] == t && AreDigits(t, 10) && ToDigit(At(s, p + |t|)) >= 10
  }

  /** Reading these digits stops at the limit before the last of them. */
  predicate Overflows(t: string) {
    t != [] && Number(t[..|t| - 1], 10) > EXPONENT_LIMIT
  }

  /** Where the digits of an exponent begin. */
  function DigitsAt(s: string, p: nat): nat {
    if At(s, p + 1) == '+' || At(s, p + 1) == '-' then p + 2 else p + 1
  }

  /** The exponent part, if there is one, of any text: a letter, a sign or none, and digits. */
  method ReadExponent(s: string, p0: nat, radix: nat) returns (ok: bool, expn: int, binary: bool, overflow: bool, next: nat, ghost t: string)
    requires 2 <= radix <= 36 && p0 <= |s|
    ensures !StartsExponent(radix, At(s, p0)) ==> ok && expn == 0 && !binary && !overflow && next == p0
    ensures StartsExponent(radix, At(s, p0)) ==>
              && DigitRun(s, DigitsAt(s, p0), t) && next == DigitsAt(s, p0) + |t| && ok == (t != [])
              && binary == (At(s, p0) == 'p' || At(s, p0) == 'P')
              && (ok ==> overflow == Overflows(t))
              && (ok && !overflow ==> expn == if At(s, p0 + 1) == '-' then -(Number(t, 10) as int) else Number(t, 10))
  {
    hide Number, Overflows, DigitRun;
    ok, expn, binary, overflow, next, t := true, 0, false, false, p0, [];
    if StartsExponent(radix, At(s, p0)) {
      binary := At(s, p0) == 'p' || At(s, p0) == 'P';
      var p := p0 + 1;
      var negative := false;
      if At(s, p) == '+' {
        p := p + 1;
      } else if At(s, p) == '-' {
        negative := true;
        p := p + 1;
      }
      ok, expn, overflow, next, t := ReadDecimal(s, p);
      if negative {
        expn := -expn;
      }
    }
  }

  /** On the text of an exponent within the limit. */
  lemma ExponentReads(s: string, p0: nat, radix: nat, x: int, t: string)
    requires 2 <= radix <= 36 && p0 <= |s| && s[p0..] == ExponentText(radix, x) && -EXPONENT_LIMIT <= x <= EXPONENT_LIMIT
    requires DigitRun(s, DigitsAt(s, p0), t)
    ensures t != [] && !Overflows(t) && x == if At(s, p0 + 1) == '-' then -(Number(t, 10) as int) else Number(t, 10)
  {
    hide Canonical, Number, ToDigit;
    var n := if x < 0 then -x else x;
    LetterHere(s, p0, radix, Some(x));
    CanonicalReads(n, 10);
    WholeRun(s, p0 + 2, Canonical(n, 10), t);
    NumberGrows(t, |t| - 1, 10);
  }

  lemma WholeRun(s: string, p: nat, u: string, t: string)
    requires p <= |s| && s[p..] == u && AreDigits(u, 10) && DigitRun(s, p, t)
    ensures t == u
  {
    hide ToDigit;
    DigitHere(s, p, u, |t|);
    assert s[p..p + |t|] == u[..|t|];
  }

  lemma LetterHere(s: string, p0: nat, radix: nat, x: Option<int>)
    requires 2 <= radix <= 36 && p0 <= |s| && s[p0..] == if x.None? then [] else ExponentText(radix, x.value)
    ensures StartsExponent(radix, At(s, p0)) <==> x.Some?
    ensures x.Some? ==>
              && At(s, p0) == ExponentLetter(radix) && At(s, p0 + 1) == (if x.value < 0 then '-' else '+')
              && p0 + 2 <= |s| && s[p0 + 2..] == Canonical(if x.value < 0 then -x.value else x.value, 10)
  {
    hide Canonical;
    if x.Some? {
      var t := ExponentText(radix, x.value);
      assert |s| == p0 + |t|;
      assert s[p0] == s[p0..][0] == t[0] && s[p0 + 1] == s[p0..][1] == t[1];
      assert s[p0 + 2..] == s[p0..][2..];
    }
  }

  /** Decimal digits, as far as they go. */
  method ReadDecimal(s: string, p0: nat) returns (ok: bool, expn: int, overflow: bool, p: nat, ghost t: string)
    requires p0 <= |s|
    ensures DigitRun(s, p0, t) && p == p0 + |t| && ok == (t != [])
    ensures ok ==> overflow == Overflows(t) && (!overflow ==> expn == Number(t, 10))
  {
    hide Number, ToDigit;
    overflow, p, t := false, p0, [];
    var c := ToDigit(At(s, p));
    if c >= 10 {
      return false, 0, false, p0, [];
    }
    InText(s, p);
    ok, expn := true, c;
    p, t := p + 1, [s[p]];
    OneDigit(s[p0], 10);
    NoDigits();
    while true
      invariant p0 < p <= |s| && t == s[p0..p] && AreDigits(t, 10)
      invariant overflow == Overflows(t) && (!overflow ==> expn == Number(t, 10))
      decreases |s| - p
    {
      c := ToDigit(At(s, p));
      if c >= 10 {
        break;
      }
      InText(s, p);
      ghost var u := t + [s[p]];
      assert u[..|t|] == t && t[..|t|] == t;
      NumberLast(u, 10);
      NumberGrows(t, |t| - 1, 10);
      if !overflow {
        if expn > EXPONENT_LIMIT {
          overflow := true;
        } else {
          expn := expn * 10 + c;
        }
      }
      p, t := p + 1, u;
    }
  }

  lemma InText(s: string, p: nat)
    requires ToDigit(At(s, p)) < 10
    ensures p < |s| && At(s, p) == s[p]
  {
  }

  lemma NoDigits()
    ensures Number([], 10) == 0
  {
  }

  lemma DigitHere(s: string, p0: nat, t: string, k: nat)
    requires p0 <= |s| && s[p0..] == t && k <= |t| && AreDigits(t, 10)
    ensures k < |t| ==> At(s, p0 + k) == t[k] && ToDigit(At(s, p0 + k)) < 10
    ensures k == |t| ==> ToDigit(At(s, p0 + k)) == 36
  {
    if k < |t| {
      assert s[p0 + k] == s[p0..][k];
    }
  }

  /** A prefix of a number is no larger than the number. */
  lemma NumberGrows(t: string, k: nat, radix: nat)
    requires k < |t| && radix >= 2
    ensures Number(t[..k + 1], radix) == Number(t[..k], radix) * radix + ToDigit(t[k])
    ensures Number(t[..k], radix) <= Number(t, radix)
  {
    hide Number, ToDigit;
    assert t[..k + 1][..k] == t[..k];
    NumberLast(t[..k + 1], radix);
    PrefixSmaller(t, k, radix);
  }

  lemma {:induction false} PrefixSmaller(t: string, k: nat, radix: nat)
    requires k <= |t| && radix >= 2
    ensures Number(t[..k], radix) <= Number(t, radix)
  {
    hide Number, ToDigit;
    if k == |t| {
      assert t[..k] == t;
    } else {
      var u := t[..|t| - 1];
      PrefixSmaller(u, k, radix);
      assert u[..k] == t[..k];
      NumberLast(t, radix);
      MulOrder(1, radix, Number(u, radix));
    }
  }
}
