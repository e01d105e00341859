/** `js_dtoa` in free format, and the round trip through text. */
module DtoaPrint {
  import opened Options
  import opened DtoaRounding
  import opened DtoaDivision
  import opened DtoaLimbs
  import opened DtoaBits
  import opened DtoaBignum
  import opened DtoaScaling
  import opened DtoaConvert
  import opened DtoaFloat
  import opened DtoaNearest
  import opened DtoaFree
  import opened DtoaCapacity
  import opened DtoaShortest
  import opened DtoaSearch
  import opened DtoaText
  import opened DtoaRead
  import opened DtoaIntegers
  import opened DtoaDouble
  import opened DtoaParse
  import opened DtoaStrings
  import L = DtoaLogarithm

  /** When to print an exponent. */
  datatype Style = Auto | Enabled | Disabled

  /** Whether an exponent is printed for a number of the order radix^exp. */
  predicate ShowsExponent(exp: int, radix: nat, style: Style)
    requires 2 <= radix <= 36
  {
    style == Enabled || (style == Auto && (exp <= -6 || exp > MaxDigits(radix) + 4))
  }

  /** The numeral that is printed for mant * radix^(exp - p), which has p digits. */
  function Printed(mant: nat, exp: int, p: nat, radix: nat, style: Style): Numeral
    requires 2 <= radix <= 36
  {
    var text := Text(mant, radix, p);
    if ShowsExponent(exp, radix, style) then
      Numeral(text, if p == 1 then None else Some(1), Some((exp - 1) * if 1 <= RadixBits(radix) <= 4 then RadixBits(radix) else 1))
    else if exp <= 0 then Numeral(['0'] + ZeroText(-exp) + text, Some(1), None)
    else if exp < p then Numeral(text, Some(exp), None)
    else Numeral(text + ZeroText(exp - p), None, None)
  }

  lemma {:induction false} NumberOfZeros(k: nat, radix: nat)
    ensures Number(ZeroText(k), radix) == 0 && |ZeroText(k)| == k && forall i | 0 <= i < k :: ZeroText(k)[i] == '0'
  {
    if k > 0 {
      NumberOfZeros(k - 1, radix);
      assert ZeroText(k)[..k - 1] == ZeroText(k - 1);
    }
  }

  /** The numeral that is printed means the number, and can be read. */
  lemma PrintedMeans(mant: nat, exp: int, p: nat, radix: nat, style: Style)
    requires 2 <= radix <= 36 && p >= 1 && Pow(radix, p - 1) <= mant < Pow(radix, p) && -2000 <= exp <= 2000
    ensures var n := Printed(mant, exp, p, radix, style);
            && n.Ok(radix) && Number(n.ds, radix) != 0
            && Value(n, radix) == Times(mant as real, radix, exp - p)
  {
    hide Number, Text, Pow, Power, Times, ToDigit, RadixBits;
    TextRoundTrip(mant, radix, p);
    QuotientIs(mant, Pow(radix, p), 0, mant);
    PrintedDigits(mant, exp, p, radix, style);
    PrintedValue(mant, exp, p, radix, style);
  }

  /** Letters are printed in lower case. */
  lemma {:induction false} LowerText(v: nat, radix: nat, n: nat)
    requires 2 <= radix <= 36
    ensures forall i | 0 <= i < n :: Text(v, radix, n)[i] != 'I'
  {
    hide DigitChar;
    if n > 0 {
      LowerText(v / radix, radix, n - 1);
      LowerDigit(v % radix);
    }
  }

  lemma LowerDigit(d: nat)
    requires d < 36
    ensures DigitChar(d) != 'I'
  {
  }

  lemma PrintedDigits(mant: nat, exp: int, p: nat, radix: nat, style: Style)
    requires 2 <= radix <= 36 && p >= 1 && -2000 <= exp <= 2000 && AreDigits(Text(mant, radix, p), radix)
    ensures var n := Printed(mant, exp, p, radix, style); n.Ok(radix)
  {
    hide Text, ToDigit, Number;
    var n, text := Printed(mant, exp, p, radix, style), Text(mant, radix, p);
    LowerText(mant, radix, p);
    ZeroDigit();
    assert |ZeroText(if exp <= 0 then -exp else 0)| >= 0;
    forall i | 0 <= i < |n.ds| ensures ToDigit(n.ds[i]) < radix {
      assert n.ds[i] in text || n.ds[i] == '0';
    }
  }

  lemma ZeroDigit()
    ensures ToDigit('0') == 0
  {
  }

  lemma TimesZero(x: real, b: nat)
    requires b > 0
    ensures Times(x, b, 0) == x
  {
    hide Power;
    PowerZero(b);
    assert x * 1.0 == x;
  }

  lemma PrintedValue(mant: nat, exp: int, p: nat, radix: nat, style: Style)
    requires 2 <= radix <= 36 && p >= 1 && Number(Text(mant, radix, p), radix) == mant && mant > 0
    ensures var n := Printed(mant, exp, p, radix, style);
            Number(n.ds, radix) != 0 && Value(n, radix) == Times(mant as real, radix, exp - p)
  {
    hide Number, Text, Pow, Power, Times, ToDigit, RadixBits, ZeroText, ShowsExponent;
    var n, text, v := Printed(mant, exp, p, radix, style), Text(mant, radix, p), mant as real;
    if ShowsExponent(exp, radix, style) {
      ExponentValue(mant, exp, p, radix, n);
    } else {
      TimesZero(Times(Number(n.ds, radix) as real, radix, n.Point() - |n.ds|), radix);
      if exp <= 0 {
        NumberOfZeros(-exp, radix);
        assert n.ds[1 - exp..] == text;
        LeadingZeros(n.ds, 1 - exp, radix);
      } else if exp >= p {
        NumberOfZeros(exp - p, radix);
        SplitNumber(text, ZeroText(exp - p), radix);
        TimesZero(Number(n.ds, radix) as real, radix);
        TimesPow(mant, radix, exp - p);
        SumIsZero(0, mant, Pow(radix, exp - p));
      }
    }
  }

  lemma ExponentValue(mant: nat, exp: int, p: nat, radix: nat, n: Numeral)
    requires 2 <= radix <= 36 && p >= 1 && |n.ds| == p && Number(n.ds, radix) == mant && n.Point() == 1
    requires n.exp == Some((exp - 1) * if 1 <= RadixBits(radix) <= 4 then RadixBits(radix) else 1)
    ensures Value(n, radix) == Times(mant as real, radix, exp - p)
  {
    hide Number, Pow, Power, Times, RadixBits;
    var x := Times(mant as real, radix, 1 - p);
    if n.Binary(radix) {
      TimesBits(x, radix, exp - 1);
      assert RadixBits(radix) * (exp - 1) == (exp - 1) * RadixBits(radix);
    }
    TimesPlus(mant as real, radix, 1 - p, exp - 1, exp - p);
  }

  /** Nothing but zeros is left out when a printed number is read. */
  lemma PrintedRead(mant: nat, exp: int, p: nat, radix: nat, style: Style)
    requires 2 <= radix <= 36 && 1 <= p <= MaxDigits(radix)
    ensures AllRead(Printed(mant, exp, p, radix, style), radix)
  {
    hide Text, ToDigit, Zeros, MaxDigits, ReadDigits;
    var n, text := Printed(mant, exp, p, radix, style), Text(mant, radix, p);
    EnoughToRead(radix);
    ZeroDigit();
    var z := Zeros(n.ds);
    var sig := n.ds[z..];
    var c := Min(|sig|, ReadDigits(radix));
    var rest := Rest(n, radix);
    assert rest == sig[c..];
    forall i | 0 <= i < |rest| ensures ToDigit(rest[i]) == 0 {
      var j := z + c + i;
      assert rest[i] == n.ds[j];
      PrintedTail(mant, exp, p, radix, style, j, z, c);
    }
  }

  lemma PrintedTail(mant: nat, exp: int, p: nat, radix: nat, style: Style, j: nat, z: nat, c: nat)
    requires 2 <= radix <= 36 && 1 <= p <= c
    requires var n := Printed(mant, exp, p, radix, style); z == Zeros(n.ds) && z + c <= j < |n.ds|
    ensures Printed(mant, exp, p, radix, style).ds[j] == '0'
  {
    hide Text, Zeros;
    var n := Printed(mant, exp, p, radix, style);
    if !ShowsExponent(exp, radix, style) && exp <= 0 {
      NumberOfZeros(-exp, radix);
    } else if !ShowsExponent(exp, radix, style) && exp >= p {
      NumberOfZeros(exp - p, radix);
    }
  }

  lemma EnoughToRead(radix: nat)
    requires 2 <= radix <= 36
    ensures MaxDigits(radix) <= ReadDigits(radix)
  {
  }

  // ----- printing -----

  method PutChar(buf: array<char>, q: nat, c: char) returns (q': nat)
    requires q < buf.Length
    modifies buf
    ensures q' == q + 1 && buf[..q'] == old(buf[..q]) + [c]
  {
    buf[q] := c;
    q' := q + 1;
  }

  method PutZeros(buf: array<char>, q: nat, k: nat) returns (q': nat)
    requires q + k <= buf.Length
    modifies buf
    ensures q' == q + k && buf[..q'] == old(buf[..q]) + ZeroText(k)
  {
    q' := q;
    assert ZeroText(0) == [];
    for i := 0 to k
      invariant q' == q + i && buf[..q'] == old(buf[..q]) + ZeroText(i)
    {
      ghost var low := buf[..q'];
      buf[q'] := '0';
      q' := q' + 1;
      assert buf[..q'] == low + ['0'] && ZeroText(i + 1) == ZeroText(i) + ['0'];
    }
  }

  method PutDigits(buf: array<char>, q: nat, a: Bignum, radix: nat, p: nat, dot: nat) returns (q': nat)
    requires a.Valid() && a.Normal() && 2 <= radix <= 36 && 1 <= p && dot <= p && q + p + 1 <= buf.Length
    modifies buf, a, a.tab
    ensures q' <= q + p + 1 && buf[..q'] == old(buf[..q]) + Dotted(Text(old(a.Value()), radix, p), dot)
    ensures q' == q + |Dotted(Text(old(a.Value()), radix, p), dot)|
  {
    hide Text, Dotted, Val;
    var len := PrintDigits(buf, q, a, radix, p, dot);
    q' := q + len;
    DottedLength(Text(old(a.Value()), radix, p), dot);
    assert buf[..q'] == buf[..q] + buf[q..q'];
  }

  lemma DottedLength(s: string, dot: nat)
    requires dot <= |s|
    ensures |s| <= |Dotted(s, dot)| <= |s| + 1
  {
  }

  method PutExponent(buf: array<char>, q: nat, x: int, radix: nat) returns (q': nat)
    requires q + 12 <= buf.Length && -B < x < B
    modifies buf
    ensures q' <= q + 12 && buf[..q'] == old(buf[..q]) + ExponentText(radix, x)
  {
    hide Canonical;
    var r := PutChar(buf, q, ExponentLetter(radix));
    r := PutChar(buf, r, if x < 0 then '-' else '+');
    ghost var low := buf[..r];
    var len := U32ToText(buf, r, if x < 0 then -x else x);
    q' := r + len;
    assert buf[..q'] == buf[..r] + buf[r..q'];
    assert low == old(buf[..q]) + [ExponentLetter(radix), if x < 0 then '-' else '+'];
  }

  /** The last part of `js_dtoa`: digits, point, zeros and exponent */
  method Layout(buf: array<char>, q: nat, a: Bignum, exp: int, p: nat, radix: nat, style: Style) returns (q': nat)
    requires a.Valid() && a.Normal() && 2 <= radix <= 36 && 1 <= p <= MaxDigits(radix) && -2000 <= exp <= 2000
    requires q + 2100 <= buf.Length
    modifies buf, a, a.tab
    ensures q' <= buf.Length && buf[..q'] == old(buf[..q]) + Printed(old(a.Value()), exp, p, radix, style).Show(radix)
  {
    hide Text, Val, Canonical, ExponentText, ZeroText, RadixBits, MaxDigits, Dotted, Body, Printed;
    ghost var v := a.Value();
    LayoutText(v, exp, p, radix, style);
    DigitsBound(radix);
    if ShowsExponent(exp, radix, style) {
      var x := exp - 1;
      if 1 <= RadixBits(radix) <= 4 {
        x := x * RadixBits(radix);
      }
      ExponentSmall(exp, radix);
      q' := LayoutExponent(buf, q, a, x, p, radix);
    } else if exp <= 0 {
      q' := LayoutFraction(buf, q, a, exp, p, radix);
    } else {
      q' := LayoutWhole(buf, q, a, exp, p, radix);
    }
  }

  method LayoutExponent(buf: array<char>, q: nat, a: Bignum, x: int, p: nat, radix: nat) returns (q': nat)
    requires a.Valid() && a.Normal() && 2 <= radix <= 36 && 1 <= p && q + p + 20 <= buf.Length && -B < x < B
    modifies buf, a, a.tab
    ensures q' <= buf.Length && buf[..q'] == old(buf[..q]) + (Dotted(Text(old(a.Value()), radix, p), 1) + ExponentText(radix, x))
  {
    hide Text, Val, Canonical, ExponentText, Dotted;
    q' := PutDigits(buf, q, a, radix, p, 1);
    q' := PutExponent(buf, q', x, radix);
    JoinText(old(buf[..q]), Dotted(Text(old(a.Value()), radix, p), 1), ExponentText(radix, x));
  }

  method LayoutFraction(buf: array<char>, q: nat, a: Bignum, exp: int, p: nat, radix: nat) returns (q': nat)
    requires a.Valid() && a.Normal() && 2 <= radix <= 36 && 1 <= p && exp <= 0 && q + p - exp + 4 <= buf.Length
    modifies buf, a, a.tab
    ensures q' <= buf.Length
    ensures buf[..q'] == old(buf[..q]) + (['0'] + ['.'] + ZeroText(-exp) + Dotted(Text(old(a.Value()), radix, p), p))
  {
    hide Text, Val, Dotted, ZeroText;
    q' := PutChar(buf, q, '0');
    q' := PutChar(buf, q', '.');
    q' := PutZeros(buf, q', -exp);
    q' := PutDigits(buf, q', a, radix, p, p);
    JoinFour(old(buf[..q]), ZeroText(-exp), Dotted(Text(old(a.Value()), radix, p), p));
  }

  lemma JoinFour(x: string, y: string, z: string)
    ensures x + ['0'] + ['.'] + y + z == x + (['0'] + ['.'] + y + z)
  {
  }

  method LayoutWhole(buf: array<char>, q: nat, a: Bignum, exp: int, p: nat, radix: nat) returns (q': nat)
    requires a.Valid() && a.Normal() && 2 <= radix <= 36 && 1 <= p && 0 < exp && q + p + exp + 1 <= buf.Length
    modifies buf, a, a.tab
    ensures q' <= buf.Length
    ensures var text := Text(old(a.Value()), radix, p);
            buf[..q'] == old(buf[..q]) + if exp <= p then Dotted(text, exp) else Dotted(text, p) + ZeroText(exp - p)
  {
    hide Text, Val, Dotted, ZeroText;
    q' := PutDigits(buf, q, a, radix, p, if p < exp then p else exp);
    if exp > p {
      q' := PutZeros(buf, q', exp - p);
      JoinText(old(buf[..q]), Dotted(Text(old(a.Value()), radix, p), p), ZeroText(exp - p));
    }
  }

  lemma DigitsBound(radix: nat)
    requires 2 <= radix <= 36
    ensures MaxDigits(radix) <= 54
  {
  }

  lemma ExponentSmall(exp: int, radix: nat)
    requires -2000 <= exp <= 2000
    ensures -B < (exp - 1) * RadixBits(radix) < B
  {
  }

  /** The pieces of the printed text, in order. */
  lemma LayoutText(v: nat, exp: int, p: nat, radix: nat, style: Style)
    requires 2 <= radix <= 36 && p >= 1 && -2000 <= exp <= 2000
    ensures var n, text := Printed(v, exp, p, radix, style), Text(v, radix, p);
            && (n.dot.Some? ==> n.dot.value <= |n.ds|)
            && (ShowsExponent(exp, radix, style) ==>
                  n.Show(radix) == Dotted(text, 1) + ExponentText(radix, (exp - 1) * if 1 <= RadixBits(radix) <= 4 then RadixBits(radix) else 1))
            && (!ShowsExponent(exp, radix, style) ==>
                  n.Show(radix) ==
                  if exp <= 0 then ['0'] + ['.'] + ZeroText(-exp) + Dotted(text, p)
                  else if exp <= p then Dotted(text, exp)
                  else Dotted(text, p) + ZeroText(exp - p))
  {
    hide Text, Canonical, ExponentText, RadixBits, ShowsExponent;
    var n, text := Printed(v, exp, p, radix, style), Text(v, radix, p);
    if !ShowsExponent(exp, radix, style) {
      assert n.Tail(radix) == [];
      if exp <= 0 {
        assert n.ds[..1] == ['0'] && n.ds[1..] == ZeroText(-exp) + text;
      } else if exp == p {
        assert ZeroText(0) == [] && text + ZeroText(0) == text;
      }
    }
  }

  // ----- a number becomes text -----

  /** A numeral that reads back as the float64 m * 2^(e - 53). */
  ghost predicate Denotes(n: Numeral, radix: nat, m: nat, e: int)
    requires 2 <= radix <= 36
  {
    n.Ok(radix) && AllRead(n, radix) && Number(n.ds, radix) != 0 && Rounded(NearestEven, Value(n, radix), m, e)
  }

  /** v is written with p digits, of which the last is not zero. */
  ghost predicate HasDigits(v: real, radix: nat, p: nat)
    requires radix > 0
  {
    exists mant: nat, g: int :: Written(v, radix, p, mant, g)
  }

  ghost predicate Written(v: real, radix: nat, p: nat, mant: nat, g: int)
    requires radix > 0
  {
    p >= 1 && Pow(radix, p - 1) <= mant < Pow(radix, p) && mant % radix != 0 && Times(mant as real, radix, g) == v
  }

  /** When an exponent is printed: in style Auto, for numbers below radix^-6 and from a power of the radix on that
      is 10^21 in decimal. */
  ghost predicate ExponentRule(n: Numeral, radix: nat, style: Style)
    requires 2 <= radix <= 36
  {
    match style
    case Enabled => n.exp.Some?
    case Disabled => n.exp.None?
    case Auto => n.exp.Some? <==> Value(n, radix) < Power(radix, -6) || Value(n, radix) >= Power(radix, MaxDigits(radix) + 4)
  }

  /** The numeral has p digits, no numeral with fewer digits means the same float64, and the exponent is where it
      belongs. */
  ghost predicate Presented(n: Numeral, radix: nat, style: Style, m: nat, e: int, p: nat)
    requires 2 <= radix <= 36
  {
    && HasDigits(Value(n, radix), radix, p) && ExponentRule(n, radix, style)
    && (Symmetric(m, e) ==> NoShorter(m, e, radix, p))
  }

  lemma PrintedPresented(m: nat, e: int, radix: nat, mant: nat, exp: int, p: nat, style: Style)
    requires 2 <= radix <= 36 && p >= 1 && Pow(radix, p - 1) <= mant < Pow(radix, p) && mant % radix != 0 && -2000 <= exp <= 2000
    requires Symmetric(m, e) ==> NoShorter(m, e, radix, p)
    ensures Presented(Printed(mant, exp, p, radix, style), radix, style, m, e, p)
  {
    hide Pow, Power, Number, ToDigit, Text, Value, Times, Printed, Symmetric, NoShorter;
    PrintedMeans(mant, exp, p, radix, style);
    assert Written(Value(Printed(mant, exp, p, radix, style), radix), radix, p, mant, exp - p);
    PowerBounds(mant, p, exp - p, radix);
    assert exp - p + p - 1 == exp - 1 && exp - p + p == exp;
    PrintedExponent(mant, exp, p, radix, style);
    PowersAround(exp, radix, -6);
    PowersAround(exp, radix, MaxDigits(radix) + 4);
  }

  lemma PrintedExponent(mant: nat, exp: int, p: nat, radix: nat, style: Style)
    requires 2 <= radix <= 36
    ensures Printed(mant, exp, p, radix, style).exp.Some? <==> ShowsExponent(exp, radix, style)
  {
    hide Text, ShowsExponent;
  }

  lemma PowersAround(exp: int, radix: nat, k: int)
    requires radix >= 2
    ensures if exp <= k then Power(radix, exp) <= Power(radix, k) else Power(radix, k) <= Power(radix, exp - 1)
  {
    hide Power;
    if exp <= k {
      PowerMonotone(radix, exp, k);
    } else {
      PowerMonotone(radix, k, exp - 1);
    }
  }

  // ----- small integers -----

  /** An integer without its trailing zeros. */
  lemma {:induction false} Stripped(v: nat, radix: nat) returns (mant: nat, z: nat, p: nat)
    requires v > 0 && radix >= 2
    ensures p >= 1 && Pow(radix, p - 1) <= mant < Pow(radix, p) && mant % radix != 0 && v == mant * Pow(radix, z)
  {
    hide Pow;
    if v % radix != 0 {
      PowStart(radix);
      mant, z := v, 0;
      p := DigitCount(v, radix);
    } else {
      var w := v / radix;
      DivSmaller(v, radix);
      mant, z, p := Stripped(w, radix);
      PowUp(radix, z);
      z := z + 1;
      assert mant * (radix * Pow(radix, z - 1)) == mant * Pow(radix, z - 1) * radix;
    }
  }

  lemma DivSmaller(v: nat, radix: nat)
    requires v > 0 && radix >= 2
    ensures v / radix < v && v == v / radix * radix + v % radix && v % radix < radix && (v >= radix || v % radix == 0 ==> v / radix > 0)
  {
    var w, r := DivMod(v, radix);
    MulOrder(2, radix, w);
  }

  lemma {:induction false} DigitCount(v: nat, radix: nat) returns (p: nat)
    requires v > 0 && radix >= 2
    ensures p >= 1 && Pow(radix, p - 1) <= v < Pow(radix, p)
  {
    hide Pow;
    PowStart(radix);
    if v < radix {
      p := 1;
    } else {
      var w := v / radix;
      DivSmaller(v, radix);
      p := DigitCount(w, radix);
      OneDigitMore(v, w, v % radix, radix, p);
      p := p + 1;
    }
  }

  lemma OneDigitMore(v: nat, w: nat, r: nat, radix: nat, p: nat)
    requires p >= 1 && v == w * radix + r && r < radix && Pow(radix, p - 1) <= w < Pow(radix, p)
    ensures Pow(radix, p) <= v < Pow(radix, p + 1)
  {
    hide Pow;
    PowUp(radix, p - 1);
    PowUp(radix, p);
    MulOrder(Pow(radix, p - 1), w, radix);
    MulOrder(w + 1, Pow(radix, p), radix);
  }

  /** No shorter numeral means a small integer. */
  lemma SmallShortest(m: nat, e: int, v: nat, radix: nat, mant: nat, z: nat, p: nat)
    requires Float64(m, e) && Symmetric(m, e) && e <= 53 && v > 0 && Float(m, e) == v as real && radix >= 2
    requires p >= 1 && Pow(radix, p - 1) <= mant < Pow(radix, p) && mant % radix != 0 && v == mant * Pow(radix, z)
    ensures NoShorter(m, e, radix, p)
  {
    hide Pow, Power, Times, Rounded, Symmetric, Float, Float64, Gap;
    forall j: nat, q: nat, g: int | q < p && j < Pow(radix, q) ensures !Means(m, e, radix, j, g) {
      PowMonotone(radix, q, p - 1);
      TimesPositive(j, radix, g);
      if Means(m, e, radix, j, g) {
        SmallNear(Times(j as real, radix, g), m, e, v);
        if g >= 0 {
          WholeApart(j, radix, g, mant, z, p, v);
        } else {
          FractionApart(j, radix, g, mant, z, p, v);
        }
      }
    }
  }

  lemma SmallNear(y: real, m: nat, e: int, v: nat)
    requires Float64(m, e) && Symmetric(m, e) && e <= 53 && Float(m, e) == v as real && y >= 0.0 && Rounded(NearestEven, y, m, e)
    ensures Gap(y, v as real) <= 0.5
  {
    hide Pow, Power, Rounded, Symmetric, Float, Float64, Gap;
    var k := RoundedNear(y, m, e);
    HalfPower();
    PowerMonotone(2, Quantum(e) - 1, -1);
  }

  lemma WholeApart(j: nat, radix: nat, g: int, mant: nat, z: nat, p: nat, v: nat)
    requires radix >= 2 && g >= 0 && p >= 1 && j < Pow(radix, p - 1) <= mant && mant % radix != 0 && v == mant * Pow(radix, z)
    ensures Gap(Times(j as real, radix, g), v as real) > 0.5
  {
    hide Pow, Power;
    TimesPow(j, radix, g);
    var i := j * Pow(radix, g);
    if i == v {
      if g > z {
        PowPlus(radix, g - z, z);
        PowUp(radix, g - z - 1);
        CancelPower(j, Pow(radix, g - z), Pow(radix, z), mant);
        assert mant == j * (radix * Pow(radix, g - z - 1));
        assert mant == radix * (j * Pow(radix, g - z - 1));
        MultipleOf(j * Pow(radix, g - z - 1), radix);
      } else {
        PowPlus(radix, z - g, g);
        CancelPower(mant, Pow(radix, z - g), Pow(radix, g), j);
        MulOrder(1, Pow(radix, z - g), mant);
      }
    }
  }

  lemma CancelPower(x: nat, a: nat, b: nat, y: nat)
    requires x * (a * b) == y * b && b > 0
    ensures y == x * a
  {
    assert x * (a * b) == x * a * b;
    if y < x * a {
      MulOrder(y + 1, x * a, b);
    } else if y > x * a {
      MulOrder(x * a + 1, y, b);
    }
  }

  lemma FractionApart(j: nat, radix: nat, g: int, mant: nat, z: nat, p: nat, v: nat)
    requires radix >= 2 && g < 0 && p >= 1 && j < Pow(radix, p - 1) <= mant && v == mant * Pow(radix, z)
    ensures Gap(Times(j as real, radix, g), v as real) > 0.5
  {
    hide Pow, Power;
    PowerMonotone(radix, g, -1);
    PowerNext(radix, -1);
    PowerZero(radix);
    MulOrder(1, Pow(radix, z), mant);
    var t := Power(radix, -1);
    RealOrder(Power(radix, g), t, j as real);
    HalfOf(j as real, radix as real, t, Power(radix, g), Times(j as real, radix, g));
  }

  lemma HalfOf(j: real, r: real, t: real, s: real, y: real)
    requires j >= 0.0 && r >= 2.0 && t > 0.0 && r * t == 1.0 && s * j <= t * j && y == j * s
    ensures y <= j / 2.0
  {
    RealOrder(0.0, t, j);
    var w := t * j;
    OneTimes(r, t, j);
    Doubles(w, r, j);
    assert y == s * j <= w;
  }

  lemma Doubles(w: real, r: real, j: real)
    requires w >= 0.0 && r >= 2.0 && r * w == j
    ensures w <= j / 2.0
  {
    RealOrder(2.0, r, w);
  }

  lemma OneTimes(r: real, t: real, j: real)
    requires r * t == 1.0
    ensures r * (t * j) == j
  {
    var one := r * t;
    assert r * (t * j) == one * j;
  }

  /** An integer that the fast path prints. */
  predicate IsSmallInteger(m: nat, e: int) {
    1 <= e <= 53 && m % Pow(2, 53 - e) == 0
  }

  lemma SmallInteger(m: nat, e: int, radix: nat)
    requires Float64(m, e) && IsSmallInteger(m, e) && 2 <= radix <= 36
    ensures var v := m / Pow(2, 53 - e);
            v < B * B && Denotes(Numeral(Canonical(v, radix), None, None), radix, m, e)
  {
    hide Pow, Power, Number, Canonical, ToDigit, Rounded, Zeros, Times, ReadDigits, MaxDigits;
    var p := Pow(2, 53 - e);
    var v, _ := DivMod(m, p);
    var n := Numeral(Canonical(v, radix), None, None);
    SmallPowers();
    MulOrder(1, p, v);
    CanonicalReads(v, radix);
    CanonicalLower(v, radix);
    CanonicalLength(v, radix);
    CanonicalShort(v, radix);
    EnoughToRead(radix);
    NothingMore(n, radix);
    WholeValue(n, radix);
    ShiftMore(v, 53 - e, e - PRECISION);
    ShiftedZero(v);
    NearRounds(m, e, v as real);
  }

  /** Small integers are printed with the fewest digits, and without an exponent. */
  lemma SmallPresented(m: nat, e: int, radix: nat, style: Style) returns (p: nat)
    requires Float64(m, e) && IsSmallInteger(m, e) && 2 <= radix <= 36 && style != Enabled
    ensures Presented(Numeral(Canonical(m / Pow(2, 53 - e), radix), None, None), radix, style, m, e, p)
  {
    hide Pow, Power, Number, Canonical, ToDigit, Rounded, Zeros, Times, MaxDigits, Symmetric, NoShorter, Value, Float64;
    var t := Pow(2, 53 - e);
    var v, _ := DivMod(m, t);
    var n := Numeral(Canonical(v, radix), None, None);
    MantissaBounds(m, e);
    MulOrder(1, t, v);
    SumIsZero(0, v, t);
    CanonicalReads(v, radix);
    CanonicalLower(v, radix);
    WholeValue(n, radix);
    ShiftMore(v, 53 - e, e - PRECISION);
    ShiftedZero(v);
    assert v > 0 && v < Pow(2, 53) && Float(m, e) == v as real == Value(n, radix);
    var mant, z;
    mant, z, p := Stripped(v, radix);
    TimesPow(mant, radix, z);
    assert Written(Value(n, radix), radix, p, mant, z);
    if Symmetric(m, e) {
      SmallShortest(m, e, v, radix, mant, z, p);
    }
    SmallPlain(v, radix);
  }

  /** They lie where no exponent is printed. */
  lemma SmallPlain(v: nat, radix: nat)
    requires 1 <= v < Pow(2, 53) && 2 <= radix <= 36
    ensures Power(radix, -6) <= v as real < Power(radix, MaxDigits(radix) + 4)
  {
    hide Pow, Power, MaxDigits;
    MaxDigitsEnough(radix);
    var k := MaxDigits(radix) + 4;
    PowMonotone(radix, MaxDigits(radix) - 1, k);
    PowerUp(radix, k);
    PowerMonotone(radix, -6, 0);
    PowerZero(radix);
  }

  lemma ShiftedZero(v: nat)
    ensures Shifted(v, 0) == v as real
  {
    hide Power;
    PowerZero(2);
    assert v as real * 1.0 == v as real;
  }

  lemma WholeValue(n: Numeral, radix: nat)
    requires radix > 0 && n.dot.None? && n.exp.None?
    ensures Value(n, radix) == Number(n.ds, radix) as real
  {
    hide Number, Power, Times;
    TimesZero(Number(n.ds, radix) as real, radix);
  }

  lemma NothingMore(n: Numeral, radix: nat)
    requires 2 <= radix <= 36 && |n.ds| <= ReadDigits(radix)
    ensures AllRead(n, radix)
  {
    hide Zeros, ReadDigits, ToDigit;
    var sig := n.ds[Zeros(n.ds)..];
    assert Rest(n, radix) == [];
  }

  /** Fewer digits than always suffice. */
  lemma CanonicalShort(v: nat, radix: nat)
    requires 2 <= radix <= 36 && v < Pow(2, 53) && (v == 0 || Pow(radix, |Canonical(v, radix)| - 1) <= v)
    ensures v > 0 ==> |Canonical(v, radix)| <= MaxDigits(radix)
  {
    hide Pow, Canonical;
    MaxDigitsEnough(radix);
    if v > 0 && |Canonical(v, radix)| > MaxDigits(radix) {
      PowMonotone(radix, MaxDigits(radix) - 1, |Canonical(v, radix)| - 1);
    }
  }

  lemma {:induction false} CanonicalLower(v: nat, radix: nat)
    requires 2 <= radix <= 36
    ensures Canonical(v, radix)[0] != 'I'
  {
    hide DigitChar;
    if v < radix {
      LowerDigit(v);
    } else {
      CanonicalLower(v / radix, radix);
    }
  }

  /** `js_dtoa` in free format, for a number other than zero */
  method PrintNumber(buf: array<char>, neg: bool, a: nat, radix: nat, style: Style, tmp: Bignum)
    returns (q: nat, ghost n: Numeral, ghost p: nat)
    requires IsMagnitude(a) && 2 <= radix <= 36 && buf.Length >= 2200 && tmp.tab.Length >= CAPACITY
    modifies buf, tmp, tmp.tab
    ensures q <= buf.Length && Denotes(n, radix, Unpack(a).0, Unpack(a).1) && buf[..q] == Text64(neg, n, radix)
    ensures Presented(n, radix, style, Unpack(a).0, Unpack(a).1, p)
    ensures style == Enabled || !IsSmallInteger(Unpack(a).0, Unpack(a).1) ==>
              exists e0 :: FirstExponent(Unpack(a).1, radix, e0) && StopsShort(Unpack(a).0, Unpack(a).1, radix, e0, p)
  {
    hide Pow, Power, Number, Canonical, ToDigit, Rounded, Text, Unpack, Value, AllRead, Times, OddPart, FirstExponent, Float64, Body;
    hide Presented, StopsShort;
    UnpackParts(a);
    var (m, e) := Unpack(a);
    q := 0;
    if neg {
      q := PutChar(buf, 0, '-');
    }
    ghost var sign := buf[..q];
    if style != Enabled && IsSmallInteger(m, e) {
      var v := m / Pow(2, 53 - e);
      SmallInteger(m, e, radix);
      n := Numeral(Canonical(v, radix), None, None);
      p := SmallPresented(m, e, radix, style);
      var len := U64ToTextRadix(buf, q, v, radix);
      assert buf[..q + len] == sign + Canonical(v, radix);
      ShowsPlain(n, radix);
      q := q + len;
    } else {
      q, n, p := PrintSearched(buf, q, m, e, radix, style, tmp, a);
    }
  }

  lemma ShowsPlain(n: Numeral, radix: nat)
    requires n.dot.None? && n.exp.None?
    ensures n.Show(radix) == n.ds
  {
  }

  /** The slow path: search for digits, then lay them out. */
  method PrintSearched(buf: array<char>, q: nat, m: nat, e: int, radix: nat, style: Style, tmp: Bignum, ghost a: nat)
    returns (q': nat, ghost n: Numeral, ghost p: nat)
    requires IsMagnitude(a) && (m, e) == Unpack(a) && Float64(m, e) && e <= 1024 && 2 <= radix <= 36
    requires q + 2100 <= buf.Length && tmp.tab.Length >= CAPACITY
    modifies buf, tmp, tmp.tab
    ensures q' <= buf.Length && Denotes(n, radix, m, e) && n.Ok(radix) && buf[..q'] == old(buf[..q]) + n.Show(radix)
    ensures Presented(n, radix, style, m, e, p) && exists e0 :: FirstExponent(e, radix, e0) && StopsShort(m, e, radix, e0, p)
  {
    hide Pow, Power, Number, ToDigit, Rounded, Text, Unpack, Value, AllRead, Times, OddPart, FirstExponent, Printed, Body;
    hide Presented, StopsShort, Symmetric, NoShorter;
    OddPartSplits(radix);
    var (radix1, radixShift) := OddPart(radix);
    var e0 := 1 + L.MulLog2Radix(e - 1, radix);
    StartExponent(m, e, radix, e0);
    var mant, exp, digits := FindDigits(tmp, m, e, radix, radix1, radixShift, e0);
    p := digits;
    Found(m, e, radix, mant, exp, p, style);
    PrintedPresented(m, e, radix, mant, exp, p, style);
    n := Printed(mant, exp, p, radix, style);
    SetU64(tmp, mant);
    q' := Layout(buf, q, tmp, exp, digits, radix, style);
  }

  lemma StartExponent(m: nat, e: int, radix: nat, e0: int)
    requires 2 <= radix <= 36 && Float64(m, e) && e <= 1024 && e0 == 1 + L.MulLog2Radix(e - 1, radix)
    ensures FirstExponent(e, radix, e0) && -1100 <= e0 <= 1100
  {
    hide Pow, Power;
    L.LogIsExact(e - 1, radix);
    assert FirstExponent(e, radix, e0);
    ExponentRange(e, radix, e0);
  }

  lemma ExponentRange(e: int, radix: nat, e0: int)
    requires radix >= 2 && FirstExponent(e, radix, e0) && -1073 <= e <= 1024
    ensures -1100 <= e0 <= 1100
  {
    hide Pow, Power;
    if e0 > 1100 {
      PowerBase(radix, e0 - 1);
      PowerStrict(2, e - 1, e0 - 1);
    } else if e0 < -1100 {
      PowerBase(radix, e0);
      PowerStrict(2, e0, e - 1);
    }
  }

  /** A larger base: larger powers, and smaller inverses. */
  lemma PowerBase(b: nat, e: int)
    requires b >= 2
    ensures if e >= 0 then Power(2, e) <= Power(b, e) else Power(b, e) <= Power(2, e)
  {
    hide Pow, Power;
    if e >= 0 {
      PowBase(2, b, e);
      PowerUp(2, e);
      PowerUp(b, e);
    } else {
      PowBase(2, b, -e);
      PowerDown(2, -e);
      PowerDown(b, -e);
      InverseOrder(Pow(2, -e) as real, Pow(b, -e) as real, Power(2, e), Power(b, e));
    }
  }

  lemma InverseOrder(x: real, y: real, u: real, v: real)
    requires 0.0 < x <= y && u * x == 1.0 && v * y == 1.0 && u > 0.0 && v > 0.0
    ensures v <= u
  {
    if v > u {
      RealStrict(u, v, x);
      RealOrder(x, y, v);
    }
  }

  lemma Found(m: nat, e: int, radix: nat, mant: nat, exp: int, p: nat, style: Style)
    requires 2 <= radix <= 36 && Converts(m, e, radix, mant, exp, p) && p <= MaxDigits(radix) && -1100 <= exp <= 1101
    ensures mant < B * B && Denotes(Printed(mant, exp, p, radix, style), radix, m, e)
  {
    hide Pow, Power, Number, ToDigit, Rounded, Text, Value, AllRead, Times, Printed;
    PrintedMeans(mant, exp, p, radix, style);
    PrintedRead(mant, exp, p, radix, style);
    MaxDigitsEnough(radix);
    PowMonotone(radix, p, MaxDigits(radix));
  }

  // ----- and a number again -----

  /** Printing any finite number other than zero in any radix and reading the text gives its bits
      back. */
  method Reread(neg: bool, a: nat, radix: nat, style: Style, printer: Bignum, reader: Bignum) returns (bits: nat)
    requires IsMagnitude(a) && 2 <= radix <= 36
    requires printer.tab.Length >= CAPACITY && reader.tab.Length >= CAPACITY
    modifies printer, printer.tab, reader, reader.tab
    ensures bits == Signed(neg, a)
  {
    hide Pow, Power, Number, ToDigit, Rounded, Unpack, Value, AllRead, Text64, Pack;
    var buf := new char[2200](_ => ' ');
    var q, n, _ := PrintNumber(buf, neg, a, radix, style, printer);
    var ok;
    ok, bits := ReadNumber(buf[..q], radix, reader, neg, n);
    ghost var b: nat :| bits == Signed(neg, b) && RoundsTo(Value(Kept(n, radix), radix), b);
    PackUnpack(a);
    KeptSame(n, radix);
    PositiveValue(n, radix);
    RoundsToOne(Value(n, radix), b, Unpack(a).0, Unpack(a).1);
  }
}
