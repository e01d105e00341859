/** `js_atod`: numerals of any radix become the nearest float64. */
module DtoaStrings {
  import opened Options
  import opened DtoaRounding
  import opened DtoaDivision
  import opened DtoaLimbs
  import opened DtoaBits
  import opened DtoaBignum
  import opened DtoaScaling
  import opened DtoaConvert
  import opened DtoaFloat
  import opened DtoaFree
  import opened DtoaCapacity
  import opened DtoaSearch
  import opened DtoaText
  import opened DtoaRead
  import opened DtoaDouble
  import opened DtoaParse
  import L = DtoaLogarithm

  // ----- what a numeral means -----

  /** Digits, the place of the point, and an exponent. */
  datatype Numeral = Numeral(ds: string, dot: Option<nat>, exp: Option<int>) {
    predicate Ok(radix: nat) {
      && ds != [] && AreDigits(ds, radix) && ds[0] != 'I' && (dot.Some? ==> dot.value <= |ds|)
      && (exp.Some? ==> -EXPONENT_LIMIT <= exp.value <= EXPONENT_LIMIT)
    }

    function Point(): nat { if dot.Some? then dot.value else |ds| }

    function Exponent(): int { if exp.Some? then exp.value else 0 }

    /** The exponent counts bits. */
    predicate Binary(radix: nat) { exp.Some? && 1 <= RadixBits(radix) <= 4 }

    function Tail(radix: nat): string { if exp.Some? then ExponentText(radix, exp.value) else [] }

    function Show(radix: nat): string
      requires dot.Some? ==> dot.value <= |ds|
    {
      Body(ds, dot) + Tail(radix)
    }
  }

  /** The number that a numeral stands for. */
  function Value(n: Numeral, radix: nat): real
    requires radix > 0
  {
    var x := Times(Number(n.ds, radix) as real, radix, n.Point() - |n.ds|);
    if n.Binary(radix) then Times(x, 2, n.Exponent()) else Times(x, radix, n.Exponent())
  }

  lemma PositiveValue(n: Numeral, radix: nat)
    requires radix > 0 && Number(n.ds, radix) > 0
    ensures Value(n, radix) > 0.0
  {
    hide Number, Power;
    var x := Times(Number(n.ds, radix) as real, radix, n.Point() - |n.ds|);
    PositiveProduct(Number(n.ds, radix) as real, Power(radix, n.Point() - |n.ds|));
    PositiveProduct(x, Power(2, n.Exponent()));
    PositiveProduct(x, Power(radix, n.Exponent()));
  }

  /** The digits that are read. */
  function Significant(n: Numeral, radix: nat): string
    requires 2 <= radix <= 36
  {
    var sig := n.ds[Zeros(n.ds)..];
    sig[..Min(|sig|, ReadDigits(radix))]
  }

  /** The digits that are left out. */
  function Rest(n: Numeral, radix: nat): string
    requires 2 <= radix <= 36
  {
    var sig := n.ds[Zeros(n.ds)..];
    sig[Min(|sig|, ReadDigits(radix))..]
  }

  /** Any digits that are not read are zeros. */
  predicate AllRead(n: Numeral, radix: nat)
    requires 2 <= radix <= 36
  {
    !SomeNonZero(Rest(n, radix))
  }

  lemma DigitsSplit(n: Numeral, radix: nat)
    requires 2 <= radix <= 36
    ensures n.ds[Zeros(n.ds)..] == Significant(n, radix) + Rest(n, radix)
    ensures |n.ds| == Zeros(n.ds) + |Significant(n, radix)| + |Rest(n, radix)|
    ensures Rest(n, radix) != [] ==> |Significant(n, radix)| == ReadDigits(radix)
    ensures |Significant(n, radix)| <= ReadDigits(radix)
  {
    hide Zeros, ReadDigits;
  }

  lemma {:induction false} LeadingZeros(ds: string, z: nat, radix: nat)
    requires z <= |ds| && forall i | 0 <= i < z :: ds[i] == '0'
    ensures Number(ds, radix) == Number(ds[z..], radix)
  {
    hide Number;
    if z == |ds| {
      assert ds[z..] == [];
      AllZeros(ds, radix);
      EmptyNumber(radix);
    } else {
      var n := |ds| - 1;
      LeadingZeros(ds[..n], z, radix);
      assert ds[..n][z..] == ds[z..][..n - z];
      NumberLast(ds, radix);
      NumberLast(ds[z..], radix);
    }
  }

  lemma NoneNonZero()
    ensures !SomeNonZero([])
  {
  }

  lemma EmptyNumber(radix: nat)
    ensures Number([], radix) == 0
  {
  }

  lemma {:induction false} AllZeros(ds: string, radix: nat)
    requires forall i | 0 <= i < |ds| :: ToDigit(ds[i]) == 0
    ensures Number(ds, radix) == 0
  {
    if ds != [] {
      AllZeros(ds[..|ds| - 1], radix);
    }
  }

  /** The digits that are read, moved to their place, are the whole number. */
  lemma SignificantIs(n: Numeral, radix: nat)
    requires 2 <= radix <= 36 && n.ds != [] && AllRead(n, radix)
    ensures var k := |n.ds| - Zeros(n.ds) - |Significant(n, radix)|;
            k >= 0 && Number(n.ds, radix) == Number(Significant(n, radix), radix) * Pow(radix, k)
  {
    hide Number, Pow, Zeros, Significant, Rest, SomeNonZero;
    DigitsSplit(n, radix);
    WholeNumber(n, radix);
    ZeroNumber(Rest(n, radix), radix);
  }

  /** What is read starts with a digit other than zero. */
  lemma SignificantSize(n: Numeral, radix: nat)
    requires 2 <= radix <= 36 && AreDigits(n.ds, radix)
    ensures var sig := Significant(n, radix);
            && AreDigits(sig, radix) && Number(sig, radix) < Pow(radix, |sig|)
            && (sig != [] ==> Pow(radix, |sig| - 1) <= Number(sig, radix))
  {
    hide Number, Pow, ToDigit, Zeros, ReadDigits;
    var sig, z := Significant(n, radix), Zeros(n.ds);
    forall i | 0 <= i < |sig| ensures ToDigit(sig[i]) < radix {
      assert sig[i] == n.ds[z + i];
    }
    NumberRoundTrip(sig, radix);
    if sig != [] {
      assert sig[0] == n.ds[z];
      NonZeroDigit(n.ds[z]);
      FirstDigit(sig, radix);
    }
  }

  lemma NonZeroDigit(c: char)
    ensures ToDigit(c) == 0 <==> c == '0'
  {
  }

  lemma {:induction false} FirstDigit(s: string, radix: nat)
    requires s != [] && ToDigit(s[0]) >= 1 && radix >= 1
    ensures Pow(radix, |s| - 1) <= Number(s, radix)
  {
    hide Number, Pow, ToDigit;
    var n := |s| - 1;
    NumberLast(s, radix);
    if n == 0 {
      PowStart(radix);
      assert s[..0] == [];
      EmptyNumber(radix);
    } else {
      FirstDigit(s[..n], radix);
      PowUp(radix, n - 1);
      Commute(radix, Pow(radix, n - 1));
      MulOrder(Pow(radix, n - 1), Number(s[..n], radix), radix);
    }
  }

  // ----- what is cut off -----

  function ZeroText(k: nat): string {
    seq(k, _ => '0')
  }

  /** The numeral that is read: unless the radix is a power of two, digits beyond the limit count as zeros. */
  function Kept(n: Numeral, radix: nat): Numeral
    requires 2 <= radix <= 36
  {
    if RadixBits(radix) != 0 then n
    else Numeral(n.ds[..Zeros(n.ds) + |Significant(n, radix)|] + ZeroText(|Rest(n, radix)|), n.dot, n.exp)
  }

  lemma KeptParts(n: Numeral, radix: nat)
    requires 2 <= radix <= 36 && RadixBits(radix) == 0
    ensures var k := Kept(n, radix);
            && |k.ds| == |n.ds| && Zeros(k.ds) == Zeros(n.ds) && Significant(k, radix) == Significant(n, radix) && AllRead(k, radix)
            && |Rest(k, radix)| == |Rest(n, radix)|
  {
    hide Zeros, ReadDigits, ToDigit;
    DigitsSplit(n, radix);
    var k, z, c := Kept(n, radix), Zeros(n.ds), |Significant(n, radix)|;
    if c == 0 {
      NoneRead(n, radix);
      assert k.ds == n.ds;
    } else {
      assert k.ds[z] == n.ds[z];
      ZerosAre(k.ds, z);
    }
    assert k.ds[z..] == Significant(n, radix) + ZeroText(|Rest(n, radix)|);
    assert Rest(k, radix) == ZeroText(|Rest(n, radix)|);
    NonZeroDigit('0');
  }

  lemma NoneRead(n: Numeral, radix: nat)
    requires 2 <= radix <= 36 && Significant(n, radix) == []
    ensures Rest(n, radix) == []
  {
  }

  /** What is cut off is less than a unit of the last digit that is read. */
  lemma KeptClose(n: Numeral, radix: nat)
    requires 2 <= radix <= 36 && RadixBits(radix) == 0 && AreDigits(n.ds, radix)
    ensures var v := Number(Kept(n, radix).ds, radix); v <= Number(n.ds, radix) < v + Pow(radix, |Rest(n, radix)|)
  {
    hide Number, Pow, Significant, Rest, Kept, AllRead, Zeros, ToDigit;
    KeptParts(n, radix);
    WholeNumber(n, radix);
    WholeNumber(Kept(n, radix), radix);
    RestZero(Kept(n, radix), radix);
    RestSize(n, radix);
  }

  lemma RestZero(n: Numeral, radix: nat)
    requires 2 <= radix <= 36 && AllRead(n, radix)
    ensures Number(Rest(n, radix), radix) == 0
  {
    hide Number, Rest;
    ZeroNumber(Rest(n, radix), radix);
  }

  lemma RestSize(n: Numeral, radix: nat)
    requires 2 <= radix <= 36 && AreDigits(n.ds, radix)
    ensures Number(Rest(n, radix), radix) < Pow(radix, |Rest(n, radix)|)
  {
    hide Number, Pow, ToDigit, Zeros, ReadDigits;
    var r := Rest(n, radix);
    forall i | 0 <= i < |r| ensures ToDigit(r[i]) < radix {
      assert r[i] == n.ds[|n.ds| - |r| + i];
    }
    NumberRoundTrip(r, radix);
  }

  /** Nothing changes if all the digits are read. */
  lemma KeptSame(n: Numeral, radix: nat)
    requires 2 <= radix <= 36 && AllRead(n, radix)
    ensures Number(Kept(n, radix).ds, radix) == Number(n.ds, radix) && Value(Kept(n, radix), radix) == Value(n, radix)
  {
    hide Number, Pow, Times, Significant, Rest, AllRead, Zeros;
    if RadixBits(radix) == 0 {
      KeptParts(n, radix);
      WholeNumber(n, radix);
      WholeNumber(Kept(n, radix), radix);
      RestZero(Kept(n, radix), radix);
      RestZero(n, radix);
      SameValue(Kept(n, radix), n, radix);
    }
  }

  lemma SameValue(k: Numeral, n: Numeral, radix: nat)
    requires 2 <= radix <= 36 && |k.ds| == |n.ds| && Number(k.ds, radix) == Number(n.ds, radix) && k.dot == n.dot && k.exp == n.exp
    ensures Value(k, radix) == Value(n, radix)
  {
    hide Number, Times;
  }

  // ----- values as products -----

  lemma TimesPlus(x: real, b: nat, f: int, g: int, h: int)
    requires b > 0 && h == f + g
    ensures Times(Times(x, b, f), b, g) == Times(x, b, h)
  {
    hide Power;
    PowerPlus(b, f, g);
    AssociateReal(x, Power(b, f), Power(b, g));
  }

  lemma TimesPow(v: nat, b: nat, k: nat)
    requires b > 0
    ensures Times(v as real, b, k) == (v * Pow(b, k)) as real
  {
    hide Pow, Power;
    PowerUp(b, k);
    RealProduct(v, Pow(b, k));
  }

  lemma TimesBits(x: real, radix: nat, f: int)
    requires 2 <= radix <= 36 && RadixBits(radix) != 0
    ensures Times(x, radix, f) == Times(x, 2, RadixBits(radix) * f)
  {
    hide Power;
    L.BinaryPower(radix, f);
  }

  /** The value of a numeral in a radix that is not a power of two. */
  lemma PlainValue(n: Numeral, radix: nat, expn: int)
    requires 2 <= radix <= 36 && RadixBits(radix) == 0 && n.ds != [] && AllRead(n, radix)
    requires expn == n.Exponent() - (Zeros(n.ds) + |Significant(n, radix)| - n.Point())
    ensures Value(n, radix) == Times(Number(Significant(n, radix), radix) as real, radix, expn)
  {
    hide Number, Power, Pow, Times, Significant, Zeros;
    var d := Number(Significant(n, radix), radix);
    var k := |n.ds| - Zeros(n.ds) - |Significant(n, radix)|;
    SignificantIs(n, radix);
    TimesPow(d, radix, k);
    var f := n.Point() - |n.ds|;
    TimesPlus(d as real, radix, k, f, k + f);
    TimesPlus(d as real, radix, k + f, n.Exponent(), expn);
  }

  /** All the digits from the first that is not zero on, with the point behind those that are read. */
  function Scaled64(n: Numeral, radix: nat): real
    requires 2 <= radix <= 36
  {
    Times(Number(n.ds, radix) as real, radix, Zeros(n.ds) + |Significant(n, radix)| - |n.ds|)
  }

  /** The value of a numeral in a radix 2^bits. */
  lemma BinaryValue(n: Numeral, radix: nat, expn: int)
    requires 2 <= radix <= 36 && RadixBits(radix) != 0 && n.ds != []
    requires var bits := RadixBits(radix);
             expn == (if n.Binary(radix) then n.Exponent() else n.Exponent() * bits)
                     - (Zeros(n.ds) + |Significant(n, radix)| - n.Point()) * bits
    ensures Value(n, radix) == Times(Scaled64(n, radix), 2, expn)
  {
    hide Number, Power, Pow, Times, Significant, Zeros, RadixBits;
    var bits, v := RadixBits(radix), Number(n.ds, radix) as real;
    var g, f := Zeros(n.ds) + |Significant(n, radix)| - |n.ds|, n.Point() - |n.ds|;
    TimesBits(v, radix, g);
    TimesBits(v, radix, f);
    TimesPlus(v, 2, bits * g, expn, bits * g + expn);
    var x := if n.Binary(radix) then n.Exponent() else bits * n.Exponent();
    if !n.Binary(radix) {
      TimesBits(Times(v, radix, f), radix, n.Exponent());
    }
    TimesPlus(v, 2, bits * f, x, bits * f + x);
    assert bits * g + expn == bits * f + x by {
      Spread(bits, Zeros(n.ds) + |Significant(n, radix)|, |n.ds|, n.Point());
      assert n.Exponent() * bits == bits * n.Exponent();
    }
  }

  lemma Spread(b: int, a: int, l: int, p: int)
    ensures b * (a - l) - (a - p) * b == b * (p - l)
  {
  }

  /** What is read, with a sticky bit for the rest, is the scaled value cut to an integer; and if
      there is a rest, what is read has 55 bits in front of the last. */
  lemma ScaledSticky(n: Numeral, radix: nat)
    requires 2 <= radix <= 36 && RadixBits(radix) != 0 && n.ds != [] && AreDigits(n.ds, radix)
    ensures var d := Number(Significant(n, radix), radix);
            && Scaled64(n, radix) >= 0.0
            && (AllRead(n, radix) ==> Scaled64(n, radix) == d as real)
            && (!AllRead(n, radix) ==> Sticky(Scaled64(n, radix)) == d - d % 2 + 1 && d >= Pow(2, 55))
  {
    hide Number, Power, Pow, Times, Zeros, ToDigit, RadixBits, AllRead, Significant, Scaled64, ReadDigits, Sticky;
    var v, d, r, p, k := ReadParts(n, radix);
    ScaledTimes(n, radix, k);
    ScaledIs(v, d, r, p, radix, k, Scaled64(n, radix));
    if !AllRead(n, radix) {
      SignificantSize(n, radix);
      EnoughRead(radix, |Significant(n, radix)|);
    }
  }

  /** The digits that are read, the others, and the weight of the last that is read. */
  lemma ReadParts(n: Numeral, radix: nat) returns (v: nat, d: nat, r: nat, p: nat, k: int)
    requires 2 <= radix <= 36 && n.ds != [] && AreDigits(n.ds, radix)
    ensures k >= 0 && d == Number(Significant(n, radix), radix) && p == Pow(radix, k) && r < p && v == d * p + r
    ensures v == Number(n.ds, radix) && |n.ds| == Zeros(n.ds) + |Significant(n, radix)| + k
    ensures r == 0 <==> AllRead(n, radix)
    ensures !AllRead(n, radix) ==> |Significant(n, radix)| == ReadDigits(radix)
  {
    hide Number, Pow, Zeros, ToDigit, SomeNonZero, ReadDigits, Significant, Rest, AreDigits;
    DigitsSplit(n, radix);
    WholeNumber(n, radix);
    RestDigits(n, radix);
    NoneNonZero();
    k := |Rest(n, radix)|;
    v, d, r, p := Number(n.ds, radix), Number(Significant(n, radix), radix), Number(Rest(n, radix), radix), Pow(radix, k);
  }

  lemma WholeNumber(n: Numeral, radix: nat)
    requires 2 <= radix <= 36
    ensures Number(n.ds, radix) ==
            Number(Significant(n, radix), radix) * Pow(radix, |Rest(n, radix)|) + Number(Rest(n, radix), radix)
  {
    hide Number, Pow, Significant, Rest;
    DigitsSplit(n, radix);
    LeadingZeros(n.ds, Zeros(n.ds), radix);
    SplitNumber(Significant(n, radix), Rest(n, radix), radix);
  }

  lemma ScaledTimes(n: Numeral, radix: nat, k: int)
    requires 2 <= radix <= 36 && |n.ds| == Zeros(n.ds) + |Significant(n, radix)| + k
    ensures Scaled64(n, radix) == Times(Number(n.ds, radix) as real, radix, -k)
  {
    hide Number, Times, Zeros, Significant;
  }

  lemma {:induction false} SplitNumber(s: string, t: string, radix: nat)
    ensures Number(s + t, radix) == Number(s, radix) * Pow(radix, |t|) + Number(t, radix)
  {
    hide Number, Pow, ToDigit;
    if t == [] {
      assert s + t == s;
      PowStart(radix);
      EmptyNumber(radix);
    } else {
      var n := |t| - 1;
      SplitNumber(s, t[..n], radix);
      assert (s + t)[..|s| + n] == s + t[..n];
      NumberLast(s + t, radix);
      NumberLast(t, radix);
      PowUp(radix, n);
      Joined(Number(s, radix), Pow(radix, n), radix, Number(t[..n], radix));
    }
  }

  lemma Joined(x: int, p: int, radix: int, y: int)
    ensures (x * p + y) * radix == x * (radix * p) + y * radix
  {
    assert x * p * radix == x * (radix * p);
  }

  lemma RestDigits(n: Numeral, radix: nat)
    requires 2 <= radix <= 36 && AreDigits(n.ds, radix)
    ensures var rest := Rest(n, radix);
            Number(rest, radix) < Pow(radix, |rest|) && (Number(rest, radix) == 0 <==> !SomeNonZero(rest))
  {
    hide Number, Pow, ToDigit, Zeros, ReadDigits, SomeNonZero;
    var rest, sig := Rest(n, radix), n.ds[Zeros(n.ds)..];
    var c := Min(|sig|, ReadDigits(radix));
    forall i | 0 <= i < |rest| ensures ToDigit(rest[i]) < radix {
      assert rest[i] == sig[c..][i] == n.ds[Zeros(n.ds) + (c + i)];
    }
    NumberRoundTrip(rest, radix);
    ZeroNumber(rest, radix);
  }

  lemma {:induction false} ZeroNumber(s: string, radix: nat)
    requires radix > 0
    ensures Number(s, radix) == 0 <==> !SomeNonZero(s)
  {
    hide Number, ToDigit, SomeNonZero;
    if s == [] {
      EmptyNumber(radix);
      NoneNonZero();
    } else {
      var t, c := s[..|s| - 1], s[|s| - 1];
      ZeroNumber(t, radix);
      NumberLast(s, radix);
      assert s == t + [c];
      OneMoreExtra(t, c);
      if Number(t, radix) > 0 {
        MulOrder(1, Number(t, radix), radix);
      }
    }
  }

  lemma ScaledIs(v: nat, d: nat, r: nat, p: nat, radix: nat, k: int, x: real)
    requires radix > 0 && k >= 0 && p == Pow(radix, k) && r < p && v == d * p + r && x == Times(v as real, radix, -k)
    ensures x >= 0.0 && (if r == 0 then x == d as real else Sticky(x) == d - d % 2 + 1)
  {
    hide Pow, Power;
    var q, y := p as real, Power(radix, -k);
    PowerDown(radix, k);
    RealProduct(d, p);
    var f := x - d as real;
    assert x == (d as real * q + r as real) * y;
    Peel(d as real, q, r as real, y, x, f);
    UnitFactor(f, r as real, q);
    FloorIs(x, d);
    if r == 0 {
      ZeroFactor(f, q);
    }
  }

  lemma Peel(d: real, q: real, r: real, y: real, x: real, f: real)
    requires y * q == 1.0 && x == (d * q + r) * y && f == x - d
    ensures f * q == r
  {
    assert x * q == (d * q + r) * (y * q);
    assert (x - d) * q == x * q - d * q;
  }

  /** 55 bits are read before any digit is left out. */
  lemma EnoughRead(radix: nat, c: nat)
    requires 2 <= radix <= 36 && RadixBits(radix) != 0 && c == ReadDigits(radix)
    ensures c >= 1 && Pow(radix, c - 1) >= Pow(2, 55)
  {
    hide Pow;
    BinaryRadix(radix, c - 1);
    PowMonotone(2, 55, RadixBits(radix) * (c - 1));
  }

  // ----- reading -----

  /** Above these powers of the radix every number is infinite (`max_exponent`). */
  const MAX_EXPONENT: seq<int> :=
    [1024, 647, 512, 442, 397, 365, 342, 324, 309, 297, 286, 277, 269, 263, 256, 251, 246, 242, 237, 234, 230, 227, 224,
     221, 218, 216, 214, 211, 209, 207, 205, 203, 202, 200, 199]

  /** Below these powers of the radix every number is zero (`min_exponent`). */
  const MIN_EXPONENT: seq<int> :=
    [-1075, -679, -538, -463, -416, -383, -359, -340, -324, -311, -300, -291, -283, -276, -269, -263, -258, -254, -249,
     -245, -242, -238, -235, -232, -229, -227, -224, -222, -220, -217, -215, -214, -212, -210, -208]

  lemma BinaryExponents(radix: nat)
    requires 2 <= radix <= 36 && RadixBits(radix) != 0
    ensures RadixBits(radix) * MIN_EXPONENT[radix - 2] <= -1075 && 1024 <= RadixBits(radix) * MAX_EXPONENT[radix - 2]
  {
  }

  lemma HighExponents(radix: nat)
    requires 2 <= radix <= 36
    ensures 1024 * L.INVERSE_LOGS[radix - 2] < MAX_EXPONENT[radix - 2] * L.TWO24 && 0 < MAX_EXPONENT[radix - 2]
  {
    var mult: int, n: int := L.INVERSE_LOGS[radix - 2], MAX_EXPONENT[radix - 2];
    hide L.INVERSE_LOGS, MAX_EXPONENT;
  }

  lemma LowExponents(radix: nat)
    requires 2 <= radix <= 36
    ensures 1075 * L.INVERSE_LOGS[radix - 2] < -MIN_EXPONENT[radix - 2] * L.TWO24 && MIN_EXPONENT[radix - 2] < 0
  {
    var mult: int, n: int := L.INVERSE_LOGS[radix - 2], MIN_EXPONENT[radix - 2];
    hide L.INVERSE_LOGS, MIN_EXPONENT;
  }

  /** The powers of the radix at which reading gives up are beyond all float64 numbers. */
  lemma ExponentsBeyond(radix: nat)
    requires 2 <= radix <= 36
    ensures Power(2, 1024) <= Power(radix, MAX_EXPONENT[radix - 2]) && Power(radix, MIN_EXPONENT[radix - 2]) <= Power(2, -1075)
  {
    hide Pow, Power;
    var high, low := MAX_EXPONENT[radix - 2], MIN_EXPONENT[radix - 2];
    hide MAX_EXPONENT, MIN_EXPONENT, L.INVERSE_LOGS;
    if RadixBits(radix) != 0 {
      BinaryExponents(radix);
      L.BinaryPower(radix, high);
      L.BinaryPower(radix, low);
      PowerMonotone(2, 1024, RadixBits(radix) * high);
      PowerMonotone(2, RadixBits(radix) * low, -1075);
    } else {
      HighExponents(radix);
      LowExponents(radix);
      PlainExponents(radix, high, -low);
    }
  }

  lemma PlainExponents(radix: nat, high: int, low: int)
    requires 2 <= radix <= 36 && RadixBits(radix) == 0 && 0 < high && 0 < low
    requires 1024 * L.INVERSE_LOGS[radix - 2] < high * L.TWO24 && 1075 * L.INVERSE_LOGS[radix - 2] < low * L.TWO24
    ensures Power(2, 1024) <= Power(radix, high) && Power(radix, -low) <= Power(2, -1075)
  {
    hide Pow, Power;
    var mult := L.INVERSE_LOGS[radix - 2];
    var (h1, k1, h2, k2) := L.NEIGHBOURS[radix - 2];
    L.TableCertified(radix);
    L.Decides(radix, mult, h1, k1, h2, k2, 1024, high);
    L.Decides(radix, mult, h1, k1, h2, k2, 1075, low);
    PowerUp(2, 1024);
    PowerUp(radix, high);
    L.Flipped(2, 1075, radix, low);
  }

  const SIGN := 0x8000_0000_0000_0000

  lemma TooLarge(x: real)
    requires x >= Power(2, 1024)
    ensures RoundsTo(x, INFINITY)
  {
    hide Pow, Power, Rounded, Pack;
    var m, e := RoundedTotal(NearestEven, x);
    LargeRounded(x, m, e);
  }

  lemma TooSmall(x: real)
    requires 0.0 < x < Power(2, -1075)
    ensures RoundsTo(x, 0)
  {
    hide Pow, Power, Rounded, Pack;
    var m, e := RoundedTotal(NearestEven, x);
    SmallRounded(x, m, e);
  }

  lemma SmallRounded(x: real, m: nat, e: int)
    requires 0.0 < x < Power(2, -1075) && Rounded(NearestEven, x, m, e)
    ensures Pack(m, e) == 0
  {
    hide Pow, Power, Round, Units, Shifted, Float;
    var b :| InBinade(x, b) && (var k := Round(NearestEven, Units(x, b));
                                if k == 0 then m == 0
                                else k > 0 && Pow(2, 52) <= m < Pow(2, 53) && Float(m, e) == Shifted(k, Quantum(b)));
    PowerOrder(2, b - 1, -1075);
    UnitsBound(NearestEven, x, b, b - Quantum(b));
  }

  /** All the digits that are read take five limbs. */
  lemma DigitsRead(radix: nat)
    requires 2 <= radix <= 36
    ensures ReadDigits(radix) <= 5 * DigitsPerLimb(radix)
  {
  }

  lemma FewLimbs(a: Bignum, radix: nat, count: nat)
    requires 2 <= radix <= 36 && a.Valid() && a.Normal() && a.Value() < Pow(radix, count) && count <= ReadDigits(radix)
    ensures a.len <= 5
  {
    hide Pow, Val, ReadDigits, DigitsPerLimb;
    var d := DigitsPerLimb(radix);
    DigitsRead(radix);
    LimbFits(radix, d);
    PowMonotone(radix, count, d * 5);
    PowPow(radix, d, 5);
    PowBase(Pow(radix, d), B, 5);
    TopLimb(a.tab[..a.len]);
    if a.len > 5 {
      PowMonotone(B, 5, a.len - 1);
    }
  }

  /** The powers that reading scales by. */
  lemma UpTable(radix: nat)
    requires 2 <= radix <= 36
    ensures MAX_EXPONENT[radix - 2] <= 45 * DigitsPerLimb(radix)
  {
    var n: int, d: int := MAX_EXPONENT[radix - 2], DIGITS_PER_LIMB[radix - 2];
    hide MAX_EXPONENT, DIGITS_PER_LIMB;
  }

  lemma DownTable(radix: nat)
    requires 2 <= radix <= 36 && radix != 24
    ensures -MIN_EXPONENT[radix - 2] + ReadDigits(radix) - 1 <= 43 * DigitsPerLimb(radix)
  {
    var n: int, c: int, d: int := MIN_EXPONENT[radix - 2], READ_DIGITS[radix - 2], DIGITS_PER_LIMB[radix - 2];
    hide MIN_EXPONENT, READ_DIGITS, DIGITS_PER_LIMB;
  }

  lemma DownOf24()
    ensures -MIN_EXPONENT[22] + ReadDigits(24) - 1 <= 43 * DigitsPerLimb(12)
  {
  }

  /** The buffer of the source holds the digits read and every product that scaling them computes. */
  lemma ScaleFits(radix: nat, radix1: nat, radixShift: nat, f: int)
    requires Splits(radix, radix1, radixShift) && RadixBits(radix) == 0
    requires MIN_EXPONENT[radix - 2] - ReadDigits(radix) < f <= MAX_EXPONENT[radix - 2]
    ensures 5 + Growth(radix1, radixShift, f, false, 55) + 2 <= CAPACITY
  {
    hide Pow, Chunks, DigitsPerLimb, ReadDigits, MAX_EXPONENT, MIN_EXPONENT, RadixBits;
    OddParts(radix, radix1, radixShift);
    UpTable(radix);
    DigitsOrder(radix1, radix);
    var d := DigitsPerLimb(radix1);
    if f >= 0 {
      ChunksAtMost(f, d, 45);
    } else {
      if radix == 24 {
        EvenShift(radix, radix1, radixShift);
        DownOf24();
        DigitsOrder(radix1, 12);
      } else {
        DownTable(radix);
      }
      ChunksAtMost(-f, d, 43);
      ChunksOfLimbs(56, 2);
    }
  }

  lemma EvenShift(radix: nat, radix1: nat, radixShift: nat)
    requires Splits(radix, radix1, radixShift) && radix % 2 == 0
    ensures radixShift > 0
  {
    PowStart(2);
  }

  /** The number for a radix that is not a power of two. */
  method ConvertPlain(tmp: Bignum, ghost d: nat, count: nat, expn: int, radix: nat, radix1: nat, radixShift: nat) returns (bits: nat)
    requires Splits(radix, radix1, radixShift) && RadixBits(radix) == 0
    requires tmp.Valid() && tmp.Normal() && tmp.Value() == d && tmp.tab.Length >= CAPACITY
    requires 1 <= count <= ReadDigits(radix) && Pow(radix, count - 1) <= d < Pow(radix, count)
    modifies tmp, tmp.tab
    ensures RoundsTo(Times(d as real, radix, expn), bits)
  {
    hide Pow, Power, Times, Val, RoundsTo, Rounded, Exact, Growth, Radix, DigitsPerLimb, ReadDigits, Pack;
    ghost var x := Times(d as real, radix, expn);
    var expn1 := expn + count;
    PowerBounds(d, count, expn, radix);
    ExponentsBeyond(radix);
    if expn1 >= MAX_EXPONENT[radix - 2] + 1 {
      PowerMonotone(radix, MAX_EXPONENT[radix - 2], expn1 - 1);
      TooLarge(x);
      return INFINITY;
    } else if expn1 <= MIN_EXPONENT[radix - 2] {
      PowerMonotone(radix, expn1, MIN_EXPONENT[radix - 2]);
      TooSmall(x);
      return 0;
    }
    FewLimbs(tmp, radix, count);
    ScaleFits(radix, radix1, radixShift, expn);
    ExactTimes(d, 0, radix1, radixShift, expn);
    var m, e := MulPowRoundToFloat(tmp, radix1, radixShift, expn, NearestEven);
    RoundsToPack(x, m, e);
    bits := Pack(m, e);
  }

  lemma PowerBounds(d: nat, count: nat, expn: int, radix: nat)
    requires radix >= 1 && count >= 1 && Pow(radix, count - 1) <= d < Pow(radix, count)
    ensures 0.0 < Power(radix, expn + count - 1) <= Times(d as real, radix, expn) < Power(radix, expn + count)
  {
    hide Pow, Power;
    PowerUp(radix, count - 1);
    PowerUp(radix, count);
    PowerPlus(radix, count - 1, expn);
    PowerPlus(radix, count, expn);
    assert count - 1 + expn == expn + count - 1 && count + expn == expn + count;
    ProductBounds(Pow(radix, count - 1) as real, d as real, Pow(radix, count) as real, Power(radix, expn), Times(d as real, radix, expn),
                  Power(radix, expn + count - 1), Power(radix, expn + count));
  }

  lemma ProductBounds(lo: real, d: real, hi: real, c: real, x: real, l: real, h: real)
    requires lo <= d < hi && c > 0.0 && x == d * c && l == lo * c && h == hi * c
    ensures l <= x < h
  {
    RealOrder(lo, d, c);
    RealStrict(d, hi, c);
  }

  /** The number for a radix 2^bits; `extra` tells whether digits other than zero were left out. */
  method ConvertBinary(tmp: Bignum, extra: bool, count: nat, expn: int, radix: nat, ghost n: Numeral) returns (bits: nat)
    requires 2 <= radix <= 36 && RadixBits(radix) != 0 && n.ds != [] && AreDigits(n.ds, radix)
    requires tmp.Valid() && tmp.Normal() && tmp.len + 2 <= tmp.tab.Length
    requires count == |Significant(n, radix)| && count >= 1 && tmp.Value() == Number(Significant(n, radix), radix)
    requires extra == !AllRead(n, radix)
    modifies tmp, tmp.tab
    ensures RoundsTo(Times(Scaled64(n, radix), 2, expn), bits)
  {
    hide Pow, Power, Times, Val, RoundsTo, Rounded, Number, Significant, AllRead, Scaled64, RadixBits, Sticky, Pack, Shifted;
    ghost var d, x := tmp.Value(), Scaled64(n, radix);
    ScaledSticky(n, radix);
    SignificantSize(n, radix);
    ScaledBounds(n, radix, expn);
    if extra {
      SetLowBit(tmp);
    }
    var expn1 := expn + count * RadixBits(radix);
    if expn1 >= 1024 + RadixBits(radix) {
      PowerMonotone(2, 1024, expn1 - RadixBits(radix));
      TooLarge(Times(x, 2, expn));
      return INFINITY;
    } else if expn1 <= -1075 {
      PowerMonotone(2, expn1, -1075);
      TooSmall(Times(x, 2, expn));
      return 0;
    }
    ghost var w := tmp.Value();
    var m, e := RoundToFloat(tmp, -expn, NearestEven);
    BinaryRounded(w, x, expn, m, e);
    RoundsToPack(Times(x, 2, expn), m, e);
    bits := Pack(m, e);
  }

  lemma BinaryRounded(w: nat, x: real, expn: int, m: nat, e: int)
    requires x >= 0.0 && (w as real == x || (w == Sticky(x) && w >= Pow(2, 55)))
    requires Rounded(NearestEven, Shifted(w, -(-expn)), m, e)
    ensures Rounded(NearestEven, Times(x, 2, expn), m, e)
  {
    hide Pow, Power, Rounded, Sticky;
    var y, z := Times(x, 2, expn), Shifted(w, -(-expn));
    assert z == w as real * Power(2, expn);
    if w as real == x {
      assert y == z;
    } else {
      RoundedSticky(NearestEven, w, x, -expn, y, z, m, e);
    }
  }

  lemma ScaledBounds(n: Numeral, radix: nat, expn: int)
    requires 2 <= radix <= 36 && RadixBits(radix) != 0 && n.ds != [] && AreDigits(n.ds, radix) && |Significant(n, radix)| >= 1
    ensures var bits, c := RadixBits(radix), |Significant(n, radix)|;
            0.0 < Power(2, expn + c * bits - bits) <= Times(Scaled64(n, radix), 2, expn) < Power(2, expn + c * bits)
  {
    hide Pow, Power, Number, Significant, Times, Scaled64, Zeros, RadixBits;
    var bits, c := RadixBits(radix), |Significant(n, radix)|;
    var v, d, r, p, k := ReadParts(n, radix);
    ScaledTimes(n, radix, k);
    SignificantSize(n, radix);
    BoundedParts(d, r, p, radix, c, k);
    PowerBounds(v, c + k, -k, radix);
    assert -k + (c + k) == c;
    L.BinaryPower(radix, c - 1);
    L.BinaryPower(radix, c);
    TimesPowers(Scaled64(n, radix), bits * (c - 1), bits * c, expn);
    assert bits * (c - 1) + expn == expn + c * bits - bits && bits * c + expn == expn + c * bits;
  }

  lemma TimesPowers(x: real, lo: int, hi: int, expn: int)
    requires Power(2, lo) <= x < Power(2, hi)
    ensures Power(2, lo + expn) <= Times(x, 2, expn) < Power(2, hi + expn)
  {
    hide Power;
    PowerPlus(2, lo, expn);
    PowerPlus(2, hi, expn);
    ProductBounds(Power(2, lo), x, Power(2, hi), Power(2, expn), Times(x, 2, expn), Power(2, lo + expn), Power(2, hi + expn));
  }

  lemma BoundedParts(d: nat, r: nat, p: nat, radix: nat, c: nat, k: nat)
    requires p == Pow(radix, k) && r < p && c >= 1 && Pow(radix, c - 1) <= d < Pow(radix, c)
    ensures Pow(radix, c + k - 1) <= d * p + r < Pow(radix, c + k)
  {
    hide Pow;
    PowPlus(radix, c - 1, k);
    PowPlus(radix, c, k);
    assert c - 1 + k == c + k - 1;
    MulOrder(Pow(radix, c - 1), d, p);
    MulOrder(d + 1, Pow(radix, c), p);
    assert (d + 1) * p == d * p + p;
  }

  /** The odd part of the radix, and the power of two. */
  function OddPart(radix: nat): (nat, nat)
    requires radix > 0
  {
    if radix % 2 == 1 then (radix, 0)
    else
      var (odd, shift) := OddPart(radix / 2);
      (odd, shift + 1)
  }

  lemma {:induction false} OddPartIs(radix: nat)
    requires radix > 0
    ensures var (odd, shift) := OddPart(radix); odd % 2 == 1 && odd > 0 && odd <= radix && radix == odd * Pow(2, shift)
  {
    hide Pow;
    if radix % 2 == 1 {
      PowStart(2);
    } else {
      OddPartIs(radix / 2);
      var (odd, shift) := OddPart(radix / 2);
      PowUp(2, shift);
      assert odd * (2 * Pow(2, shift)) == 2 * (odd * Pow(2, shift));
    }
  }

  lemma OddPartSplits(radix: nat)
    requires 2 <= radix <= 36
    ensures var (odd, shift) := OddPart(radix); Splits(radix, odd, shift)
  {
    OddPartIs(radix);
  }

  /** A sign in front of a magnitude. */
  function Signed(neg: bool, bits: nat): nat {
    if neg then SIGN + bits else bits
  }

  /** The text of a number. */
  function Text64(neg: bool, n: Numeral, radix: nat): string
    requires n.Ok(radix)
  {
    (if neg then ['-'] else []) + n.Show(radix)
  }

  const INFINITY_TEXT := "Infinity"

  predicate StartsInfinity(s: string, p: nat) {
    p + 8 <= |s| && s[p..p + 8] == INFINITY_TEXT
  }

  /** `js_atod`, without prefixes and separators, on the text of a number */
  method ReadNumber(s: string, radix: nat, tmp: Bignum, ghost neg: bool, ghost n: Numeral) returns (ok: bool, bits: nat)
    requires 2 <= radix <= 36 && n.Ok(radix) && s == Text64(neg, n, radix)
    requires tmp.tab.Length >= CAPACITY
    modifies tmp, tmp.tab
    ensures ok && (Number(n.ds, radix) == 0 ==> bits == Signed(neg, 0))
    ensures Number(n.ds, radix) != 0 ==>
              var x := Value(Kept(n, radix), radix); exists b: nat :: bits == Signed(neg, b) && IsNearest(b, x) && RoundsTo(x, b)
  {
    hide Number, Pow, Power, Times, Zeros, AllRead, IsNearest, RoundsTo, Value, Body, ToDigit, OddPart;
    hide ExponentText, Placed;
    var p := if At(s, 0) == '+' || At(s, 0) == '-' then 1 else 0;
    var negative := At(s, 0) == '-';
    TextStart(s, radix, neg, n);
    var magnitude := INFINITY;
    ok := true;
    if !StartsInfinity(s, p) {
      ok, magnitude := ReadMagnitude(s, p, radix, tmp, n);
    }
    if Number(n.ds, radix) != 0 {
      KeptPositive(n, radix);
      PositiveValue(Kept(n, radix), radix);
      RoundsToNearest(Value(Kept(n, radix), radix), magnitude);
    }
    bits := Signed(negative, magnitude);
  }

  method ReadMagnitude(s: string, p: nat, radix: nat, tmp: Bignum, ghost n: Numeral) returns (ok: bool, bits: nat)
    requires 2 <= radix <= 36 && n.Ok(radix) && p <= |s| && s[p..] == n.Show(radix)
    requires Placed(s, p, n.ds, n.dot, n.Tail(radix))
    requires tmp.tab.Length >= CAPACITY
    modifies tmp, tmp.tab
    ensures ok && if Number(n.ds, radix) == 0 then bits == 0 else RoundsTo(Value(Kept(n, radix), radix), bits)
  {
    hide Number, Pow, Power, Times, Zeros, Significant, Rest, AllRead, RoundsTo, Value, ReadDigits, DigitsPerLimb, Val, Body, ToDigit;
    hide OddPart, ExponentText, SomeNonZero, Placed, Passed, AreDigits;
    OddPartSplits(radix);
    var (radix1, radixShift) := OddPart(radix);
    TextStops(radix, n);
    RoomToRead(radix);
    ClearNumber(tmp);
    var sigPos, pos, dotPos, count, extra, next := ReadDigitsOf(s, p, radix, tmp, n);
    TextTail(s, p, radix, n, next);
    ghost var letter := next;
    var expn, binary, overflow;
    ghost var digits;
    LetterHere(s, next, radix, n.exp);
    ok, expn, binary, overflow, next, digits := ReadExponent(s, next, radix);
    if n.exp.Some? {
      ExponentReads(s, letter, radix, n.exp.value, digits);
    }
    if count == 0 {
      NothingSignificant(n, radix);
      return ok, 0;
    }
    SomethingSignificant(n, radix);
    if dotPos < 0 {
      dotPos := pos;
    }
    bits := Convert(tmp, extra, count, sigPos + count - dotPos, expn, binary, radix, radix1, radixShift, n);
  }

  lemma KeptPositive(n: Numeral, radix: nat)
    requires 2 <= radix <= 36 && n.Ok(radix) && Number(n.ds, radix) > 0
    ensures Number(Kept(n, radix).ds, radix) > 0
  {
    hide Number, Pow, Significant, Rest, Zeros, AllRead;
    if RadixBits(radix) == 0 {
      KeptParts(n, radix);
      if |Significant(n, radix)| == 0 {
        NothingSignificant(n, radix);
      }
      SignificantSize(n, radix);
      WholeNumber(Kept(n, radix), radix);
      SumIsZero(Number(Rest(Kept(n, radix), radix), radix), Number(Significant(n, radix), radix), Pow(radix, |Rest(n, radix)|));
    }
  }

  lemma SomethingSignificant(n: Numeral, radix: nat)
    requires 2 <= radix <= 36 && n.Ok(radix) && |Significant(n, radix)| > 0
    ensures Number(n.ds, radix) > 0
  {
    hide Number, Pow, Significant, Rest, Zeros;
    SignificantSize(n, radix);
    WholeNumber(n, radix);
    SumIsZero(Number(Rest(n, radix), radix), Number(Significant(n, radix), radix), Pow(radix, |Rest(n, radix)|));
  }

  /** Both loops over the digits. */
  method ReadDigitsOf(s: string, p: nat, radix: nat, tmp: Bignum, ghost n: Numeral)
    returns (sigPos: nat, pos: nat, dotPos: int, count: nat, extra: bool, next: nat)
    requires 2 <= radix <= 36 && n.Ok(radix) && Placed(s, p, n.ds, n.dot, n.Tail(radix)) && Stops(n.Tail(radix), radix)
    requires tmp.Valid() && tmp.Normal() && tmp.Value() == 0 && tmp.len == 1
    requires ReadDigits(radix) / DigitsPerLimb(radix) + 4 <= tmp.tab.Length
    modifies tmp, tmp.tab
    ensures sigPos == Zeros(n.ds) && pos == |n.ds| && dotPos == (if n.dot.Some? then n.dot.value else -1)
    ensures count == |Significant(n, radix)| && extra == !AllRead(n, radix) && next == p + |Body(n.ds, n.dot)|
    ensures tmp.Valid() && tmp.Normal() && tmp.Value() == Number(Significant(n, radix), radix)
    ensures tmp.len <= ReadDigits(radix) / DigitsPerLimb(radix) + 2
  {
    hide Number, Pow, Zeros, Significant, Rest, ReadDigits, DigitsPerLimb, Val, Body, ToDigit, Placed, Passed, SomeNonZero, Stops, AreDigits;
    var start;
    start, sigPos, dotPos := SkipZeros(s, p, radix, n.ds, n.dot, n.Tail(radix));
    next, pos, dotPos, count, extra :=
      ReadSignificant(tmp, s, p, radix, ReadDigits(radix), start, sigPos, dotPos, n.ds, n.dot, n.Tail(radix));
    ReadIs(n, radix, count);
  }

  /** The exponent is put together and the number is rounded. */
  method Convert(tmp: Bignum, extra: bool, count: nat, offset: int, expn0: int, binary: bool, radix: nat, radix1: nat, radixShift: nat,
                 ghost n: Numeral) returns (bits: nat)
    requires Splits(radix, radix1, radixShift) && n.Ok(radix)
    requires tmp.tab.Length >= CAPACITY
    requires tmp.Valid() && tmp.Normal() && tmp.Value() == Number(Significant(n, radix), radix)
    requires tmp.len <= ReadDigits(radix) / DigitsPerLimb(radix) + 2 && extra == !AllRead(n, radix)
    requires count == |Significant(n, radix)| && count >= 1 && offset == Zeros(n.ds) + count - n.Point()
    requires expn0 == n.Exponent() && binary == n.Binary(radix)
    modifies tmp, tmp.tab
    ensures RoundsTo(Value(Kept(n, radix), radix), bits)
  {
    hide Number, Pow, Power, Times, Zeros, Significant, Rest, AllRead, RoundsTo, Value, ReadDigits, DigitsPerLimb, Val, ToDigit;
    hide RadixBits, Scaled64;
    SignificantSize(n, radix);
    RoomToRead(radix);
    DigitsSplit(n, radix);
    var expn := expn0;
    if RadixBits(radix) != 0 {
      if !binary {
        expn := expn * RadixBits(radix);
      }
      expn := expn - offset * RadixBits(radix);
      BinaryValue(n, radix, expn);
      bits := ConvertBinary(tmp, extra, count, expn, radix, n);
    } else {
      expn := expn - offset;
      KeptParts(n, radix);
      PlainValue(Kept(n, radix), radix, expn);
      bits := ConvertPlain(tmp, tmp.Value(), count, expn, radix, radix1, radixShift);
    }
  }

  method ClearNumber(a: Bignum)
    requires a.tab.Length >= 1
    modifies a, a.tab
    ensures a.Valid() && a.Normal() && a.Value() == 0 && a.len == 1
  {
    a.len := 1;
    a.tab[0] := 0;
    OneLimb(a.tab[..1]);
  }

  lemma RoomToRead(radix: nat)
    requires 2 <= radix <= 36
    ensures ReadDigits(radix) / DigitsPerLimb(radix) + 4 <= CAPACITY
  {
    hide ReadDigits, DigitsPerLimb;
    DigitsRead(radix);
    FewerLimbs(ReadDigits(radix), 5 * DigitsPerLimb(radix), DigitsPerLimb(radix));
    QuotientIs(5 * DigitsPerLimb(radix), DigitsPerLimb(radix), 5, 0);
  }

  lemma TextStart(s: string, radix: nat, neg: bool, n: Numeral)
    requires 2 <= radix <= 36 && n.Ok(radix) && s == Text64(neg, n, radix)
    ensures At(s, 0) != '+' && (At(s, 0) == '-') == neg
    ensures var p := if neg then 1 else 0; p <= |s| && s[p..] == n.Show(radix) && Placed(s, p, n.ds, n.dot, n.Tail(radix)) && At(s, p) != 'I'
  {
    hide ToDigit;
    var p := if neg then 1 else 0;
    assert s[p..] == n.Show(radix);
    CharAt(s, p, n.ds, n.dot, n.Tail(radix), 0, false);
    NoSign(n.ds[0], radix);
  }

  lemma NoSign(c: char, radix: nat)
    requires ToDigit(c) < radix <= 36
    ensures c != '+' && c != '-'
  {
  }

  lemma TextStops(radix: nat, n: Numeral)
    requires 2 <= radix <= 36
    ensures Stops(n.Tail(radix), radix)
  {
    ExponentStops(radix, n.Exponent());
  }

  lemma TextTail(s: string, p: nat, radix: nat, n: Numeral, next: nat)
    requires n.Ok(radix) && p <= |s| && s[p..] == n.Show(radix) && next == p + |Body(n.ds, n.dot)|
    ensures next <= |s| && s[next..] == n.Tail(radix)
  {
    assert s[next..] == s[p..][|Body(n.ds, n.dot)|..];
  }

  lemma ReadIs(n: Numeral, radix: nat, count: nat)
    requires 2 <= radix <= 36 && count == Min(|n.ds| - Zeros(n.ds), ReadDigits(radix))
    ensures var z := Zeros(n.ds); n.ds[z..z + count] == Significant(n, radix) && n.ds[z + count..] == Rest(n, radix)
  {
    hide ReadDigits, Zeros;
  }

  lemma NothingSignificant(n: Numeral, radix: nat)
    requires 2 <= radix <= 36 && |Significant(n, radix)| == 0
    ensures Number(n.ds, radix) == 0
  {
    hide Number, Zeros, Significant, Rest;
    DigitsSplit(n, radix);
    SomeReadDigits(radix);
    LeadingZeros(n.ds, Zeros(n.ds), radix);
    assert n.ds[Zeros(n.ds)..] == [];
    EmptyNumber(radix);
  }

  lemma SomeReadDigits(radix: nat)
    requires 2 <= radix <= 36
    ensures ReadDigits(radix) > 0
  {
  }
}
