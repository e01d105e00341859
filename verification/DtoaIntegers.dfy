/** Printing of integers without leading zeros. */
module DtoaIntegers {
  import opened DtoaRounding
  import opened DtoaDivision
  import opened DtoaLimbs
  import opened DtoaBits
  import opened DtoaScaling
  import opened DtoaText

  /** The digits of n without leading zeros. */
  function Canonical(n: nat, radix: nat): (s: string)
    requires 2 <= radix <= 36
    ensures |s| >= 1
  {
    if n < radix then [DigitChar(n)] else Canonical(n / radix, radix) + [DigitChar(n % radix)]
  }

  lemma CanonicalNext(n: nat, radix: nat)
    requires 2 <= radix <= 36 && n >= radix
    ensures Canonical(n, radix) == Canonical(n / radix, radix) + [DigitChar(n % radix)]
  {
  }

  /** As many digits as the number needs. */
  lemma {:induction false} TextIsCanonical(n: nat, radix: nat, len: nat)
    requires 2 <= radix <= 36 && len >= 1 && n < Pow(radix, len) && (len == 1 || Pow(radix, len - 1) <= n)
    ensures Text(n, radix, len) == Canonical(n, radix)
  {
    hide Pow, DigitChar;
    PowStart(radix);
    if len == 1 {
      QuotientIs(n, radix, 0, n);
      assert Text(0, radix, 0) == [];
    } else {
      var q, r := DivMod(n, radix);
      PowUp(radix, len - 1);
      PowUp(radix, len - 2);
      Between(q, r, radix, Pow(radix, len - 1), Pow(radix, len - 2));
      TextIsCanonical(q, radix, len - 1);
      PowMonotone(radix, 1, len - 1);
    }
  }

  lemma Between(q: nat, r: nat, radix: nat, hi: nat, lo: nat)
    requires r < radix && q * radix + r < radix * hi && radix * lo <= q * radix + r
    ensures q < hi && lo <= q
  {
    if q >= hi {
      MulOrder(hi, q, radix);
    }
    if lo > q {
      MulOrder(q + 1, lo, radix);
    }
  }

  /** Reading the digits gives the number back, and there is no leading zero. */
  lemma {:induction false} CanonicalReads(n: nat, radix: nat)
    requires 2 <= radix <= 36
    ensures AreDigits(Canonical(n, radix), radix) && Number(Canonical(n, radix), radix) == n
    ensures Canonical(n, radix)[0] == '0' ==> n == 0
  {
    hide Canonical, Number, ToDigit, DigitChar;
    if n < radix {
      CanonicalSmall(n, radix);
      DigitRoundTrip(n);
      OneDigit(DigitChar(n), radix);
    } else {
      var q, r := DivMod(n, radix);
      CanonicalReads(q, radix);
      CanonicalNext(n, radix);
      DigitRoundTrip(r);
      var s, c := Canonical(q, radix), DigitChar(r);
      NumberLast(s + [c], radix);
      assert (s + [c])[..|s|] == s;
    }
  }

  /** The number of digits is the least that will do. */
  lemma {:induction false} CanonicalLength(n: nat, radix: nat)
    requires 2 <= radix <= 36
    ensures n < Pow(radix, |Canonical(n, radix)|) && (n == 0 || Pow(radix, |Canonical(n, radix)| - 1) <= n)
  {
    hide Pow, Canonical, DigitChar;
    PowStart(radix);
    if n < radix {
      CanonicalSmall(n, radix);
    } else {
      var q := n / radix;
      CanonicalNext(n, radix);
      var k := |Canonical(q, radix)|;
      PowUp(radix, k);
      PowUp(radix, k - 1);
      Smaller(n, radix, Pow(radix, k), Pow(radix, k - 1));
      CanonicalLength(q, radix);
    }
  }

  lemma Smaller(n: nat, radix: nat, hi: nat, lo: nat)
    requires radix >= 2 && n >= radix
    ensures 0 < n / radix < n
    ensures n / radix < hi ==> n < radix * hi
    ensures lo <= n / radix ==> radix * lo <= n
  {
    var q, r := DivMod(n, radix);
    MulOrder(2, radix, q);
    if q < hi {
      MulOrder(q + 1, hi, radix);
    }
    if lo <= q {
      MulOrder(lo, q, radix);
    }
  }

  lemma CanonicalSmall(n: nat, radix: nat)
    requires 2 <= radix <= 36 && n < radix
    ensures Canonical(n, radix) == [DigitChar(n)] && (DigitChar(n) == '0' <==> n == 0)
  {
  }

  lemma OneDigit(c: char, radix: nat)
    ensures Number([c], radix) == ToDigit(c)
  {
    assert Number([], radix) == 0;
  }

  /** The loop that fills a local buffer from its end and copies the digits out. */
  method DigitsFromEnd(buf: array<char>, at: nat, n: nat, radix: nat, room: nat) returns (len: nat)
    requires 2 <= radix <= 36 && n < Pow(radix, room) && room >= 1 && at + room <= buf.Length
    modifies buf
    ensures 1 <= len <= room && buf[at..at + len] == Canonical(n, radix) && buf[..at] == old(buf[..at])
  {
    hide Pow, DigitChar, Canonical;
    var local := new char[room](_ => '0');
    var q := FillFromEnd(local, n, radix);
    len := room - q;
    for i := 0 to len
      invariant buf[at..at + i] == local[q..q + i] && buf[..at] == old(buf[..at]) && local[q..] == Canonical(n, radix)
    {
      buf[at + i] := local[q + i];
    }
    assert local[q..q + len] == local[q..];
  }

  method FillFromEnd(local: array<char>, n: nat, radix: nat) returns (q: nat)
    requires 2 <= radix <= 36 && n < Pow(radix, local.Length) && local.Length >= 1
    modifies local
    ensures q < local.Length && local[q..] == Canonical(n, radix)
  {
    hide Pow, DigitChar, Canonical;
    q := local.Length;
    var left: nat := n;
    assert Canonical(n, radix) + [] == Canonical(n, radix) && local[q..] == [];
    while true
      invariant 1 <= q <= local.Length && left < Pow(radix, q)
      invariant Canonical(n, radix) == Canonical(left, radix) + local[q..]
      decreases left
    {
      ghost var done := local[q..];
      q := q - 1;
      Shorten(left, radix, q);
      local[q] := DigitChar(left % radix);
      assert local[q..] == [DigitChar(left % radix)] + done;
      left := left / radix;
      if left == 0 {
        break;
      }
    }
  }

  lemma Shorten(n: nat, radix: nat, q: nat)
    requires 2 <= radix <= 36 && n < Pow(radix, q + 1)
    ensures n / radix < Pow(radix, q) && (n / radix != 0 ==> n / radix < n && q >= 1)
    ensures if n / radix == 0 then Canonical(n, radix) == [DigitChar(n % radix)]
            else Canonical(n, radix) == Canonical(n / radix, radix) + [DigitChar(n % radix)]
  {
    hide Pow, DigitChar;
    var h, r := DivMod(n, radix);
    PowUp(radix, q);
    Between(h, r, radix, Pow(radix, q), 0);
    if h == 0 {
      assert h * radix == 0;
    } else {
      MulOrder(2, radix, h);
      MulOrder(1, h, radix);
      PowStart(radix);
    }
  }

  /** `u32toa` */
  method U32ToText(buf: array<char>, at: nat, n: nat) returns (len: nat)
    requires n < B && at + 10 <= buf.Length
    modifies buf
    ensures 1 <= len <= 10 && buf[at..at + len] == Canonical(n, 10) && buf[..at] == old(buf[..at])
  {
    hide Pow, Canonical;
    DecimalPowers();
    len := DigitsFromEnd(buf, at, n, 10, 10);
  }

  lemma DecimalPowers()
    ensures Pow(10, 9) == 1_000_000_000 && Pow(10, 10) == 10_000_000_000 && Pow(10, 1) == 10 && Pow(10, 2) == 100
  {
    hide Pow;
    DecimalValues();
    PowPlus(10, 4, 5);
    PowPlus(10, 9, 1);
  }

  lemma DecimalValues()
    ensures Pow(10, 1) == 10 && Pow(10, 2) == 100 && Pow(10, 4) == 10_000 && Pow(10, 5) == 100_000
  {
  }

  /** A number printed in two parts, the second with leading zeros. */
  lemma {:induction false} CanonicalSplit(n: nat, hi: nat, lo: nat, radix: nat, k: nat)
    requires 2 <= radix <= 36 && hi > 0 && lo < Pow(radix, k) && n == hi * Pow(radix, k) + lo
    ensures Canonical(n, radix) == Canonical(hi, radix) + Text(lo, radix, k)
    decreases k
  {
    hide Pow, DigitChar, Canonical, Text;
    if k == 0 {
      PowStart(radix);
      assert n == hi;
      assert |Text(lo, radix, 0)| == 0;
    } else {
      var n', lo', d := CutDigit(n, hi, lo, radix, k);
      CanonicalSplit(n', hi, lo', radix, k - 1);
    }
  }

  lemma CutDigit(n: nat, hi: nat, lo: nat, radix: nat, k: nat) returns (n': nat, lo': nat, d: nat)
    requires 2 <= radix <= 36 && hi > 0 && k > 0 && lo < Pow(radix, k) && n == hi * Pow(radix, k) + lo
    ensures lo' < Pow(radix, k - 1) && n' == hi * Pow(radix, k - 1) + lo' && d < 36
    ensures Canonical(n, radix) == Canonical(n', radix) + [DigitChar(d)] && Text(lo, radix, k) == Text(lo', radix, k - 1) + [DigitChar(d)]
  {
    hide Pow, DigitChar, Canonical, Text;
    PowUp(radix, k - 1);
    n', lo', d := SplitParts(hi, lo, radix, Pow(radix, k - 1), Pow(radix, k), n);
    CanonicalNext(n, radix);
    TextLast(lo, radix, k);
  }

  lemma SplitParts(hi: nat, lo: nat, radix: nat, p: nat, p': nat, n: nat) returns (n': nat, lo': nat, d: nat)
    requires radix > 0 && p > 0 && hi > 0 && p' == radix * p && lo < p' && n == hi * p' + lo
    ensures lo' < p && n >= radix && n' == hi * p + lo' && d < radix
    ensures n / radix == n' && lo / radix == lo' && n % radix == d && lo % radix == d
  {
    lo', d := DivMod(lo, radix);
    Between(lo', d, radix, p, 0);
    n' := hi * p + lo';
    assert hi * (radix * p) == radix * (hi * p);
    assert radix * (hi * p + lo') == radix * (hi * p) + lo' * radix;
    QuotientIs(n, radix, n', d);
    AtLeastOne(lo', hi, p);
    MulOrder(1, n', radix);
  }

  lemma AtLeastOne(v: nat, x: nat, p: nat)
    requires p > 0 && x > 0
    ensures x * p + v >= 1
  {
    MulOrder(1, x, p);
  }

  const BILLION := 1_000_000_000

  /** `u64toa` */
  method U64ToText(buf: array<char>, at: nat, n: nat) returns (len: nat)
    requires n < B * B && at + 20 <= buf.Length
    modifies buf
    ensures 1 <= len <= 20 && buf[at..at + len] == Canonical(n, 10) && buf[..at] == old(buf[..at])
  {
    hide Pow, Canonical, Text, DigitChar;
    if n < B {
      len := U32ToText(buf, at, n);
      return;
    }
    var hi, lo := n / BILLION, n % BILLION;
    len := PrintHigh(buf, at, hi);
    DecimalPowers();
    CanonicalSplit(n, hi, lo, 10, 9);
    ghost var done := buf[..at + len];
    LimbToText(buf, at + len, lo, 10, 9);
    assert buf[at..at + len + 9] == done[at..] + buf[at + len..at + len + 9];
    assert buf[..at] == done[..at];
    len := len + 9;
  }

  method PrintHigh(buf: array<char>, at: nat, n: nat) returns (len: nat)
    requires 0 < n <= B * B / BILLION && at + 11 <= buf.Length
    modifies buf
    ensures 1 <= len <= 11 && buf[at..at + len] == Canonical(n, 10) && buf[..at] == old(buf[..at])
  {
    hide Pow, Canonical, Text;
    if n >= B {
      var top, lo := n / BILLION, n % BILLION;
      DecimalPowers();
      CanonicalSplit(n, top, lo, 10, 9);
      len := PrintTop(buf, at, top);
      ghost var done := buf[..at + len];
      LimbToText(buf, at + len, lo, 10, 9);
      assert buf[..at + len] == done;
      assert buf[at..at + len + 9] == done[at..] + buf[at + len..at + len + 9];
      assert buf[..at] == done[..at];
      len := len + 9;
    } else {
      len := U32ToText(buf, at, n);
    }
  }

  /** At most two digits. */
  method PrintTop(buf: array<char>, at: nat, top: nat) returns (len: nat)
    requires 0 < top < 100 && at + 2 <= buf.Length
    modifies buf
    ensures 1 <= len <= 2 && buf[at..at + len] == Canonical(top, 10) && buf[..at] == old(buf[..at])
  {
    hide Canonical;
    var q, left := at, top;
    CanonicalSmall(top % 10, 10);
    if top >= 10 {
      CanonicalNext(top, 10);
      CanonicalSmall(top / 10, 10);
      buf[q] := '0' + (top / 10) as char;
      q := q + 1;
      left := top % 10;
    }
    buf[q] := '0' + left as char;
    len := q + 1 - at;
  }

  /** `u64toa_radix` */
  method U64ToTextRadix(buf: array<char>, at: nat, n: nat, radix: nat) returns (len: nat)
    requires n < B * B && 2 <= radix <= 36 && at + 64 <= buf.Length
    modifies buf
    ensures 1 <= len <= 64 && buf[at..at + len] == Canonical(n, radix) && buf[..at] == old(buf[..at])
  {
    hide Pow, Canonical, Text, RadixBits, BitLength;
    if radix == 10 {
      len := U64ToText(buf, at, n);
    } else if RadixBits(radix) != 0 {
      var bits := RadixBits(radix);
      len := if n == 0 then 1 else Chunks(BitLength(n), bits);
      BinaryLength(n, radix, len);
      LimbToText(buf, at, n, radix, len);
    } else {
      NoPower(radix);
      Local41(n, radix);
      len := DigitsFromEnd(buf, at, n, radix, 41);
    }
  }

  lemma NoPower(radix: nat)
    requires 2 <= radix <= 36 && RadixBits(radix) == 0
    ensures radix >= 3
  {
  }

  lemma Local41(n: nat, radix: nat)
    requires n < B * B && radix >= 3
    ensures n < Pow(radix, 41)
  {
    hide Pow;
    PowBase(3, radix, 41);
    ThreeValues();
    PowSquare(3, 10);
    PowSquare(3, 20);
    PowPlus(3, 40, 1);
  }

  lemma ThreeValues()
    ensures Pow(3, 1) == 3 && Pow(3, 10) == 59049
  {
  }

  lemma BinaryLength(n: nat, radix: nat, len: nat)
    requires n < B * B && 2 <= radix <= 36 && RadixBits(radix) != 0
    requires len == if n == 0 then 1 else Chunks(BitLength(n), RadixBits(radix))
    ensures 1 <= len <= 64 && Text(n, radix, len) == Canonical(n, radix)
  {
    hide Pow, Canonical, Text, BitLength;
    var bits, k := RadixBits(radix), BitLength(n);
    PowStart(radix);
    if n > 0 {
      BinaryChunks(k, bits, len);
      BinaryRadix(radix, len);
      BinaryRadix(radix, len - 1);
      PowMonotone(2, k, bits * len);
      PowMonotone(2, bits * (len - 1), k - 1);
      U64Bits(n);
    }
    TextIsCanonical(n, radix, len);
  }

  lemma BinaryChunks(k: nat, bits: nat, len: nat)
    requires k >= 1 && 1 <= bits <= 5 && len == Chunks(k, bits)
    ensures 1 <= len <= k && bits * (len - 1) <= k - 1 && k <= bits * len
  {
    var q, r := DivMod(k + bits - 1, bits);
    assert bits * (q - 1) == q * bits - bits;
    if len > k {
      MulOrder(k, len - 1, bits);
      MulOrder(1, bits, k);
    }
  }

  lemma U64Bits(n: nat)
    requires n < B * B
    ensures BitLength(n) <= 64
  {
    hide Pow;
    LimbIsPower();
    PowSquare(2, 32);
    if BitLength(n) > 64 {
      PowMonotone(2, 64, BitLength(n) - 1);
    }
  }
}
