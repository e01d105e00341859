/** Digits as text: printing a number and reading it back. */
module DtoaText {
  import opened DtoaRounding
  import opened DtoaDivision
  import opened DtoaLimbs
  import opened DtoaBits
  import opened DtoaBignum
  import opened DtoaScaling

  function DigitChar(d: nat): char
    requires d < 36
  {
    if d < 10 then '0' + d as char else 'a' + (d - 10) as char
  }

  /** `to_digit` */
  function ToDigit(c: char): (d: nat)
    ensures d <= 36
  {
    if '0' <= c <= '9' then (c - '0') as int
    else if 'A' <= c <= 'Z' then (c - 'A') as int + 10
    else if 'a' <= c <= 'z' then (c - 'a') as int + 10
    else 36
  }

  lemma DigitRoundTrip(d: nat)
    requires d < 36
    ensures ToDigit(DigitChar(d)) == d
  {
  }

  /** The last n digits of v, most significant first. */
  function Text(v: nat, radix: nat, n: nat): (s: string)
    requires 2 <= radix <= 36
    ensures |s| == n
  {
    if n == 0 then [] else Text(v / radix, radix, n - 1) + [DigitChar(v % radix)]
  }

  predicate AreDigits(s: string, radix: nat) {
    forall i | 0 <= i < |s| :: ToDigit(s[i]) < radix
  }

  /** The number that digits stand for. */
  function Number(s: string, radix: nat): nat {
    if s == [] then 0 else Number(s[..|s| - 1], radix) * radix + ToDigit(s[|s| - 1])
  }

  /** Reading what was printed gives the number back, up to the digits that were not printed. */
  lemma {:induction false} TextRoundTrip(v: nat, radix: nat, n: nat)
    requires 2 <= radix <= 36
    ensures AreDigits(Text(v, radix, n), radix) && Number(Text(v, radix, n), radix) == v % Pow(radix, n)
  {
    hide Pow, Text, Number, ToDigit, DigitChar;
    if n == 0 {
      NoDigits(radix, v);
      Nothing(radix);
    } else {
      var q, r := DivMod(v, radix);
      var s, c := Text(q, radix, n - 1), DigitChar(r);
      TextRoundTrip(q, radix, n - 1);
      DigitRoundTrip(r);
      TextLast(v, radix, n);
      NumberLast(s + [c], radix);
      assert (s + [c])[..n - 1] == s;
      ModDigits(v, radix, n, q, r);
    }
  }

  lemma ModDigits(v: nat, radix: nat, n: nat, q: nat, r: nat)
    requires radix > 0 && n > 0 && q == v / radix && r == v % radix
    ensures v % Pow(radix, n) == q % Pow(radix, n - 1) * radix + r
  {
    hide Pow;
    DivDiv(v, radix, Pow(radix, n - 1));
    PowUp(radix, n - 1);
    Commute(radix, q % Pow(radix, n - 1));
  }

  lemma NoDigits(b: nat, v: nat)
    ensures Pow(b, 0) == 1 && v % Pow(b, 0) == 0
  {
  }

  lemma Commute(x: int, y: int)
    ensures x * y == y * x
  {
  }

  /** Letters in lower case. */
  function Lowered(s: string): string {
    if s == [] then [] else Lowered(s[..|s| - 1]) + [Lower(s[|s| - 1])]
  }

  function Lower(c: char): char {
    if 'A' <= c <= 'Z' then c - 'A' + 'a' else c
  }

  lemma NumberLast(s: string, radix: nat)
    requires s != []
    ensures Number(s, radix) == Number(s[..|s| - 1], radix) * radix + ToDigit(s[|s| - 1])
  {
  }

  lemma TextLast(v: nat, radix: nat, n: nat)
    requires 2 <= radix <= 36 && n > 0
    ensures Text(v, radix, n) == Text(v / radix, radix, n - 1) + [DigitChar(v % radix)]
  {
  }

  /** Printing what was read gives the digits back, in lower case. */
  lemma {:induction false} NumberRoundTrip(s: string, radix: nat)
    requires 2 <= radix <= 36 && AreDigits(s, radix)
    ensures Text(Number(s, radix), radix, |s|) == Lowered(s) && Number(s, radix) < Pow(radix, |s|)
  {
    hide Pow, Text, Number, ToDigit, DigitChar, Lower, Lowered;
    if s == [] {
      Nothing(radix);
    } else {
      var t, c := s[..|s| - 1], s[|s| - 1];
      var d, n := ToDigit(c), Number(t, radix);
      forall i | 0 <= i < |t| ensures ToDigit(t[i]) < radix {
        assert t[i] == s[i];
      }
      NumberRoundTrip(t, radix);
      NumberLast(s, radix);
      assert d + radix * n == n * radix + d;
      QuotientIs(Number(s, radix), radix, n, d);
      TextLast(Number(s, radix), radix, |s|);
      CharRoundTrip(c);
      LoweredLast(s);
      PowUp(radix, |t|);
      MulOrder(n + 1, Pow(radix, |t|), radix);
    }
  }

  lemma Nothing(radix: nat)
    requires 2 <= radix <= 36
    ensures Text(Number([], radix), radix, 0) == [] == Lowered([]) && Number([], radix) == 0 && Pow(radix, 0) == 1
  {
  }

  lemma LoweredLast(s: string)
    requires s != []
    ensures Lowered(s) == Lowered(s[..|s| - 1]) + [Lower(s[|s| - 1])]
  {
  }

  lemma CharRoundTrip(c: char)
    requires ToDigit(c) < 36
    ensures DigitChar(ToDigit(c)) == Lower(c)
  {
  }

  /** v without its last n digits. */
  function Cut(v: nat, radix: nat, n: nat): nat
    requires radix > 0
  {
    v / Pow(radix, n)
  }

  /** The digits of a number, in two parts. */
  lemma {:induction false} TextSplit(v: nat, radix: nat, k: nat, n: nat)
    requires 2 <= radix <= 36
    ensures Text(v, radix, k + n) == Text(Cut(v, radix, n), radix, k) + Text(v, radix, n)
  {
    hide Pow, Text;
    if n == 0 {
      NoSplit(v, radix, k);
    } else {
      TextSplit(v / radix, radix, k, n - 1);
      DivDiv(v, radix, Pow(radix, n - 1));
      PowUp(radix, n - 1);
      TextLast(v, radix, k + n);
      TextLast(v, radix, n);
      assert k + n - 1 == k + (n - 1);
    }
  }

  lemma NoSplit(v: nat, radix: nat, k: nat)
    requires 2 <= radix <= 36
    ensures Text(v, radix, k) == Text(v / Pow(radix, 0), radix, k) + Text(v, radix, 0)
  {
    hide Text;
    assert v / Pow(radix, 0) == v;
  }

  /** Only the number modulo radix^n matters for its last n digits. */
  lemma {:induction false} TextMod(v: nat, radix: nat, n: nat, q: nat)
    requires 2 <= radix <= 36 && q > 0
    ensures Pow(radix, n) * q > 0 && Text(v % (Pow(radix, n) * q), radix, n) == Text(v, radix, n)
  {
    hide Pow, Text;
    SumIsZero(0, Pow(radix, n), q);
    if n > 0 {
      var p := Pow(radix, n - 1);
      TextMod(v / radix, radix, n - 1, q);
      PowUp(radix, n - 1);
      var w := v % (Pow(radix, n) * q);
      ModParts(v, radix, p, q, w);
      TextLast(v, radix, n);
      TextLast(w, radix, n);
    } else {
      assert |Text(v, radix, 0)| == 0;
    }
  }

  lemma ModParts(v: nat, r: nat, p: nat, q: nat, w: nat)
    requires r > 0 && p * q > 0 && r * p * q > 0 && w == v % (r * p * q)
    ensures w / r == v / r % (p * q) && w % r == v % r
  {
    Associate(r, p, q);
    DivDiv(v, r, p * q);
    QuotientIs(w, r, v / r % (p * q), v % r);
  }

  // ----- printing -----

  /** radix^DigitsPerLimb, and 0 for 2^32 (`radix_base_table`). */
  const RADIX_BASE: seq<Limb> :=
    [0x00000000, 0xcfd41b91, 0x00000000, 0x48c27395, 0x81bf1000, 0x75db9c97, 0x40000000, 0xcfd41b91,
     0x3b9aca00, 0x8c8b6d2b, 0x19a10000, 0x309f1021, 0x57f6c100, 0x98c29b81, 0x00000000, 0x18754571,
     0x247dbc80, 0x3547667b, 0x4c4b4000, 0x6b5a6e1d, 0x94ace180, 0xcaf18367, 0x0b640000, 0x0e8d4a51,
     0x1269ae40, 0x17179149, 0x1cb91000, 0x23744899, 0x2b73a840, 0x34e63b41, 0x40000000, 0x4cfa3cc1,
     0x5c13d840, 0x6d91b519, 0x81bf1000]

  function RadixBase(radix: nat): Limb
    requires 2 <= radix <= 36
  {
    RADIX_BASE[radix - 2]
  }

  /** The radixes that are powers of two, and their logarithms. */
  function RadixBits(radix: nat): nat {
    if radix == 2 then 1 else if radix == 4 then 2 else if radix == 8 then 3 else if radix == 16 then 4
    else if radix == 32 then 5 else 0
  }

  lemma RadixBaseIs(radix: nat)
    requires 2 <= radix <= 36
    ensures RadixBase(radix) == (if radix == 2 || radix == 4 || radix == 16 then 0 else Pow(radix, DigitsPerLimb(radix)))
    ensures radix == 2 || radix == 4 || radix == 16 ==> Pow(radix, DigitsPerLimb(radix)) == B
  {
    hide Pow;
    BaseLow();
    BaseMiddle();
    BaseHigh();
  }

  lemma BaseLow()
    ensures Pow(2, 32) == Pow(4, 16) == Pow(16, 8) == B && Pow(8, 10) == Pow(32, 6) == 0x40000000
    ensures Pow(3, 20) == Pow(9, 10) == 0xcfd41b91 && Pow(5, 13) == 0x48c27395 && Pow(6, 12) == 0x81bf1000
    ensures Pow(7, 11) == 0x75db9c97 && Pow(10, 9) == 0x3b9aca00
  {
    hide Pow;
    LimbIsPower();
    BaseValues();
    PowSquare(4, 4); PowSquare(4, 8); PowSquare(16, 4); PowSquare(8, 5); PowSquare(32, 3);
    PowSquare(3, 5); PowSquare(3, 10); PowSquare(9, 5); PowPlus(5, 6, 7); PowPlus(5, 6, 1); PowSquare(6, 6);
    PowPlus(7, 5, 6); PowPlus(7, 5, 1); PowPlus(10, 4, 5);
  }

  lemma BaseValues()
    ensures Pow(4, 4) == 256 && Pow(16, 4) == 65536 && Pow(8, 5) == 32768 && Pow(32, 3) == 32768
    ensures Pow(3, 5) == 243 && Pow(9, 5) == 59049 && Pow(5, 1) == 5 && Pow(5, 6) == 15625 && Pow(6, 6) == 46656
    ensures Pow(7, 1) == 7 && Pow(7, 5) == 16807 && Pow(10, 4) == 10000 && Pow(10, 5) == 100000
  {
  }

  lemma BaseMiddle()
    ensures Pow(11, 9) == 0x8c8b6d2b && Pow(12, 8) == 0x19a10000 && Pow(13, 8) == 0x309f1021 && Pow(14, 8) == 0x57f6c100
    ensures Pow(15, 8) == 0x98c29b81 && Pow(17, 7) == 0x18754571 && Pow(18, 7) == 0x247dbc80 && Pow(19, 7) == 0x3547667b
    ensures Pow(20, 7) == 0x4c4b4000 && Pow(21, 7) == 0x6b5a6e1d && Pow(22, 7) == 0x94ace180 && Pow(23, 7) == 0xcaf18367
  {
  }

  lemma BaseHigh()
    ensures Pow(24, 6) == 0x0b640000 && Pow(25, 6) == 0x0e8d4a51 && Pow(26, 6) == 0x1269ae40 && Pow(27, 6) == 0x17179149
    ensures Pow(28, 6) == 0x1cb91000 && Pow(29, 6) == 0x23744899 && Pow(30, 6) == 0x2b73a840 && Pow(31, 6) == 0x34e63b41
    ensures Pow(33, 6) == 0x4cfa3cc1 && Pow(34, 6) == 0x5c13d840 && Pow(35, 6) == 0x6d91b519 && Pow(36, 6) == 0x81bf1000
  {
  }

  /** `limb_to_a` and `u64toa_bin_len`: the last `len` digits of n at buf[at..] */
  method LimbToText(buf: array<char>, at: nat, n: nat, radix: nat, len: nat)
    requires 2 <= radix <= 36 && at + len <= buf.Length
    modifies buf
    ensures buf[..] == old(buf[..at]) + Text(n, radix, len) + old(buf[at + len..])
  {
    hide Text, DigitChar;
    var left: nat := n;
    assert Text(n, radix, len) == Text(n, radix, len) + buf[at + len..at + len];
    for i := len downto 0
      invariant Text(n, radix, len) == Text(left, radix, i) + buf[at + i..at + len]
      invariant buf[..at] == old(buf[..at]) && buf[at + len..] == old(buf[at + len..])
    {
      ghost var done := buf[at + i + 1..at + len];
      TextLast(left, radix, i + 1);
      var c := DigitChar(left % radix);
      buf[at + i] := c;
      assert buf[at + i..at + len] == [c] + done;
      left := left / radix;
    }
    assert |Text(left, radix, 0)| == 0;
    assert buf[at + 0..at + len] == buf[at..at + len];
    assert buf[..] == buf[..at] + buf[at..at + len] + buf[at + len..];
  }

  /** Text with a point before position `dot`, unless that is the end. */
  function Dotted(s: string, dot: nat): string
    requires dot <= |s|
  {
    if dot == |s| then s else s[..dot] + ['.'] + s[dot..]
  }

  /** `output_digits`: the last n digits of a, with a point before position `dot` */
  method PrintDigits(buf: array<char>, at: nat, a: Bignum, radix: nat, n: nat, dot: nat) returns (len: nat)
    requires a.Valid() && a.Normal() && 2 <= radix <= 36 && 1 <= n && dot <= n && at + n + 1 <= buf.Length
    modifies buf, a, a.tab
    ensures len == |Dotted(Text(old(a.Value()), radix, n), dot)| && at + len <= buf.Length
    ensures buf[at..at + len] == Dotted(Text(old(a.Value()), radix, n), dot)
    ensures buf[..at] == old(buf[..at])
  {
    hide Text, Val, Pow, Round, RadixBase, RadixBits, DigitsPerLimb;
    ghost var v := a.Value();
    PrintPlain(buf, at, a, radix, n);
    ghost var text := Text(v, radix, n);
    len := n;
    if dot != n {
      InsertDot(buf, at, n, dot);
      len := n + 1;
    }
  }

  /** The `memmove` and the point. */
  method InsertDot(buf: array<char>, at: nat, n: nat, dot: nat)
    requires at + n + 1 <= buf.Length && dot < n
    modifies buf
    ensures buf[at..at + n + 1] == Dotted(old(buf[at..at + n]), dot) && buf[..at] == old(buf[..at])
  {
    ghost var t := buf[..];
    for i := n downto dot
      invariant buf[..at + i + 1] == t[..at + i + 1]
      invariant forall j | at + i < j <= at + n :: buf[j] == t[j - 1]
    {
      ghost var low := buf[..at + i + 1];
      buf[at + i + 1] := buf[at + i];
      assert buf[..at + i + 1] == low;
    }
    ghost var low, text := buf[..at + dot], t[at..at + n];
    buf[at + dot] := '.';
    assert buf[..at + dot] == low;
    assert buf[at..at + n + 1] == Dotted(text, dot) by {
      forall k | 0 <= k < n + 1 ensures buf[at..at + n + 1][k] == Dotted(text, dot)[k] {
        if k < dot {
          assert buf[at + k] == buf[..at + dot][at + k] == t[at + k];
        } else if k > dot {
          assert buf[at + k] == t[at + k - 1];
        }
      }
    }
    assert t[..at] == buf[..at + dot][..at];
  }

  method PrintPlain(buf: array<char>, at: nat, a: Bignum, radix: nat, n: nat)
    requires a.Valid() && a.Normal() && 2 <= radix <= 36 && 1 <= n && at + n <= buf.Length
    modifies buf, a, a.tab
    ensures buf[..] == old(buf[..at]) + Text(old(a.Value()), radix, n) + old(buf[at + n..])
  {
    hide Text, Val, DigitsPerLimb, Written;
    var left: nat := n;
    ghost var was, text, done := buf[..], Text(a.Value(), radix, n), [];
    NothingWritten(was, at, n, text);
    while left != 0
      invariant left <= n && a.Valid() && a.Normal() && Written(buf[..], was, at, left, n, done)
      invariant text == (if left == 0 then [] else Text(a.Value(), radix, left)) + done
      decreases left
    {
      left, done := PrintPiece(buf, at, a, radix, left, n, was, done);
    }
    AllWritten(buf[..], was, at, n, done, text);
  }

  /** One turn of the loop: the last digits that are left go in front of those that are done. */
  method PrintPiece(buf: array<char>, at: nat, a: Bignum, radix: nat, left: nat, ghost n: nat, ghost was: string, ghost done: string)
    returns (left': nat, ghost done': string)
    requires 2 <= radix <= 36 && 1 <= left <= n && at + n <= buf.Length && a.Valid() && a.Normal()
    requires Written(buf[..], was, at, left, n, done)
    modifies buf, a, a.tab
    ensures left' < left && a.Valid() && a.Normal() && Written(buf[..], was, at, left', n, done')
    ensures Text(old(a.Value()), radix, left) + done == (if left' == 0 then [] else Text(a.Value(), radix, left')) + done'
  {
    hide Text, Val, Pow, Cut, RadixBase, RadixBits, DigitsPerLimb, Written;
    var d := DigitsPerLimb(radix);
    var k := if left < d then left else d;
    ghost var w, b := a.Value(), buf[..];
    TextSplit(w, radix, left - k, k);
    left' := left - k;
    PrintLimb(buf, at + left', a, radix, k, d, left' == 0);
    ghost var piece := Text(w, radix, k);
    WrittenMore(b, was, at, left', n, k, done, piece, buf[..]);
    JoinText(Text(Cut(w, radix, k), radix, left'), piece, done);
    done' := piece + done;
  }

  /** `done` stands in front of position at + n, and nothing else has changed. */
  ghost predicate Written(b: string, was: string, at: nat, left: nat, n: nat, done: string) {
    left <= n && at + n <= |was| && |done| == n - left && b == was[..at + left] + done + was[at + n..]
  }

  lemma NothingWritten(was: string, at: nat, n: nat, text: string)
    requires at + n <= |was|
    ensures Written(was, was, at, n, n, []) && text + [] == text
  {
  }

  lemma WrittenMore(b: string, was: string, at: nat, left: nat, n: nat, k: nat, done: string, s: string, b': string)
    requires Written(b, was, at, left + k, n, done) && |s| == k && b' == b[..at + left] + s + b[at + left + k..]
    ensures Written(b', was, at, left, n, s + done)
  {
  }

  lemma AllWritten(b: string, was: string, at: nat, n: nat, done: string, text: string)
    requires Written(b, was, at, 0, n, done) && text == [] + done
    ensures b == was[..at] + text + was[at + n..]
  {
  }

  lemma JoinText(x: string, y: string, z: string)
    ensures x + y + z == x + (y + z)
  {
  }

  /** One limb's worth of digits, cut off the number and printed. */
  method PrintLimb(buf: array<char>, at: nat, a: Bignum, radix: nat, k: nat, d: nat, last: bool)
    requires a.Valid() && a.Normal() && 2 <= radix <= 36 && d == DigitsPerLimb(radix) && 1 <= k <= d && at + k <= buf.Length
    modifies buf, a, a.tab
    ensures a.Valid() && a.Normal() && (k == d && !last ==> a.Value() == Cut(old(a.Value()), radix, d))
    ensures buf[..] == old(buf[..at]) + Text(old(a.Value()), radix, k) + old(buf[at + k..])
  {
    hide Text, Val, Pow, Round, RadixBase, DigitsPerLimb, Power, Shifted;
    ghost var v := a.Value();
    PowPlus(radix, k, d - k);
    RadixBaseIs(radix);
    if RadixBits(radix) != 0 {
      LowLimbDigits(a.tab[..a.len], radix, k);
      LimbToText(buf, at, a.tab[0], radix, k);
      if !last {
        a.ShiftRound(d * RadixBits(radix), TowardZero);
        BinaryShift(v, radix);
      }
    } else {
      TextMod(v, radix, k, Pow(radix, d - k));
      var base := RadixBase(radix);
      var r := DivSmall(a.tab, a.len, base, 0);
      QuotientIs(v, base, a.Value(), r);
      a.Renormalise();
      LimbToText(buf, at, r, radix, k);
    }
  }

  lemma BinaryRadix(radix: nat, n: nat)
    requires RadixBits(radix) != 0
    ensures Pow(radix, n) == Pow(2, RadixBits(radix) * n) && 2 <= radix <= 36 && RadixBits(radix) * DigitsPerLimb(radix) <= 32
  {
    hide Pow;
    BinaryValues();
    PowPow(2, RadixBits(radix), n);
  }

  lemma BinaryValues()
    ensures Pow(2, 1) == 2 && Pow(2, 2) == 4 && Pow(2, 3) == 8 && Pow(2, 4) == 16 && Pow(2, 5) == 32
  {
  }

  /** The low limb holds the low digits, if the radix is a power of two. */
  lemma LowLimbDigits(s: seq<Limb>, radix: nat, k: nat)
    requires s != [] && RadixBits(radix) != 0 && 2 <= radix <= 36 && k <= DigitsPerLimb(radix)
    ensures Text(s[0], radix, k) == Text(Val(s), radix, k)
  {
    hide Pow, Text, Val, DigitsPerLimb;
    var bits := RadixBits(radix);
    BinaryRadix(radix, k);
    MulOrder(k, DigitsPerLimb(radix), bits);
    LimbSplit(bits * k);
    TextMod(Val(s), radix, k, Pow(2, 32 - bits * k));
    ValFirst(s);
    QuotientIs(Val(s), B, Val(s[1..]), s[0]);
  }

  lemma BinaryShift(v: nat, radix: nat)
    requires RadixBits(radix) != 0 && 2 <= radix <= 36
    ensures Round(TowardZero, Shifted(v, -(DigitsPerLimb(radix) * RadixBits(radix)))) == v / Pow(radix, DigitsPerLimb(radix))
  {
    hide Pow, Round, Shifted, DigitsPerLimb;
    var s := DigitsPerLimb(radix) * RadixBits(radix);
    MulOrder(1, RadixBits(radix), DigitsPerLimb(radix));
    BinaryRadix(radix, DigitsPerLimb(radix));
    ScaledRound(TowardZero, v, s, s);
    RoundByBits(TowardZero, v, s);
  }
}
