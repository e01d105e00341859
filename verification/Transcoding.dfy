/** UTF-8 and UTF-16, unpaired surrogates included. */
module Transcoding {
  import opened Surrogates

  type Byte = x: int | 0 <= x < 256
  type Unit = x: int | 0 <= x < 0x10000

  /** `get_hi_surrogate` and `get_lo_surrogate` */
  function Pair(c: int): (s: seq<Unit>)
    requires 0x10000 <= c < 0x110000
    ensures |s| == 2 && IsHi(s[0]) && IsLo(s[1]) && FromSurrogates(s[0], s[1]) == c
  {
    [c / 1024 - 64 + 0xD800, c % 1024 + 0xDC00]
  }

  lemma PairBack(hi: Unit, lo: Unit)
    requires IsHi(hi) && IsLo(lo)
    ensures 0x10000 <= FromSurrogates(hi, lo) < 0x110000 && Pair(FromSurrogates(hi, lo)) == [hi, lo]
  {
    var h, l := hi - 0xD800, lo - 0xDC00;
    assert hi % 1024 == h && lo % 1024 == l;
    var c := 65536 + 1024 * h + l;
    assert c / 1024 == 64 + h && c % 1024 == l;
  }

  // ----- one code point -----

  /** `utf8_encode_len` */
  function EncodedLength(c: int): nat {
    if c < 0x80 then 1 else if c < 0x800 then 2 else if c < 0x10000 then 3 else if c < 0x110000 then 4 else 3
  }

  /** `utf8_encode` */
  function EncodeChar(c: nat): (b: seq<Byte>)
    ensures |b| == EncodedLength(c)
  {
    if c < 0x80 then [c]
    else if c < 0x800 then [c / 0x40 + 0xC0, c % 0x40 + 0x80]
    else if c < 0x10000 then [c / 0x1000 + 0xE0, c / 0x40 % 0x40 + 0x80, c % 0x40 + 0x80]
    else if c < 0x110000 then [c / 0x40000 + 0xF0, c / 0x1000 % 0x40 + 0x80, c / 0x40 % 0x40 + 0x80, c % 0x40 + 0x80]
    else [0xEF, 0xBF, 0xBD]
  }

  predicate IsTail(b: int) {
    0x80 <= b <= 0xBF
  }

  /** As many bytes as the lead byte may ask for. */
  predicate Room(b: seq<Byte>, p: nat) {
    p < |b| && (b[p] >= 0x80 ==> p + 1 < |b|) && (b[p] >= 0xE0 ==> p + 2 < |b|) && (b[p] >= 0xF0 ==> p + 3 < |b|)
  }

  /** `utf8_decode`: the code point at p and the position after it; an error takes one byte */
  function Decode(b: seq<Byte>, p: nat): (r: (int, nat))
    requires Room(b, p)
    ensures 0 <= r.0 < 0x110000 && p < r.1 <= |b|
  {
    var c: int := b[p];
    var error := (0xFFFD, p + 1);
    if c < 0x80 then (c, p + 1)
    else if 0xC2 <= c <= 0xDF then
      if IsTail(b[p + 1]) then ((c - 0xC0) * 0x40 + (b[p + 1] - 0x80) as int, p + 2) else error
    else if 0xE0 <= c <= 0xEF then
      if (if c == 0xE0 then 0xA0 else 0x80) <= b[p + 1] <= 0xBF && IsTail(b[p + 2]) then
        ((c - 0xE0) * 0x1000 + (b[p + 1] - 0x80) as int * 0x40 + (b[p + 2] - 0x80) as int, p + 3)
      else error
    else if 0xF0 <= c <= 0xF4 then
      if (if c == 0xF0 then 0x90 else 0x80) <= b[p + 1] <= (if c == 0xF4 then 0x8F else 0xBF) && IsTail(b[p + 2]) && IsTail(b[p + 3]) then
        ((c - 0xF0) * 0x40000 + (b[p + 1] - 0x80) as int * 0x1000 + (b[p + 2] - 0x80) as int * 0x40 + (b[p + 3] - 0x80) as int, p + 4)
      else error
    else error
  }

  /** `utf8_decode_len`, up to the end of b */
  function DecodeWithin(b: seq<Byte>, p: nat): (r: (int, nat))
    requires p < |b|
    ensures 0 <= r.0 < 0x110000 && p < r.1 <= |b|
  {
    var left := |b| - p;
    if (left == 1 && b[p] >= 0x80) || (left == 2 && b[p] >= 0xE0) || (left == 3 && b[p] >= 0xF0) then (0xFFFD, p + 1)
    else Decode(b, p)
  }

  /** Decoding an encoded code point gives it back, whatever follows. */
  lemma DecodeEncoded(c: nat, b: seq<Byte>, p: nat)
    requires c < 0x110000 && p + EncodedLength(c) <= |b| && b[p..p + EncodedLength(c)] == EncodeChar(c)
    ensures DecodeWithin(b, p) == (c, p + EncodedLength(c))
  {
    var n, e := EncodedLength(c), EncodeChar(c);
    assert e == [e[0]] + e[1..];
    forall i | 0 <= i < n ensures b[p + i] == e[i] {
      assert b[p + i] == b[p..p + n][i];
    }
    assert b[p + 0] == b[p];
    if c < 0x800 {
      DecodeShort(c, b, p);
    } else if c < 0x10000 {
      DecodeThree(c, b, p);
    } else {
      SplitFour(c);
      DecodeFour(c / 0x40000, c / 0x1000 % 0x40, c / 0x40 % 0x40, c % 0x40, b, p);
    }
  }

  lemma DecodeShort(c: nat, b: seq<Byte>, p: nat)
    requires c < 0x800 && p + EncodedLength(c) <= |b|
    requires if c < 0x80 then b[p] == c else b[p] == c / 0x40 + 0xC0 && b[p + 1] == c % 0x40 + 0x80
    ensures DecodeWithin(b, p) == (c, p + EncodedLength(c))
  {
    if c >= 0x80 {
      var x, y := c / 0x40, c % 0x40;
      assert c == x * 0x40 + y && 2 <= x < 0x20;
    }
  }

  lemma DecodeThree(c: nat, b: seq<Byte>, p: nat)
    requires 0x800 <= c < 0x10000 && p + 3 <= |b|
    requires b[p] == c / 0x1000 + 0xE0 && b[p + 1] == c / 0x40 % 0x40 + 0x80 && b[p + 2] == c % 0x40 + 0x80
    ensures DecodeWithin(b, p) == (c, p + 3)
  {
    var x, y, z := c / 0x1000, c / 0x40 % 0x40, c % 0x40;
    assert c == x * 0x1000 + y * 0x40 + z && x < 0x10;
    assert x == 0 ==> y >= 0x20;
  }

  lemma SplitFour(c: nat)
    requires 0x10000 <= c < 0x110000
    ensures var w, x, y, z := c / 0x40000, c / 0x1000 % 0x40, c / 0x40 % 0x40, c % 0x40;
            c == w * 0x40000 + x * 0x1000 + y * 0x40 + z && w <= 4 && (w == 0 ==> x >= 0x10) && (w == 4 ==> x < 0x10)
  {
  }

  lemma DecodeFour(w: nat, x: nat, y: nat, z: nat, b: seq<Byte>, p: nat)
    requires w <= 4 && x < 0x40 && y < 0x40 && z < 0x40 && (w == 0 ==> x >= 0x10) && (w == 4 ==> x < 0x10) && p + 4 <= |b|
    requires b[p] == w + 0xF0 && b[p + 1] == x + 0x80 && b[p + 2] == y + 0x80 && b[p + 3] == z + 0x80
    ensures DecodeWithin(b, p) == (w * 0x40000 + x * 0x1000 + y * 0x40 + z, p + 4)
  {
  }

  /** What decodes to anything but an error is the encoding of what it decodes to. */
  lemma DecodedIsEncoded(b: seq<Byte>, p: nat)
    requires p < |b|
    ensures var (c, p') := DecodeWithin(b, p); (c, p') != (0xFFFD, p + 1) ==> b[p..p'] == EncodeChar(c)
  {
    hide EncodeChar, IsTail;
    if b[p] < 0x80 {
      EncodeOne(b[p] as int);
      assert b[p..p + 1] == [b[p]];
    } else if b[p] <= 0xDF {
      DecodedTwo(b, p);
    } else if b[p] <= 0xEF {
      DecodedThree(b, p);
    } else {
      DecodedFour(b, p);
    }
  }

  lemma EncodeOne(c: nat)
    requires c < 0x80
    ensures EncodeChar(c) == [c]
  {
  }

  lemma DecodedTwo(b: seq<Byte>, p: nat)
    requires p < |b| && 0x80 <= b[p] <= 0xDF
    ensures var (c, p') := DecodeWithin(b, p); (c, p') != (0xFFFD, p + 1) ==> b[p..p'] == EncodeChar(c)
  {
    hide EncodeChar;
    var (c, p') := DecodeWithin(b, p);
    if (c, p') != (0xFFFD, p + 1) {
      EncodeTwo((b[p] - 0xC0) as int, (b[p + 1] - 0x80) as int);
      assert b[p..p'] == [b[p], b[p + 1]];
    }
  }

  lemma DecodedThree(b: seq<Byte>, p: nat)
    requires p < |b| && 0xE0 <= b[p] <= 0xEF
    ensures var (c, p') := DecodeWithin(b, p); (c, p') != (0xFFFD, p + 1) ==> b[p..p'] == EncodeChar(c)
  {
    hide EncodeChar;
    var (c, p') := DecodeWithin(b, p);
    if (c, p') != (0xFFFD, p + 1) {
      EncodeThree((b[p] - 0xE0) as int, (b[p + 1] - 0x80) as int, (b[p + 2] - 0x80) as int);
      assert b[p..p'] == [b[p], b[p + 1], b[p + 2]];
    }
  }

  lemma DecodedFour(b: seq<Byte>, p: nat)
    requires p < |b| && 0xF0 <= b[p]
    ensures var (c, p') := DecodeWithin(b, p); (c, p') != (0xFFFD, p + 1) ==> b[p..p'] == EncodeChar(c)
  {
    hide EncodeChar;
    var (c, p') := DecodeWithin(b, p);
    if (c, p') != (0xFFFD, p + 1) {
      EncodeFour((b[p] - 0xF0) as int, (b[p + 1] - 0x80) as int, (b[p + 2] - 0x80) as int, (b[p + 3] - 0x80) as int);
      assert b[p..p'] == [b[p], b[p + 1], b[p + 2], b[p + 3]];
    }
  }

  lemma EncodeTwo(x: nat, y: nat)
    requires 2 <= x < 0x20 && y < 0x40
    ensures EncodeChar(x * 0x40 + y) == [x + 0xC0, y + 0x80]
  {
    var c := x * 0x40 + y;
    assert c / 0x40 == x && c % 0x40 == y;
  }

  lemma EncodeThree(x: nat, y: nat, z: nat)
    requires x < 0x10 && y < 0x40 && z < 0x40 && (x == 0 ==> y >= 0x20)
    ensures EncodeChar(x * 0x1000 + y * 0x40 + z) == [x + 0xE0, y + 0x80, z + 0x80]
  {
    var c := x * 0x1000 + y * 0x40 + z;
    assert c / 0x40 == x * 0x40 + y && c % 0x40 == z && c / 0x1000 == x;
  }

  lemma EncodeFour(w: nat, x: nat, y: nat, z: nat)
    requires w <= 4 && x < 0x40 && y < 0x40 && z < 0x40 && (w == 0 ==> x >= 0x10) && (w == 4 ==> x < 0x10)
    ensures EncodeChar(w * 0x40000 + x * 0x1000 + y * 0x40 + z) == [w + 0xF0, x + 0x80, y + 0x80, z + 0x80]
  {
    var c := w * 0x40000 + x * 0x1000 + y * 0x40 + z;
    assert c / 0x40 == w * 0x1000 + x * 0x40 + y && c % 0x40 == z;
    assert c / 0x1000 == w * 0x40 + x && c / 0x40000 == w;
  }

  /** c is encoded at p. */
  predicate EncodedAt(b: seq<Byte>, p: nat, c: nat) {
    p + EncodedLength(c) <= |b| && b[p..p + EncodedLength(c)] == EncodeChar(c)
  }

  /** Bytes decode to a code point exactly if they begin with its encoding; if they begin with no encoding, one byte
      becomes an error. */
  lemma DecodeExact(b: seq<Byte>, p: nat)
    requires p < |b|
    ensures forall c: nat | c < 0x110000 :: EncodedAt(b, p, c) <==> DecodeWithin(b, p) == (c as int, p + EncodedLength(c))
    ensures DecodeWithin(b, p) == (0xFFFD, p + 1) <==> forall c: nat | c < 0x110000 :: !EncodedAt(b, p, c)
  {
    hide EncodeChar, DecodeWithin;
    DecodedIsEncoded(b, p);
    forall c: nat | c < 0x110000 ensures EncodedAt(b, p, c) <==> DecodeWithin(b, p) == (c as int, p + EncodedLength(c)) {
      if EncodedAt(b, p, c) {
        DecodeEncoded(c, b, p);
      }
    }
    var (d, p') := DecodeWithin(b, p);
    if (d, p') != (0xFFFD, p + 1) {
      assert |b[p..p']| == EncodedLength(d);
      assert EncodedAt(b, p, d);
    }
  }

  // ----- whole texts -----

  /** What the units at the front stand for. */
  function FirstChar(s: seq<Unit>): (r: (nat, nat))
    requires s != []
    ensures 1 <= r.1 <= 2 && r.1 <= |s| && r.0 < 0x110000
  {
    if IsHi(s[0]) && |s| > 1 && IsLo(s[1]) then (FromSurrogates(s[0], s[1]), 2) else (s[0], 1)
  }

  function Encoded(s: seq<Unit>): seq<Byte> {
    if s == [] then [] else EncodeChar(FirstChar(s).0) + Encoded(s[FirstChar(s).1..])
  }

  function UnitsOf(c: int): (s: seq<Unit>)
    requires 0 <= c < 0x110000
    ensures 1 <= |s| <= 2
  {
    if c > 0xFFFF then Pair(c) else [c]
  }

  /** The units that bytes decode to. */
  function Decoded(b: seq<Byte>, p: nat): seq<Unit>
    requires p <= |b|
    decreases |b| - p
  {
    if p == |b| then [] else UnitsOf(DecodeWithin(b, p).0) + Decoded(b, DecodeWithin(b, p).1)
  }

  /** Every sequence of units survives encoding and decoding. */
  lemma {:induction false} RoundTrip(s: seq<Unit>, b: seq<Byte>, p: nat)
    requires p <= |b| && b[p..] == Encoded(s)
    ensures Decoded(b, p) == s
    decreases |s|
  {
    hide EncodeChar, DecodeWithin;
    if s != [] {
      var (c, n) := FirstChar(s);
      var e, rest := EncodeChar(c), Encoded(s[n..]);
      assert b[p..p + |e|] == b[p..][..|e|] == e && b[p + |e|..] == b[p..][|e|..] == rest;
      DecodeEncoded(c, b, p);
      RoundTrip(s[n..], b, p + |e|);
      if n == 2 {
        PairBack(s[0], s[1]);
      }
      assert s == s[..n] + s[n..];
    }
  }

  // ----- buffers -----

  /** `utf8_decode_buf16`: the whole length is returned, as much as fits is stored */
  method DecodeBuffer(dest: array<Unit>, src: seq<Byte>) returns (i: nat)
    modifies dest
    ensures i == |Decoded(src, 0)|
    ensures forall k | 0 <= k < i && k < dest.Length :: dest[k] == Decoded(src, 0)[k]
    ensures forall k | i <= k < dest.Length :: dest[k] == old(dest[k])
  {
    hide DecodeWithin, Decoded, Pair;
    ghost var all := Decoded(src, 0);
    var p := 0;
    i := 0;
    while p < |src|
      invariant 0 <= p <= |src| && i <= |all| && all[i..] == Decoded(src, p)
      invariant forall k | 0 <= k < i && k < dest.Length :: dest[k] == all[k]
      invariant forall k | i <= k < dest.Length :: dest[k] == old(dest[k])
      decreases |src| - p
    {
      DecodedNext(src, p, all, i);
      var c: int := src[p];
      if c >= 0x80 {
        var (c', p') := DecodeWithin(src, p);
        c, p := c', p';
        if c > 0xFFFF {
          if i < dest.Length {
            dest[i] := Pair(c)[0];
          }
          i := i + 1;
          c := Pair(c)[1];
        }
      } else {
        PlainByte(src, p);
        p := p + 1;
      }
      if i < dest.Length {
        dest[i] := c;
      }
      i := i + 1;
    }
    NothingLeft(src);
  }

  lemma NothingLeft(b: seq<Byte>)
    ensures Decoded(b, |b|) == []
  {
  }

  /** One more code point. */
  lemma DecodedNext(b: seq<Byte>, p: nat, all: seq<Unit>, i: nat)
    requires p < |b| && i <= |all| && all[i..] == Decoded(b, p)
    ensures var (c, p') := DecodeWithin(b, p);
            var n := |UnitsOf(c)|;
            && i + n <= |all| && all[i + n..] == Decoded(b, p')
            && all[i] == UnitsOf(c)[0] && (n == 2 ==> all[i + 1] == UnitsOf(c)[1])
  {
    hide DecodeWithin, UnitsOf;
    var (c, p') := DecodeWithin(b, p);
    var u := UnitsOf(c);
    assert all[i..] == u + Decoded(b, p');
    assert all[i + |u|..] == all[i..][|u|..];
    assert all[i] == all[i..][0];
    if |u| == 2 {
      assert all[i + 1] == all[i..][1];
    }
  }

  lemma PlainByte(b: seq<Byte>, p: nat)
    requires p < |b| && b[p] < 0x80
    ensures DecodeWithin(b, p) == (b[p] as int, p + 1)
  {
  }

  /** `utf8_encode_buf16`: the whole length is returned; the longest run of whole code points that
      leaves room for a zero byte is stored, and the zero byte behind it */
  method EncodeBuffer(dest: array<Byte>, src: seq<Unit>) returns (j: nat, ghost k: nat)
    modifies dest
    ensures j == |Encoded(src)| && k <= j
    ensures dest.Length > 0 ==> k < dest.Length && dest[..k] == Encoded(src)[..k] && dest[k] == 0
    ensures k == j || EndsChar(src, k, dest.Length)
    ensures j < dest.Length ==> k == j
  {
    hide EncodeChar, Encoded, FirstChar, Cut;
    ghost var all := Encoded(src);
    var i := 0;
    j := 0;
    assert all[0..] == all && src[0..] == src;
    StartCut(src);
    while i < |src|
      invariant 0 <= i <= |src| && j <= |all| && all[j..] == Encoded(src[i..]) && (dest.Length > 0 ==> j < dest.Length)
      invariant j <= dest.Length && dest[..j] == all[..j]
      invariant Cut(src, i, j)
      decreases |src| - i
    {
      var (c, n) := FirstChar(src[i..]);
      EncodedNext(src, i, all, j);
      if j + EncodedLength(c) >= dest.Length {
        assert EndsChar(src, j, dest.Length);
        k := j;
        if j < dest.Length {
          ghost var low := dest[..j];
          dest[j] := 0;
          assert dest[..j] == low;
        }
        j := CountRest(src, i, j, all);
        return;
      }
      PutChar(dest, j, c);
      CutMore(src, i, j);
      assert all[..j + EncodedLength(c)] == all[..j] + EncodeChar(c);
      i := i + n;
      j := j + EncodedLength(c);
    }
    EncodedNone(src);
    k := j;
    if j < dest.Length {
      ghost var low := dest[..j];
      dest[j] := 0;
      assert dest[..j] == low;
    }
    assert all[..j] == all;
  }

  method PutChar(dest: array<Byte>, j: nat, c: nat)
    requires j + EncodedLength(c) <= dest.Length
    modifies dest
    ensures dest[..j + EncodedLength(c)] == old(dest[..j]) + EncodeChar(c)
  {
    hide EncodeChar;
    var e := EncodeChar(c);
    for x := 0 to |e|
      invariant dest[..j + x] == old(dest[..j]) + e[..x]
    {
      dest[j + x] := e[x];
      assert e[..x + 1] == e[..x] + [e[x]];
    }
    assert e[..|e|] == e;
  }

  /** The second loop, which only counts. */
  method CountRest(src: seq<Unit>, i0: nat, j0: nat, ghost all: seq<Byte>) returns (j: nat)
    requires i0 <= |src| && j0 <= |all| && all[j0..] == Encoded(src[i0..])
    ensures j == |all|
  {
    hide EncodeChar, Encoded, FirstChar;
    var i := i0;
    j := j0;
    while i < |src|
      invariant i0 <= i <= |src| && j <= |all| && all[j..] == Encoded(src[i..])
      decreases |src| - i
    {
      var (c, n) := FirstChar(src[i..]);
      EncodedNext(src, i, all, j);
      i := i + n;
      j := j + EncodedLength(c);
    }
    EncodedNone(src);
  }

  lemma EncodedNone(src: seq<Unit>)
    ensures Encoded(src[|src|..]) == []
  {
  }

  lemma EncodedNext(src: seq<Unit>, i: nat, all: seq<Byte>, j: nat)
    requires i < |src| && j <= |all| && all[j..] == Encoded(src[i..])
    ensures var (c, n) := FirstChar(src[i..]);
            && i + n <= |src| && j + EncodedLength(c) <= |all|
            && all[j..j + EncodedLength(c)] == EncodeChar(c) && all[j + EncodedLength(c)..] == Encoded(src[i + n..])
  {
    hide EncodeChar, FirstChar;
    var (c, n) := FirstChar(src[i..]);
    assert src[i..][n..] == src[i + n..];
    var m := EncodedLength(c);
    assert all[j..] == EncodeChar(c) + Encoded(src[i + n..]);
    assert all[j..j + m] == all[j..][..m] && all[j + m..] == all[j..][m..];
  }

  /** The first i units are whole code points and take j bytes. */
  predicate Cut(s: seq<Unit>, i: nat, j: nat) {
    if i == 0 then j == 0
    else
      && s != []
      && var (c, n) := FirstChar(s);
      n <= i && EncodedLength(c) <= j && Cut(s[n..], i - n, j - EncodedLength(c))
  }

  /** After k bytes comes a code point whose encoding and a zero byte do not fit in `room`. */
  ghost predicate EndsChar(s: seq<Unit>, k: nat, room: int) {
    exists i | 0 <= i < |s| :: Cut(s, i, k) && k + EncodedLength(FirstChar(s[i..]).0) >= room
  }

  lemma StartCut(s: seq<Unit>)
    ensures Cut(s, 0, 0)
  {
  }

  lemma {:induction false} CutMore(s: seq<Unit>, i: nat, j: nat)
    requires i < |s| && Cut(s, i, j)
    ensures var (c, n) := FirstChar(s[i..]);
            Cut(s, i + n, j + EncodedLength(c))
  {
    hide FirstChar;
    if i == 0 {
      assert s[0..] == s;
    } else {
      var (c, n) := FirstChar(s);
      CutMore(s[n..], i - n, j - EncodedLength(c));
      assert s[n..][i - n..] == s[i..];
    }
  }

  // ----- scanning -----

  /** What `utf8_scan` reports besides the number of units. */
  datatype Content = Content(nonAscii: bool, has16Bit: bool, hasPairs: bool, hasErrors: bool)

  /** A code point at or after p that is larger than `limit`. */
  predicate HasAbove(b: seq<Byte>, p: nat, limit: int)
    requires p <= |b|
    decreases |b| - p
  {
    p < |b| && (DecodeWithin(b, p).0 > limit || HasAbove(b, DecodeWithin(b, p).1, limit))
  }

  /** A byte at or after p that starts no valid sequence. */
  predicate HasError(b: seq<Byte>, p: nat)
    requires p <= |b|
    decreases |b| - p
  {
    p < |b| && ((b[p] >= 0x80 && DecodeWithin(b, p).1 == p + 1) || HasError(b, DecodeWithin(b, p).1))
  }

  predicate Plain(b: seq<Byte>, p: nat) {
    forall i | p <= i < |b| :: b[i] < 0x80
  }

  lemma {:induction false} PlainText(b: seq<Byte>, p: nat)
    requires p <= |b| && Plain(b, p)
    ensures |Decoded(b, p)| == |b| - p && !HasAbove(b, p, 0xFF) && !HasAbove(b, p, 0xFFFF) && !HasError(b, p)
    decreases |b| - p
  {
    hide DecodeWithin;
    if p < |b| {
      PlainByte(b, p);
      PlainText(b, p + 1);
    }
  }

  /** `utf8_scan`: the number of units is what decoding would store, malformed or not */
  method Scan(b: seq<Byte>) returns (content: Content, len: nat)
    ensures len == |Decoded(b, 0)|
    ensures content == Content(!Plain(b, 0), HasAbove(b, 0, 0xFF), HasAbove(b, 0, 0xFFFF), HasError(b, 0))
  {
    hide DecodeWithin, Decoded, HasAbove, HasError;
    content := Content(false, false, false, false);
    len := |b|;
    var plain := true;
    for i := 0 to |b|
      invariant plain == forall k | 0 <= k < i :: b[k] < 0x80
    {
      plain := plain && b[i] < 0x80;
    }
    if plain {
      PlainText(b, 0);
      return;
    }
    content := Content(true, false, false, false);
    len := 0;
    var p := 0;
    ghost var all := Decoded(b, 0);
    while p < |b|
      invariant 0 <= p <= |b| && |all| == len + |Decoded(b, p)| && content.nonAscii
      invariant HasAbove(b, 0, 0xFF) == (content.has16Bit || HasAbove(b, p, 0xFF))
      invariant HasAbove(b, 0, 0xFFFF) == (content.hasPairs || HasAbove(b, p, 0xFFFF))
      invariant HasError(b, 0) == (content.hasErrors || HasError(b, p))
      decreases |b| - p
    {
      ScanStep(b, p);
      len := len + 1;
      if b[p] >= 0x80 {
        var (c, p') := DecodeWithin(b, p);
        if p' == p + 1 {
          content := content.(hasErrors := true);
        }
        p := p';
        if c > 0xFF {
          content := content.(has16Bit := true);
          if c > 0xFFFF {
            len := len + 1;
            content := content.(hasPairs := true);
          }
        }
      } else {
        PlainByte(b, p);
        p := p + 1;
      }
    }
    ScanEnd(b);
  }

  lemma ScanStep(b: seq<Byte>, p: nat)
    requires p < |b|
    ensures var (c, p') := DecodeWithin(b, p);
            && |Decoded(b, p)| == (if c > 0xFFFF then 2 else 1) + |Decoded(b, p')|
            && HasAbove(b, p, 0xFF) == (c > 0xFF || HasAbove(b, p', 0xFF))
            && HasAbove(b, p, 0xFFFF) == (c > 0xFFFF || HasAbove(b, p', 0xFFFF))
            && HasError(b, p) == ((b[p] >= 0x80 && p' == p + 1) || HasError(b, p'))
  {
    hide DecodeWithin;
  }

  lemma ScanEnd(b: seq<Byte>)
    ensures Decoded(b, |b|) == [] && !HasAbove(b, |b|, 0xFF) && !HasAbove(b, |b|, 0xFFFF) && !HasError(b, |b|)
  {
  }

  // ----- texts as code points -----

  predicate CodePoints(cs: seq<nat>) {
    forall i | 0 <= i < |cs| :: cs[i] < 0x110000
  }

  /** No pair of surrogates stands for two code points. */
  predicate Joined(cs: seq<nat>) {
    forall i | 0 <= i < |cs| - 1 :: !(IsHi(cs[i]) && IsLo(cs[i + 1]))
  }

  function EncodeAll(cs: seq<nat>): seq<Byte> {
    if cs == [] then [] else EncodeChar(cs[0]) + EncodeAll(cs[1..])
  }

  function UnitsAll(cs: seq<nat>): seq<Unit>
    requires CodePoints(cs)
  {
    if cs == [] then [] else UnitsOf(cs[0]) + UnitsAll(cs[1..])
  }

  /** What the units stand for. */
  function Points(s: seq<Unit>): (cs: seq<nat>)
    ensures CodePoints(cs)
  {
    if s == [] then [] else [FirstChar(s).0] + Points(s[FirstChar(s).1..])
  }

  /** Units are encoded as the UTF-8 of code points that stand for them, with every pair joined. */
  lemma {:induction false} PointsAre(s: seq<Unit>)
    ensures UnitsAll(Points(s)) == s && Joined(Points(s)) && Encoded(s) == EncodeAll(Points(s))
  {
    hide EncodeChar;
    if s != [] {
      var (c, n) := FirstChar(s);
      PointsAre(s[n..]);
      var cs, rest := Points(s), Points(s[n..]);
      assert cs[1..] == rest;
      if n == 2 {
        PairBack(s[0], s[1]);
      }
      assert s == s[..n] + s[n..];
      forall i | 0 <= i < |cs| - 1 ensures !(IsHi(cs[i]) && IsLo(cs[i + 1])) {
        if i > 0 {
          assert cs[i] == rest[i - 1] && cs[i + 1] == rest[i];
        } else {
          FirstOfRest(s[n..]);
        }
      }
    }
  }

  lemma FirstOfRest(s: seq<Unit>)
    ensures Points(s) != [] ==> s != [] && (IsLo(Points(s)[0]) ==> IsLo(s[0]))
  {
  }

  /** There is only one such way to read units. */
  lemma {:induction false} PointsUnique(cs: seq<nat>)
    requires CodePoints(cs) && Joined(cs)
    ensures Points(UnitsAll(cs)) == cs
  {
    hide Pair;
    if cs != [] {
      var s, rest := UnitsAll(cs), cs[1..];
      forall i | 0 <= i < |rest| - 1 ensures !(IsHi(rest[i]) && IsLo(rest[i + 1])) {
        assert rest[i] == cs[i + 1] && rest[i + 1] == cs[i + 2];
      }
      PointsUnique(rest);
      FirstUnits(cs);
      assert cs == [cs[0]] + rest;
      assert s[|UnitsOf(cs[0])|..] == UnitsAll(rest);
    }
  }

  lemma FirstUnits(cs: seq<nat>)
    requires CodePoints(cs) && Joined(cs) && cs != []
    ensures var s := UnitsAll(cs); s != [] && FirstChar(s) == (cs[0], |UnitsOf(cs[0])|)
  {
    if |cs| > 1 {
      var rest := cs[1..];
      assert UnitsAll(cs) == UnitsOf(cs[0]) + (UnitsOf(rest[0]) + UnitsAll(rest[1..]));
      assert !(IsHi(cs[0]) && IsLo(cs[1]));
    } else {
      assert UnitsAll(cs) == UnitsOf(cs[0]) + [];
    }
  }

  /** Bytes that encode code points decode to their units without an error. */
  lemma {:induction false} EncodedText(b: seq<Byte>, p: nat, cs: seq<nat>)
    requires p <= |b| && CodePoints(cs) && b[p..] == EncodeAll(cs)
    ensures Decoded(b, p) == UnitsAll(cs) && !HasError(b, p)
    ensures forall limit :: HasAbove(b, p, limit) <==> exists i | 0 <= i < |cs| :: cs[i] > limit
    decreases |cs|
  {
    hide EncodeChar, DecodeWithin;
    if cs != [] {
      var c, rest, n := cs[0], cs[1..], EncodedLength(cs[0]);
      assert b[p..p + n] == b[p..][..n] == EncodeChar(c) && b[p + n..] == b[p..][n..] == EncodeAll(rest);
      DecodeEncoded(c, b, p);
      EncodedText(b, p + n, rest);
      LeadByte(c, b, p);
      forall limit ensures HasAbove(b, p, limit) <==> exists i | 0 <= i < |cs| :: cs[i] > limit {
        if i :| 0 <= i < |rest| && rest[i] > limit {
          assert cs[i + 1] > limit;
        }
        if i :| 0 <= i < |cs| && cs[i] > limit {
          assert i > 0 ==> rest[i - 1] == cs[i];
        }
      }
    }
  }

  lemma LeadByte(c: nat, b: seq<Byte>, p: nat)
    requires p + EncodedLength(c) <= |b| && b[p..p + EncodedLength(c)] == EncodeChar(c)
    ensures b[p] >= 0x80 ==> EncodedLength(c) > 1
  {
    assert b[p] == b[p..p + EncodedLength(c)][0];
  }

  /** `Scan` reports an error exactly if the bytes do not encode any code points. */
  lemma {:induction false} ErrorFree(b: seq<Byte>, p: nat) returns (cs: seq<nat>)
    requires p <= |b| && !HasError(b, p)
    ensures CodePoints(cs) && b[p..] == EncodeAll(cs)
    decreases |b| - p
  {
    hide EncodeChar, DecodeWithin;
    cs := [];
    if p < |b| {
      var (c, p') := DecodeWithin(b, p);
      DecodedIsEncoded(b, p);
      if b[p] < 0x80 {
        PlainByte(b, p);
      }
      var rest := ErrorFree(b, p');
      cs := [c] + rest;
      assert b[p..] == b[p..p'] + b[p'..] && cs[1..] == rest;
    }
  }

  lemma ErrorExact(b: seq<Byte>)
    ensures HasError(b, 0) <==> forall cs | CodePoints(cs) :: b != EncodeAll(cs)
  {
    hide EncodeAll, HasError, CodePoints, Decoded;
    assert b[0..] == b;
    if !HasError(b, 0) {
      var cs := ErrorFree(b, 0);
    } else if cs :| CodePoints(cs) && b == EncodeAll(cs) {
      EncodedText(b, 0, cs);
    }
  }
}
