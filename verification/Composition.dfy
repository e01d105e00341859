/** Full decomposition, and what composing after it keeps. */
module Composition {
  import opened Normalization

  // ----- decomposition -----

  /** Decomposition ends: every step leads to characters of smaller rank. */
  ghost predicate Grounded(decomp: int -> seq<int>, rank: int -> nat) {
    forall c, i | 0 <= i < |decomp(c)| :: rank(decomp(c)[i]) < rank(c)
  }

  ghost predicate RankedBelow(rank: int -> nat, s: seq<int>, n: nat) {
    forall i | 0 <= i < |s| :: rank(s[i]) < n
  }

  /** The full decomposition of a text whose characters have ranks below n. */
  ghost function Nfd(decomp: int -> seq<int>, rank: int -> nat, s: seq<int>, n: nat): seq<int>
    requires Grounded(decomp, rank) && RankedBelow(rank, s, n)
    decreases n, |s|
  {
    if s == [] then []
    else
      var c := s[|s| - 1];
      Nfd(decomp, rank, s[..|s| - 1], n)
      + if IsSyllable(c) then Letters(c)
        else if decomp(c) == [] then [c]
        else Nfd(decomp, rank, decomp(c), rank(c))
  }

  /** `to_nfd_rec` */
  method ToNfd(dbuf: seq<int>, src: seq<int>, decomp: int -> seq<int>, ghost rank: int -> nat, ghost n: nat) returns (r: seq<int>)
    requires Grounded(decomp, rank) && RankedBelow(rank, src, n)
    ensures r == dbuf + Nfd(decomp, rank, src, n)
    decreases n, |src|
  {
    hide Letters, Nfd, Grounded;
    r := dbuf;
    NfdNone(decomp, rank, src, n);
    for i := 0 to |src|
      invariant r == dbuf + Nfd(decomp, rank, src[..i], n)
    {
      var c := src[i];
      NfdNext(decomp, rank, src, n, i);
      if IsSyllable(c) {
        r := r + Letters(c);
      } else {
        var res := decomp(c);
        if res != [] {
          r := ToNfd(r, res, decomp, rank, rank(c));
        } else {
          r := r + [c];
        }
      }
    }
    assert src[..|src|] == src;
  }

  lemma NfdNone(decomp: int -> seq<int>, rank: int -> nat, s: seq<int>, n: nat)
    requires Grounded(decomp, rank)
    ensures Nfd(decomp, rank, s[..0], n) == []
  {
  }

  lemma NfdNext(decomp: int -> seq<int>, rank: int -> nat, s: seq<int>, n: nat, i: nat)
    requires Grounded(decomp, rank) && RankedBelow(rank, s, n) && i < |s|
    ensures var c := s[i];
            && RankedBelow(rank, decomp(c), rank(c))
            && Nfd(decomp, rank, s[..i + 1], n) ==
               Nfd(decomp, rank, s[..i], n)
               + if IsSyllable(c) then Letters(c)
                 else if decomp(c) == [] then [c]
                 else Nfd(decomp, rank, decomp(c), rank(c))
  {
    hide Letters;
    assert s[..i + 1][..i] == s[..i];
  }

  lemma {:induction false} NfdSyllables(decomp: int -> seq<int>, rank: int -> nat, s: seq<int>, n: nat)
    requires Grounded(decomp, rank) && RankedBelow(rank, s, n) && AllSyllables(s)
    ensures Nfd(decomp, rank, s, n) == AllLetters(s)
  {
    if s != [] {
      NfdSyllables(decomp, rank, s[..|s| - 1], n);
    }
  }

  lemma {:induction false} LettersOrdered(cc: int -> nat, table: (int, int) -> int, s: seq<int>)
    requires HangulFree(cc, table) && AllSyllables(s)
    ensures forall i | 0 <= i < |AllLetters(s)| :: cc(AllLetters(s)[i]) == 0
  {
    hide Letters;
    if s != [] {
      LettersOrdered(cc, table, s[..|s| - 1]);
    }
  }

  lemma LettersStay(cc: int -> nat, table: (int, int) -> int, s: seq<int>)
    requires HangulFree(cc, table) && AllSyllables(s)
    ensures Reorder(cc, AllLetters(s)) == AllLetters(s) && (s != [] ==> |AllLetters(s)| >= 2)
  {
    LettersOrdered(cc, table, s);
    ReorderOrdered(cc, AllLetters(s));
  }

  // ----- decomposing character by character -----

  /** The full decomposition of one character. */
  ghost function One(decomp: int -> seq<int>, rank: int -> nat, c: int): seq<int>
    requires Grounded(decomp, rank)
  {
    if IsSyllable(c) then Letters(c)
    else if decomp(c) == [] then [c]
    else Nfd(decomp, rank, decomp(c), rank(c))
  }

  ghost function Decomposed(decomp: int -> seq<int>, rank: int -> nat, s: seq<int>): seq<int>
    requires Grounded(decomp, rank)
  {
    if s == [] then [] else Decomposed(decomp, rank, s[..|s| - 1]) + One(decomp, rank, s[|s| - 1])
  }

  lemma {:induction false} NfdIs(decomp: int -> seq<int>, rank: int -> nat, s: seq<int>, n: nat)
    requires Grounded(decomp, rank) && RankedBelow(rank, s, n)
    ensures Nfd(decomp, rank, s, n) == Decomposed(decomp, rank, s)
  {
    hide Letters;
    if s != [] {
      NfdIs(decomp, rank, s[..|s| - 1], n);
    }
  }

  lemma DecomposedPush(decomp: int -> seq<int>, rank: int -> nat, s: seq<int>, x: int)
    requires Grounded(decomp, rank)
    ensures Decomposed(decomp, rank, s + [x]) == Decomposed(decomp, rank, s) + One(decomp, rank, x)
  {
    hide One;
    assert (s + [x])[..|s|] == s;
  }

  lemma {:induction false} DecomposedJoin(decomp: int -> seq<int>, rank: int -> nat, s: seq<int>, t: seq<int>)
    requires Grounded(decomp, rank)
    ensures Decomposed(decomp, rank, s + t) == Decomposed(decomp, rank, s) + Decomposed(decomp, rank, t)
  {
    hide One, Decomposed, Grounded;
    if t == [] {
      assert s + t == s;
      NothingDecomposed(decomp, rank);
    } else {
      var u, x := t[..|t| - 1], t[|t| - 1];
      DecomposedJoin(decomp, rank, s, u);
      assert s + t == s + u + [x] && t == u + [x];
      DecomposedPush(decomp, rank, s + u, x);
      DecomposedPush(decomp, rank, u, x);
      Join(Decomposed(decomp, rank, s), Decomposed(decomp, rank, u), One(decomp, rank, x));
    }
  }

  lemma NothingDecomposed(decomp: int -> seq<int>, rank: int -> nat)
    requires Grounded(decomp, rank)
    ensures Decomposed(decomp, rank, []) == []
  {
  }

  lemma Join(s: seq<int>, t: seq<int>, u: seq<int>)
    ensures s + t + u == s + (t + u)
  {
  }

  /** A character that does not decompose. */
  predicate Plain(decomp: int -> seq<int>, c: int) {
    !IsSyllable(c) && decomp(c) == []
  }

  predicate AllPlain(decomp: int -> seq<int>, s: seq<int>) {
    forall i | 0 <= i < |s| :: Plain(decomp, s[i])
  }

  lemma {:induction false} PlainStays(decomp: int -> seq<int>, rank: int -> nat, s: seq<int>)
    requires Grounded(decomp, rank) && AllPlain(decomp, s)
    ensures Decomposed(decomp, rank, s) == s
  {
    if s != [] {
      PlainStays(decomp, rank, s[..|s| - 1]);
      assert s == s[..|s| - 1] + [s[|s| - 1]];
    }
  }

  // ----- what is assumed of the tables -----

  const FILLER := 0x11a7

  predicate IsLetter(c: int) {
    IsLead(c) || IsVowel(c) || FILLER <= c < FILLER + 28
  }

  /** The composition table undoes the decomposition table, starters compose to starters, and both leave Hangul
      to the rules. */
  ghost predicate Consistent(cc: int -> nat, decomp: int -> seq<int>, table: (int, int) -> int) {
    && (forall c | IsSyllable(c) || IsLetter(c) :: cc(c) == 0)
    && (forall c :: cc(c) < 256)
    && (forall c | IsLetter(c) :: decomp(c) == [])
    && (forall c, i | 0 <= i < |decomp(c)| :: decomp(c)[i] != FILLER)
    && (forall a, b | IsLetter(b) :: table(a, b) == 0)
    && forall a, b | table(a, b) != 0 ::
         !IsSyllable(table(a, b)) && decomp(table(a, b)) == [a, b] && (cc(a) == 0 ==> cc(table(a, b)) == 0)
  }

  lemma LettersPlain(cc: int -> nat, decomp: int -> seq<int>, table: (int, int) -> int, c: int)
    requires Consistent(cc, decomp, table) && IsSyllable(c)
    ensures AllPlain(decomp, Letters(c)) && FILLER !in Letters(c)
  {
    hide Letters;
    forall i | 0 <= i < |Letters(c)| ensures Plain(decomp, Letters(c)[i]) && Letters(c)[i] != FILLER {
      assert IsLetter(Letters(c)[i]);
    }
  }

  lemma PlainJoin(decomp: int -> seq<int>, s: seq<int>, t: seq<int>)
    requires AllPlain(decomp, s) && AllPlain(decomp, t)
    ensures AllPlain(decomp, s + t)
  {
    hide Plain;
  }

  /** A full decomposition does not decompose further. */
  lemma {:induction false} NfdPlain(cc: int -> nat, decomp: int -> seq<int>, table: (int, int) -> int, rank: int -> nat, s: seq<int>, n: nat)
    requires Consistent(cc, decomp, table) && Grounded(decomp, rank) && RankedBelow(rank, s, n)
    ensures AllPlain(decomp, Nfd(decomp, rank, s, n))
    decreases n, |s|
  {
    hide Letters, Consistent, AllPlain, Nfd;
    NfdNone(decomp, rank, s, n);
    NonePlain(decomp);
    if s != [] {
      var c, t := s[|s| - 1], s[..|s| - 1];
      NfdPlain(cc, decomp, table, rank, t, n);
      NfdNext(decomp, rank, s, n, |s| - 1);
      assert s[..|s|] == s;
      if IsSyllable(c) {
        LettersPlain(cc, decomp, table, c);
      } else if decomp(c) != [] {
        NfdPlain(cc, decomp, table, rank, decomp(c), rank(c));
      } else {
        OnePlain(decomp, c);
      }
      PlainJoin(decomp, Nfd(decomp, rank, t, n), One(decomp, rank, c));
    } else {
      assert s[..0] == s;
    }
  }

  lemma NonePlain(decomp: int -> seq<int>)
    ensures AllPlain(decomp, [])
  {
  }

  lemma OnePlain(decomp: int -> seq<int>, c: int)
    requires Plain(decomp, c)
    ensures AllPlain(decomp, [c])
  {
  }

  /** No character decomposes to the filler. */
  lemma {:induction false} NfdFiller(cc: int -> nat, decomp: int -> seq<int>, table: (int, int) -> int, rank: int -> nat, s: seq<int>, n: nat)
    requires Consistent(cc, decomp, table) && Grounded(decomp, rank) && RankedBelow(rank, s, n) && FILLER !in s
    ensures FILLER !in Nfd(decomp, rank, s, n)
    decreases n, |s|
  {
    hide Letters, Nfd, Grounded;
    NfdNone(decomp, rank, s, n);
    if s != [] {
      var c, t := s[|s| - 1], s[..|s| - 1];
      NfdFiller(cc, decomp, table, rank, t, n);
      NfdNext(decomp, rank, s, n, |s| - 1);
      assert s[..|s|] == s;
      if IsSyllable(c) {
        LettersPlain(cc, decomp, table, c);
      } else if decomp(c) != [] {
        NfdFiller(cc, decomp, table, rank, decomp(c), rank(c));
      }
    } else {
      assert s[..0] == s;
    }
  }

  // ----- one step of composition -----

  /** A syllable without a trailing letter. */
  predicate IsOpen(c: int) {
    IsSyllable(c) && (c - 0xac00) % 28 == 0
  }

  lemma {:induction false} FindBelow(cc: int -> nat, out: seq<int>, k: int)
    requires -1 <= k < |out| && forall c :: cc(c) < 256
    ensures var (pos, blocked) := Find(cc, out, k, 256);
            !blocked && (pos >= 0 ==> cc(out[pos]) == 0) && forall j | pos < j <= k :: cc(out[j]) != 0
    decreases k + 1
  {
    if k >= 0 && cc(out[k]) != 0 {
      FindBelow(cc, out, k - 1);
    }
  }

  lemma {:induction false} Ascends(cc: int -> nat, out: seq<int>, j: nat)
    requires Ordered(cc, out) && j < |out| && forall i | j <= i < |out| :: cc(out[i]) != 0
    ensures cc(out[j]) <= cc(out[|out| - 1])
    decreases |out| - j
  {
    if j < |out| - 1 {
      Ascends(cc, out, j + 1);
    }
  }

  /** The characters between the starter found and x have smaller classes than x. */
  lemma FoundStarter(cc: int -> nat, out: seq<int>, x: int)
    requires Ordered(cc, out) && forall c :: cc(c) < 256
    ensures var (pos, blocked) := Find(cc, out, |out| - 1, cc(x));
            pos >= 0 && !blocked ==> cc(out[pos]) == 0 && forall j | pos < j < |out| :: 0 < cc(out[j]) < cc(x)
  {
    var (pos, blocked) := Find(cc, out, |out| - 1, cc(x));
    if pos >= 0 && !blocked && cc(out[|out| - 1]) != 0 {
      FindBelow(cc, out, |out| - 2);
      forall j | pos < j < |out| ensures 0 < cc(out[j]) < cc(x) {
        Ascends(cc, out, j);
      }
    }
  }

  /** A starter in the last place is found at once. */
  lemma FoundLast(cc: int -> nat, out: seq<int>, x: int)
    requires out != [] && cc(out[|out| - 1]) == 0
    ensures Find(cc, out, |out| - 1, cc(x)) == (|out| - 1, false)
  {
  }

  lemma LeadVowel(l: int, v: int)
    requires IsLead(l) && IsVowel(v)
    ensures var c := 0xac00 + (l - 0x1100) * 588 + (v - 0x1161) * 28; IsOpen(c) && Letters(c) == [l, v]
  {
    var i := (l - 0x1100) * 588 + (v - 0x1161) * 28;
    assert i / 588 == l - 0x1100 && i % 588 == (v - 0x1161) * 28 && i % 28 == 0;
  }

  lemma Trailing(c: int, t: int)
    requires IsOpen(c) && FILLER < t < FILLER + 28
    ensures IsSyllable(c + t - FILLER) && !IsOpen(c + t - FILLER) && Letters(c + t - FILLER) == Letters(c) + [t]
  {
    var i, k := c - 0xac00, t - FILLER;
    assert (i + k) % 28 == k && (i + k) / 28 == i / 28;
    assert (i + k) / 588 == i / 588 && (i + k) % 588 / 28 == i % 588 / 28;
  }

  /** Unless the filler is swallowed, composing a pair keeps its decomposition. */
  lemma PairKeeps(cc: int -> nat, decomp: int -> seq<int>, table: (int, int) -> int, rank: int -> nat, c: int, x: int)
    requires Consistent(cc, decomp, table) && Grounded(decomp, rank) && Plain(decomp, x) && cc(c) == 0
    requires ComposePair(table, c, x) != 0 && !(IsOpen(c) && x == FILLER)
    ensures var p := ComposePair(table, c, x); One(decomp, rank, p) == One(decomp, rank, c) + [x] && cc(p) == 0 && !IsLead(p)
  {
    hide Letters;
    var p := ComposePair(table, c, x);
    if IsLead(c) && IsVowel(x) {
      LeadVowel(c, x);
    } else if IsOpen(c) && FILLER <= x < FILLER + 28 {
      Trailing(c, x);
    } else {
      assert decomp(p) == [c, x] && RankedBelow(rank, [c, x], rank(p));
      NfdIs(decomp, rank, [c, x], rank(p));
      assert [c, x] == [] + [c] + [x];
      DecomposedPush(decomp, rank, [] + [c], x);
      DecomposedPush(decomp, rank, [], c);
      assert Decomposed(decomp, rank, []) + One(decomp, rank, c) == One(decomp, rank, c);
    }
  }

  /** Starters may be composed; the other characters are as they were. */
  ghost predicate Tidy(cc: int -> nat, decomp: int -> seq<int>, out: seq<int>) {
    Ordered(cc, out) && forall j | 0 <= j < |out| && cc(out[j]) != 0 :: Plain(decomp, out[j])
  }

  lemma {:induction false} ClassJoin(cc: int -> nat, k: nat, s: seq<int>, t: seq<int>)
    ensures Class(cc, k, s + t) == Class(cc, k, s) + Class(cc, k, t)
  {
    hide Kept, Class;
    if t == [] {
      assert s + t == s;
      NoClass(cc, k);
    } else {
      var u, x := t[..|t| - 1], t[|t| - 1];
      ClassJoin(cc, k, s, u);
      assert s + t == s + u + [x] && t == u + [x];
      ClassPush(cc, k, s + u, x);
      ClassPush(cc, k, u, x);
      Join(Class(cc, k, s), Class(cc, k, u), Kept(cc, k, x));
    }
  }

  lemma {:induction false} NoneOfClass(cc: int -> nat, k: nat, m: seq<int>)
    requires forall j | 0 <= j < |m| :: cc(m[j]) != 0 && cc(m[j]) != k
    ensures Class(cc, k, m) == []
  {
    if m != [] {
      NoneOfClass(cc, k, m[..|m| - 1]);
    }
  }

  /** Characters of smaller classes do not get in the way. */
  lemma MoveBack(cc: int -> nat, k: nat, u: seq<int>, m: seq<int>, x: int)
    requires forall j | 0 <= j < |m| :: 0 < cc(m[j]) < cc(x)
    ensures Class(cc, k, u + [x] + m) == Class(cc, k, u + m) + Kept(cc, k, x)
  {
    hide Class;
    ClassJoin(cc, k, u + [x], m);
    ClassPush(cc, k, u, x);
    ClassJoin(cc, k, u, m);
    if m == [] {
      NoClass(cc, k);
    } else {
      assert 0 < cc(m[0]) < cc(x);
      if k == cc(x) {
        NoneOfClass(cc, k, m);
      }
    }
    Exchange(Class(cc, k, u), Kept(cc, k, x), Class(cc, k, m));
  }

  lemma Exchange(s: seq<int>, t: seq<int>, u: seq<int>)
    requires t == [] || u == []
    ensures s + t + u == s + u + t
  {
    assert s + [] == s && s + t + [] == s + t && s + u + [] == s + u;
  }

  /** Composing with the starter at pos moves x in front of the characters behind the starter. */
  lemma ComposedText(cc: int -> nat, decomp: int -> seq<int>, table: (int, int) -> int, rank: int -> nat, out: seq<int>, pos: nat, x: int)
      returns (u: seq<int>, m: seq<int>)
    requires Consistent(cc, decomp, table) && Grounded(decomp, rank) && Tidy(cc, decomp, out) && Plain(decomp, x)
    requires pos < |out| && cc(out[pos]) == 0 && (forall j | pos < j < |out| :: 0 < cc(out[j]) < cc(x))
    requires ComposePair(table, out[pos], x) != 0 && !(IsOpen(out[pos]) && x == FILLER)
    ensures var p := ComposePair(table, out[pos], x);
            Decomposed(decomp, rank, out) == u + m && Decomposed(decomp, rank, out[pos := p]) == u + [x] + m
    ensures forall j | 0 <= j < |m| :: 0 < cc(m[j]) < cc(x)
  {
    hide Consistent, ComposePair, One, Plain, IsOpen, Decomposed, Grounded;
    var c, p := out[pos], ComposePair(table, out[pos], x);
    var a := out[..pos];
    m := out[pos + 1..];
    PairKeeps(cc, decomp, table, rank, c, x);
    assert out == a + [c] + m && out[pos := p] == a + [p] + m;
    DecomposedJoin(decomp, rank, a + [c], m);
    DecomposedJoin(decomp, rank, a + [p], m);
    DecomposedPush(decomp, rank, a, c);
    DecomposedPush(decomp, rank, a, p);
    forall j | 0 <= j < |m| ensures Plain(decomp, m[j]) && 0 < cc(m[j]) < cc(x) {
      assert m[j] == out[pos + 1 + j];
    }
    PlainStays(decomp, rank, m);
    u := Decomposed(decomp, rank, a) + One(decomp, rank, c);
    assert Decomposed(decomp, rank, a) + (One(decomp, rank, c) + [x]) == u + [x];
  }

  predicate Swallows(out: seq<int>, x: int) {
    out != [] && IsOpen(out[|out| - 1]) && x == FILLER
  }

  /** One step adds x to the decomposition of the text composed so far, up to order between classes. */
  lemma StepKeeps(cc: int -> nat, decomp: int -> seq<int>, table: (int, int) -> int, rank: int -> nat, out: seq<int>, x: int, k: nat)
    requires Consistent(cc, decomp, table) && Grounded(decomp, rank) && Tidy(cc, decomp, out) && Plain(decomp, x) && !Swallows(out, x)
    ensures var d, d' := Decomposed(decomp, rank, out), Decomposed(decomp, rank, Step(cc, table, out, x));
            Class(cc, k, d') == Class(cc, k, d) + Kept(cc, k, x) && multiset(d') == multiset(d) + multiset{x}
  {
    hide Class, Find, ComposePair, One, Decomposed, IsOpen;
    var (pos, blocked) := Find(cc, out, |out| - 1, cc(x));
    var d := Decomposed(decomp, rank, out);
    FoundStarter(cc, out, x);
    if pos >= 0 && !blocked && ComposePair(table, out[pos], x) != 0 {
      hide Kept;
      assert pos < |out| - 1 ==> cc(x) > cc(out[|out| - 1]) >= 0;
      var u, m := ComposedText(cc, decomp, table, rank, out, pos, x);
      MoveBack(cc, k, u, m, x);
    } else {
      DecomposedPush(decomp, rank, out, x);
      PlainOne(decomp, rank, x);
      ClassPush(cc, k, d, x);
    }
  }

  lemma PlainOne(decomp: int -> seq<int>, rank: int -> nat, x: int)
    requires Grounded(decomp, rank) && Plain(decomp, x)
    ensures One(decomp, rank, x) == [x]
  {
  }

  /** The filler behind an open syllable disappears. */
  lemma StepSwallows(cc: int -> nat, decomp: int -> seq<int>, table: (int, int) -> int, out: seq<int>, x: int)
    requires Consistent(cc, decomp, table) && Swallows(out, x)
    ensures Step(cc, table, out, x) == out
  {
    FoundLast(cc, out, x);
  }

  lemma StepTidy(cc: int -> nat, decomp: int -> seq<int>, table: (int, int) -> int, rank: int -> nat, out: seq<int>, x: int)
    requires Consistent(cc, decomp, table) && Grounded(decomp, rank) && Tidy(cc, decomp, out) && Plain(decomp, x)
    requires out == [] || cc(out[|out| - 1]) <= cc(x) || cc(x) == 0
    ensures var out' := Step(cc, table, out, x); out' != [] && Tidy(cc, decomp, out') && cc(out'[|out'| - 1]) <= cc(x)
  {
    hide Find, ComposePair, IsOpen, Grounded, Tidy, Consistent;
    var (pos, blocked) := Find(cc, out, |out| - 1, cc(x));
    var p := if pos >= 0 && !blocked then ComposePair(table, out[pos], x) else 0;
    SmallClasses(cc, decomp, table);
    TidyOrdered(cc, decomp, out);
    FoundStarter(cc, out, x);
    if p != 0 {
      ComposedStarter(cc, decomp, table, rank, out[pos], x);
      TidySet(cc, decomp, out, pos, p);
    } else {
      TidyPush(cc, decomp, out, x);
    }
  }

  lemma ComposedStarter(cc: int -> nat, decomp: int -> seq<int>, table: (int, int) -> int, rank: int -> nat, c: int, x: int)
    requires Consistent(cc, decomp, table) && Grounded(decomp, rank) && Plain(decomp, x) && cc(c) == 0 && ComposePair(table, c, x) != 0
    ensures cc(ComposePair(table, c, x)) == 0
  {
    if !(IsOpen(c) && x == FILLER) {
      PairKeeps(cc, decomp, table, rank, c, x);
    }
  }

  lemma TidyOrdered(cc: int -> nat, decomp: int -> seq<int>, out: seq<int>)
    requires Tidy(cc, decomp, out)
    ensures Ordered(cc, out)
  {
  }

  lemma TidySet(cc: int -> nat, decomp: int -> seq<int>, out: seq<int>, pos: nat, p: int)
    requires Tidy(cc, decomp, out) && pos < |out| && cc(out[pos]) == cc(p) == 0
    ensures Tidy(cc, decomp, out[pos := p])
  {
    hide Plain;
    var r := out[pos := p];
    forall i | 0 <= i < |r| ensures cc(r[i]) == cc(out[i]) {
    }
  }

  lemma TidyPush(cc: int -> nat, decomp: int -> seq<int>, out: seq<int>, x: int)
    requires Tidy(cc, decomp, out) && Plain(decomp, x) && (out == [] || cc(out[|out| - 1]) <= cc(x) || cc(x) == 0)
    ensures Tidy(cc, decomp, out + [x])
  {
    hide Plain;
    var r := out + [x];
    forall i | 0 <= i < |r| - 1 ensures cc(r[i]) <= cc(r[i + 1]) || cc(r[i + 1]) == 0 {
      if i + 1 < |out| {
        assert r[i + 1] == out[i + 1];
      }
    }
  }

  lemma SmallClasses(cc: int -> nat, decomp: int -> seq<int>, table: (int, int) -> int)
    requires Consistent(cc, decomp, table)
    ensures forall c :: cc(c) < 256
    ensures cc(FILLER) == 0
  {
    assert IsLetter(FILLER);
  }

  // ----- the whole text -----

  /** A leading letter, a vowel and the filler in a row. */
  predicate HasFiller(s: seq<int>) {
    exists i | 0 <= i < |s| - 2 :: FillerAt(s, i)
  }

  predicate FillerAt(s: seq<int>, i: nat)
    requires i < |s| - 2
  {
    IsLead(s[i]) && IsVowel(s[i + 1]) && s[i + 2] == FILLER
  }

  /** A leading letter and a vowel at the end. */
  predicate EndsOpen(s: seq<int>) {
    |s| >= 2 && IsLead(s[|s| - 2]) && IsVowel(s[|s| - 1])
  }

  lemma FillerPush(s: seq<int>, x: int)
    ensures HasFiller(s + [x]) <==> HasFiller(s) || (EndsOpen(s) && x == FILLER)
  {
    hide IsLead, IsVowel;
    var t := s + [x];
    if HasFiller(s) {
      var i :| 0 <= i < |s| - 2 && FillerAt(s, i);
      assert FillerAt(t, i);
    }
    if EndsOpen(s) && x == FILLER {
      assert FillerAt(t, |s| - 2);
    }
    if HasFiller(t) {
      var i :| 0 <= i < |t| - 2 && FillerAt(t, i);
      assert i < |s| - 2 ==> FillerAt(s, i);
    }
  }

  /** How the end of the composed text relates to the end of the text. */
  ghost predicate Ends(s: seq<int>, out: seq<int>) {
    s != [] && out != []
    && var x, y := s[|s| - 1], out[|out| - 1];
       && (IsLead(x) || IsLead(y) ==> x == y)
       && (EndsOpen(s) ==> IsOpen(y))
       && (IsOpen(y) && !HasFiller(s) ==> EndsOpen(s))
  }

  lemma StepEnds(cc: int -> nat, decomp: int -> seq<int>, table: (int, int) -> int, rank: int -> nat, s: seq<int>, out: seq<int>, x: int)
    requires Consistent(cc, decomp, table) && Grounded(decomp, rank) && Tidy(cc, decomp, out) && Plain(decomp, x) && Ends(s, out)
    ensures Ends(s + [x], Step(cc, table, out, x))
  {
    hide Find, ComposePair, IsOpen, IsLead, IsVowel, HasFiller, Consistent, Grounded, Tidy, Plain;
    var y, t := out[|out| - 1], s + [x];
    FillerPush(s, x);
    var (pos, blocked) := Find(cc, out, |out| - 1, cc(x));
    var p := if pos >= 0 && !blocked then ComposePair(table, out[pos], x) else 0;
    SmallClasses(cc, decomp, table);
    TidyOrdered(cc, decomp, out);
    FoundStarter(cc, out, x);
    if p == 0 {
      AppendedEnd(cc, decomp, table, y, x);
      if IsLead(y) && IsVowel(x) {
        FoundLast(cc, out, x);
      }
    } else {
      ComposedEnd(cc, decomp, table, rank, out[pos], x);
      if pos < |out| - 1 {
        MarkEnd(cc, decomp, table, y);
        MarkEnd(cc, decomp, table, x);
      }
    }
  }

  /** What is appended is not a syllable, and starters that must compose are not appended. */
  lemma AppendedEnd(cc: int -> nat, decomp: int -> seq<int>, table: (int, int) -> int, y: int, x: int)
    requires Consistent(cc, decomp, table) && Plain(decomp, x)
    ensures !IsOpen(x) && (IsLead(y) ==> cc(y) == 0) && (IsLead(y) && IsVowel(x) ==> ComposePair(table, y, x) != 0)
  {
    assert IsLead(y) ==> IsLetter(y);
  }

  /** The composite is a syllable only by the rules. */
  lemma ComposedEnd(cc: int -> nat, decomp: int -> seq<int>, table: (int, int) -> int, rank: int -> nat, c: int, x: int)
    requires Consistent(cc, decomp, table) && Grounded(decomp, rank) && Plain(decomp, x) && cc(c) == 0 && ComposePair(table, c, x) != 0
    ensures var p := ComposePair(table, c, x);
            && !IsLead(p) && !IsLead(x)
            && (IsOpen(p) <==> (IsLead(c) && IsVowel(x)) || (IsOpen(c) && x == FILLER))
  {
    if IsLead(c) && IsVowel(x) {
      LeadVowel(c, x);
    } else if IsOpen(c) && FILLER <= x < FILLER + 28 {
      if x != FILLER {
        Trailing(c, x);
      }
    } else {
      assert IsLead(ComposePair(table, c, x)) ==> IsLetter(ComposePair(table, c, x));
      assert IsLead(x) ==> IsLetter(x);
    }
  }

  /** Marks are no letters. */
  lemma MarkEnd(cc: int -> nat, decomp: int -> seq<int>, table: (int, int) -> int, y: int)
    requires Consistent(cc, decomp, table) && cc(y) > 0
    ensures !IsLead(y) && !IsOpen(y) && !IsVowel(y) && y != FILLER
  {
    assert IsLead(y) || IsVowel(y) || y == FILLER ==> IsLetter(y);
  }

  /** The number of fillers in a text. */
  ghost function Fillers(s: seq<int>): nat {
    multiset(s)[FILLER]
  }

  /** out decomposes to the characters of s, up to order between classes, unless a filler was swallowed. */
  ghost predicate Keeps(cc: int -> nat, decomp: int -> seq<int>, rank: int -> nat, s: seq<int>, out: seq<int>)
    requires Grounded(decomp, rank)
  {
    var d := Decomposed(decomp, rank, out);
    if HasFiller(s) then Fillers(d) < Fillers(s) else SameClasses(cc, d, s) && Fillers(d) <= Fillers(s)
  }

  lemma NextKeeps(cc: int -> nat, decomp: int -> seq<int>, table: (int, int) -> int, rank: int -> nat, s: seq<int>, out: seq<int>, x: int)
    requires Consistent(cc, decomp, table) && Grounded(decomp, rank) && Tidy(cc, decomp, out) && Plain(decomp, x)
    requires Keeps(cc, decomp, rank, s, out) && Ends(s, out)
    ensures Keeps(cc, decomp, rank, s + [x], Step(cc, table, out, x))
  {
    hide Consistent, Grounded, Tidy, Ends, HasFiller, Step, Class, Decomposed, IsOpen, Plain, Kept;
    FillerPush(s, x);
    EndOfEnds(s, out);
    if Swallows(out, x) {
      StepSwallows(cc, decomp, table, out, x);
    } else {
      var d, d' := Decomposed(decomp, rank, out), Decomposed(decomp, rank, Step(cc, table, out, x));
      StepKeeps(cc, decomp, table, rank, out, x, 0);
      if !HasFiller(s) {
        forall k ensures Class(cc, k, d') == Class(cc, k, s + [x]) {
          StepKeeps(cc, decomp, table, rank, out, x, k);
          assert Class(cc, k, d) == Class(cc, k, s);
          ClassPush(cc, k, s, x);
        }
      }
    }
  }

  lemma {:induction false} ComposeKeeps(cc: int -> nat, decomp: int -> seq<int>, table: (int, int) -> int, rank: int -> nat, s: seq<int>)
    requires Consistent(cc, decomp, table) && Grounded(decomp, rank) && Ordered(cc, s) && AllPlain(decomp, s) && s != []
    ensures var out := Compose(cc, table, s);
            && Tidy(cc, decomp, out) && Ends(s, out) && cc(out[|out| - 1]) <= cc(s[|s| - 1])
            && Keeps(cc, decomp, rank, s, out)
  {
    hide Consistent, Grounded, Tidy, Ends, HasFiller, Step, Compose, Class, Decomposed, IsOpen, Plain, Keeps, Ordered, AllPlain;
    var t, x := s[..|s| - 1], s[|s| - 1];
    assert s == t + [x];
    ComposeNext(cc, table, s, |s| - 1);
    assert s[..|s|] == s;
    if t == [] {
      OneKept(cc, decomp, table, rank, s, x);
    } else {
      Shorter(cc, decomp, t, x);
      ComposeKeeps(cc, decomp, table, rank, t);
      var out := Compose(cc, table, t);
      StepTidy(cc, decomp, table, rank, out, x);
      StepEnds(cc, decomp, table, rank, t, out, x);
      NextKeeps(cc, decomp, table, rank, t, out, x);
    }
  }

  lemma Shorter(cc: int -> nat, decomp: int -> seq<int>, t: seq<int>, x: int)
    requires Ordered(cc, t + [x]) && AllPlain(decomp, t + [x]) && t != []
    ensures Ordered(cc, t) && AllPlain(decomp, t) && Plain(decomp, x) && (cc(t[|t| - 1]) <= cc(x) || cc(x) == 0)
  {
    hide Plain;
    var s := t + [x];
    forall i | 0 <= i < |t| ensures Plain(decomp, t[i]) && (i < |t| - 1 ==> cc(t[i]) <= cc(t[i + 1]) || cc(t[i + 1]) == 0) {
      assert s[i] == t[i] && Plain(decomp, s[i]);
      assert cc(s[i]) <= cc(s[i + 1]) || cc(s[i + 1]) == 0;
    }
    assert Plain(decomp, s[|t|]);
    assert cc(s[|t| - 1]) <= cc(s[|t|]) || cc(s[|t|]) == 0;
  }

  lemma EndOfEnds(s: seq<int>, out: seq<int>)
    requires Ends(s, out)
    ensures out != [] && (EndsOpen(s) ==> IsOpen(out[|out| - 1])) && (IsOpen(out[|out| - 1]) && !HasFiller(s) ==> EndsOpen(s))
  {
  }

  lemma OneKept(cc: int -> nat, decomp: int -> seq<int>, table: (int, int) -> int, rank: int -> nat, s: seq<int>, x: int)
    requires Grounded(decomp, rank) && AllPlain(decomp, s) && s == [x]
    ensures Step(cc, table, Compose(cc, table, []), x) == s && Tidy(cc, decomp, s) && Ends(s, s) && Keeps(cc, decomp, rank, s, s)
  {
    PlainStays(decomp, rank, s);
    assert Plain(decomp, s[0]);
  }

  /** Texts with the same classes are ordered alike. */
  lemma SameOrder(cc: int -> nat, s: seq<int>, t: seq<int>)
    requires SameClasses(cc, s, t)
    ensures Reorder(cc, s) == Reorder(cc, t)
  {
    hide Class, Reorder, Ordered;
    forall k ensures Class(cc, k, Reorder(cc, s)) == Class(cc, k, Reorder(cc, t)) {
      ReorderFacts(cc, s, k);
      ReorderFacts(cc, t, k);
      assert Class(cc, k, s) == Class(cc, k, t);
    }
    ReorderFacts(cc, s, 0);
    ReorderFacts(cc, t, 0);
    OrderedUnique(cc, Reorder(cc, s), Reorder(cc, t));
  }

  /** Two texts are canonically equivalent (section 3.7 of the Unicode Standard). */
  ghost predicate Equivalent(cc: int -> nat, decomp: int -> seq<int>, rank: int -> nat, s: seq<int>, t: seq<int>)
    requires Grounded(decomp, rank)
  {
    Reorder(cc, Decomposed(decomp, rank, s)) == Reorder(cc, Decomposed(decomp, rank, t))
  }

  /** Composing a decomposed text gives an equivalent text exactly if no leading letter, vowel and filler stand in
      a row. */
  lemma ComposeEquivalent(cc: int -> nat, decomp: int -> seq<int>, table: (int, int) -> int, rank: int -> nat, s: seq<int>)
    requires Consistent(cc, decomp, table) && Grounded(decomp, rank) && Ordered(cc, s) && AllPlain(decomp, s)
    ensures Reorder(cc, Decomposed(decomp, rank, Compose(cc, table, s))) == s <==> !HasFiller(s)
  {
    hide Consistent, Grounded, Tidy, Ends, HasFiller, Compose, Decomposed, Class, Reorder, Ordered, AllPlain;
    if s == [] {
      NothingComposed(cc, decomp, table, rank);
    } else {
      ComposeKeeps(cc, decomp, table, rank, s);
      var d := Decomposed(decomp, rank, Compose(cc, table, s));
      ReorderOrdered(cc, s);
      if !HasFiller(s) {
        SameOrder(cc, d, s);
      } else {
        ReorderFacts(cc, d, 0);
      }
    }
  }

  lemma NothingComposed(cc: int -> nat, decomp: int -> seq<int>, table: (int, int) -> int, rank: int -> nat)
    requires Grounded(decomp, rank)
    ensures Compose(cc, table, []) == [] && Decomposed(decomp, rank, []) == [] && Reorder(cc, []) == [] && !HasFiller([])
  {
  }

  // ----- nothing is left to compose -----

  /** The second part of a composite does not decompose, full decompositions are in canonical order, and Latin-1
      characters do not compose with each other. */
  ghost predicate Orderly(cc: int -> nat, decomp: int -> seq<int>, table: (int, int) -> int, rank: int -> nat)
    requires Grounded(decomp, rank)
  {
    && (forall a, b | table(a, b) != 0 :: Plain(decomp, b))
    && (forall c :: Ordered(cc, One(decomp, rank, c)))
    && forall a, b | a < 0x100 && b < 0x100 :: table(a, b) == 0
  }

  /** The tables or the rules for Hangul give a composite. */
  predicate Combines(table: (int, int) -> int, c: int, x: int) {
    (IsLead(c) && IsVowel(x)) || (IsOpen(c) && FILLER <= x < FILLER + 28) || table(c, x) != 0
  }

  /** A starter that is not blocked from a character behind it. */
  predicate Reaches(cc: int -> nat, out: seq<int>, i: nat, j: nat)
    requires i < j < |out|
  {
    cc(out[i]) == 0 && forall k | i < k < j :: 0 < cc(out[k]) < cc(out[j])
  }

  /** No character combines with the starter before it unless it is blocked (section 3.11 of the Unicode
      Standard). */
  ghost predicate Maximal(cc: int -> nat, table: (int, int) -> int, out: seq<int>) {
    forall i, j | 0 <= i < j < |out| && Reaches(cc, out, i, j) :: !Combines(table, out[i], out[j])
  }

  lemma {:induction false} FindDown(cc: int -> nat, out: seq<int>, i: nat, k: nat)
    requires i <= k < |out| && cc(out[i]) == 0 && (forall j | i < j <= k :: cc(out[j]) != 0) && forall c :: cc(c) < 256
    ensures Find(cc, out, k, 256) == (i as int, false)
    decreases k
  {
    if i < k {
      FindDown(cc, out, i, k - 1);
    }
  }

  /** A starter that is not blocked is found. */
  lemma ReachFound(cc: int -> nat, out: seq<int>, x: int, i: nat)
    requires i < |out| && cc(out[i]) == 0 && (forall k | i < k < |out| :: 0 < cc(out[k]) < cc(x)) && forall c :: cc(c) < 256
    ensures Find(cc, out, |out| - 1, cc(x)) == (i as int, false)
  {
    if i < |out| - 1 {
      FindDown(cc, out, i, |out| - 2);
    }
  }

  lemma CombinesPair(table: (int, int) -> int, c: int, x: int)
    ensures Combines(table, c, x) ==> ComposePair(table, c, x) != 0
  {
  }

  /** A composite is no second part. */
  lemma CompositeSecond(cc: int -> nat, decomp: int -> seq<int>, table: (int, int) -> int, rank: int -> nat, c: int, x: int, b: int)
    requires Consistent(cc, decomp, table) && Grounded(decomp, rank) && Orderly(cc, decomp, table, rank)
    requires ComposePair(table, c, x) != 0
    ensures !Combines(table, b, ComposePair(table, c, x))
  {
    hide Grounded, Ordered, One;
    var p := ComposePair(table, c, x);
    if IsLead(c) && IsVowel(x) {
      LeadVowel(c, x);
    } else if !(IsOpen(c) && FILLER <= x < FILLER + 28) {
      assert decomp(p) == [c, x];
    }
    assert IsVowel(p) || FILLER <= p < FILLER + 28 ==> IsLetter(p);
  }

  /** A mark of a smaller class that did not combine with the starter does not combine with the composite. */
  lemma MarkStays(cc: int -> nat, decomp: int -> seq<int>, table: (int, int) -> int, rank: int -> nat, c: int, x: int, m: int)
    requires Consistent(cc, decomp, table) && Grounded(decomp, rank) && Orderly(cc, decomp, table, rank)
    requires cc(c) == 0 && Plain(decomp, x) && Plain(decomp, m) && 0 < cc(m) < cc(x) && ComposePair(table, c, x) != 0
    ensures !Combines(table, ComposePair(table, c, x), m)
  {
    var p := ComposePair(table, c, x);
    MarkEnd(cc, decomp, table, m);
    MarkEnd(cc, decomp, table, x);
    NoLetter(cc, decomp, table, m);
    if Combines(table, p, m) {
      PairKeeps(cc, decomp, table, rank, c, x);
      DecomposedPair(cc, decomp, table, rank, p, m);
      var d, n := One(decomp, rank, table(p, m)), |One(decomp, rank, c)|;
      LateMark(cc, d, n, x, m);
    }
  }

  lemma LateMark(cc: int -> nat, d: seq<int>, n: nat, x: int, m: int)
    requires Ordered(cc, d) && |d| == n + 2 && d[n] == x && d[n + 1] == m
    ensures cc(x) <= cc(m) || cc(m) == 0
  {
  }

  lemma NoLetter(cc: int -> nat, decomp: int -> seq<int>, table: (int, int) -> int, m: int)
    requires Consistent(cc, decomp, table) && cc(m) > 0
    ensures !IsLetter(m)
  {
  }

  lemma DecomposedPair(cc: int -> nat, decomp: int -> seq<int>, table: (int, int) -> int, rank: int -> nat, c: int, x: int)
    requires Consistent(cc, decomp, table) && Grounded(decomp, rank) && Plain(decomp, x) && table(c, x) != 0
    ensures One(decomp, rank, table(c, x)) == One(decomp, rank, c) + [x]
  {
    hide Letters;
    var p := table(c, x);
    assert RankedBelow(rank, [c, x], rank(p));
    NfdIs(decomp, rank, [c, x], rank(p));
    assert [c, x] == [] + [c] + [x];
    DecomposedPush(decomp, rank, [] + [c], x);
    DecomposedPush(decomp, rank, [], c);
    assert Decomposed(decomp, rank, []) + One(decomp, rank, c) == One(decomp, rank, c);
  }

  /** One step leaves nothing behind that could be composed. */
  lemma StepMaximal(cc: int -> nat, decomp: int -> seq<int>, table: (int, int) -> int, rank: int -> nat, out: seq<int>, x: int)
    requires Consistent(cc, decomp, table) && Grounded(decomp, rank) && Orderly(cc, decomp, table, rank)
    requires Tidy(cc, decomp, out) && Plain(decomp, x) && Maximal(cc, table, out)
    ensures Maximal(cc, table, Step(cc, table, out, x))
  {
    hide Find, ComposePair, Combines, Consistent, Orderly, Grounded, IsOpen, Plain, Ordered;
    var (pos, blocked) := Find(cc, out, |out| - 1, cc(x));
    var p := if pos >= 0 && !blocked then ComposePair(table, out[pos], x) else 0;
    SmallClasses(cc, decomp, table);
    TidyOrdered(cc, decomp, out);
    FoundStarter(cc, out, x);
    var out' := Step(cc, table, out, x);
    if p == 0 {
      forall i, j | 0 <= i < j < |out'| && Reaches(cc, out', i, j) ensures !Combines(table, out'[i], out'[j]) {
        if j < |out| {
          ReachesPrefix(cc, out, x, i, j);
        } else {
          ReachesLast(cc, out, x, i);
          ReachFound(cc, out, x, i);
          CombinesPair(table, out[i], x);
        }
      }
    } else if Swallows(out, x) {
      StepSwallows(cc, decomp, table, out, x);
    } else {
      ComposedStarter(cc, decomp, table, rank, out[pos], x);
      forall i, j | 0 <= i < j < |out'| && Reaches(cc, out', i, j) ensures !Combines(table, out'[i], out'[j]) {
        ReachesSet(cc, out, pos, p, i, j);
        if j == pos {
          CompositeSecond(cc, decomp, table, rank, out[pos], x, out[i]);
        } else if i == pos {
          TidyMark(cc, decomp, out, j);
          MarkStays(cc, decomp, table, rank, out[pos], x, out[j]);
        }
      }
    }
  }

  lemma TidyMark(cc: int -> nat, decomp: int -> seq<int>, out: seq<int>, j: nat)
    requires Tidy(cc, decomp, out) && j < |out| && cc(out[j]) != 0
    ensures Plain(decomp, out[j])
  {
  }

  lemma ReachesPrefix(cc: int -> nat, out: seq<int>, x: int, i: nat, j: nat)
    requires i < j < |out| && Reaches(cc, out + [x], i, j)
    ensures Reaches(cc, out, i, j)
  {
    forall k | i < k < j ensures 0 < cc(out[k]) < cc(out[j]) {
      assert (out + [x])[k] == out[k];
    }
  }

  lemma ReachesLast(cc: int -> nat, out: seq<int>, x: int, i: nat)
    requires i < |out| && Reaches(cc, out + [x], i, |out|)
    ensures cc(out[i]) == 0 && forall k | i < k < |out| :: 0 < cc(out[k]) < cc(x)
  {
    forall k | i < k < |out| ensures 0 < cc(out[k]) < cc(x) {
      assert (out + [x])[k] == out[k];
    }
  }

  lemma ReachesSet(cc: int -> nat, out: seq<int>, pos: nat, p: int, i: nat, j: nat)
    requires pos < |out| && cc(p) == cc(out[pos]) == 0 && i < j < |out| && Reaches(cc, out[pos := p], i, j)
    ensures Reaches(cc, out, i, j)
  {
    var r := out[pos := p];
    forall k | i < k < j ensures 0 < cc(out[k]) < cc(out[j]) {
      assert 0 < cc(r[k]) < cc(r[j]);
    }
  }

  lemma {:induction false} ComposeMaximal(cc: int -> nat, decomp: int -> seq<int>, table: (int, int) -> int, rank: int -> nat, s: seq<int>)
    requires Consistent(cc, decomp, table) && Grounded(decomp, rank) && Orderly(cc, decomp, table, rank)
    requires Ordered(cc, s) && AllPlain(decomp, s)
    ensures Maximal(cc, table, Compose(cc, table, s))
  {
    hide Consistent, Grounded, Orderly, Tidy, Ends, Step, Compose, Decomposed, Plain, Keeps, Ordered, AllPlain, Maximal;
    NothingMaximal(cc, table);
    if s != [] {
      var t, x := s[..|s| - 1], s[|s| - 1];
      assert s == t + [x];
      ComposeNext(cc, table, s, |s| - 1);
      assert s[..|s|] == s;
      if t == [] {
        OneMaximal(cc, decomp, table, x, s);
      } else {
        Shorter(cc, decomp, t, x);
        ComposeKeeps(cc, decomp, table, rank, t);
        ComposeMaximal(cc, decomp, table, rank, t);
        StepMaximal(cc, decomp, table, rank, Compose(cc, table, t), x);
      }
    }
  }

  lemma NothingMaximal(cc: int -> nat, table: (int, int) -> int)
    ensures Compose(cc, table, []) == [] && Maximal(cc, table, [])
  {
  }

  lemma OneMaximal(cc: int -> nat, decomp: int -> seq<int>, table: (int, int) -> int, x: int, s: seq<int>)
    requires s == [x]
    ensures Maximal(cc, table, Step(cc, table, Compose(cc, table, []), x))
  {
  }

  lemma ShortMaximal(cc: int -> nat, table: (int, int) -> int, s: seq<int>)
    ensures |s| <= 1 ==> Maximal(cc, table, s)
  {
  }

  lemma LatinMaximal(cc: int -> nat, decomp: int -> seq<int>, table: (int, int) -> int, rank: int -> nat, s: seq<int>)
    requires Grounded(decomp, rank) && Orderly(cc, decomp, table, rank) && forall i | 0 <= i < |s| :: s[i] < 0x100
    ensures Maximal(cc, table, s)
  {
    hide Grounded, Ordered, One, Reaches;
  }

  /** A starter and a character behind it compose to what the table says. */
  lemma PairComposes(cc: int -> nat, decomp: int -> seq<int>, table: (int, int) -> int, a: int, b: int)
    requires Consistent(cc, decomp, table) && cc(a) == 0 && table(a, b) != 0
    ensures Compose(cc, table, [a, b]) == [table(a, b)]
  {
    ComposeFirst(cc, table, [a, b]);
    ComposeNext(cc, table, [a, b], 1);
    assert [a, b][..1] == [a] && [a, b][..2] == [a, b];
    assert IsVowel(b) || FILLER <= b < FILLER + 28 ==> IsLetter(b);
  }

  // ----- the whole normalisation -----

  lemma Reordered(cc: int -> nat, decomp: int -> seq<int>, s: seq<int>)
    requires AllPlain(decomp, s)
    ensures Ordered(cc, Reorder(cc, s)) && AllPlain(decomp, Reorder(cc, s)) && (HasFiller(Reorder(cc, s)) ==> FILLER in s)
  {
    hide Reorder, Ordered, Plain;
    var t := Reorder(cc, s);
    ReorderFacts(cc, s, 0);
    forall i | 0 <= i < |t| ensures t[i] in s {
      assert t[i] in multiset(t);
    }
    if HasFiller(t) {
      var i :| 0 <= i < |t| - 2 && FillerAt(t, i);
      assert t[i + 2] == FILLER;
    }
  }

  /** `unicode_normalize`: decompose, order and, for NFC and NFKC, compose.  The composed text is equivalent to the
      source exactly if no leading letter, vowel and filler stand in a row in its decomposition, and nothing in it is
      left to compose. */
  method Normalize(src: seq<int>, composed: bool, compat: bool, cc: int -> nat, decomp: int -> seq<int>, table: (int, int) -> int,
                   ghost rank: int -> nat, ghost n: nat) returns (out: seq<int>)
    requires Grounded(decomp, rank) && RankedBelow(rank, src, n)
    ensures !composed ==> out == Reorder(cc, Nfd(decomp, rank, src, n))
    ensures composed && HangulFree(cc, table) && AllSyllables(src) ==> out == src
    ensures Consistent(cc, decomp, table) ==>
              (Equivalent(cc, decomp, rank, out, src) <==> !composed || !HasFiller(Reorder(cc, Nfd(decomp, rank, src, n))))
    ensures composed && Consistent(cc, decomp, table) && Orderly(cc, decomp, table, rank) ==> Maximal(cc, table, out)
  {
    hide AllLetters, Letters, HangulFree, Nfd, Reorder, Grounded, Consistent, HasFiller, Decomposed, Compose, AllPlain, Ordered, RankedBelow;
    hide Orderly, Maximal;
    NfdIs(decomp, rank, src, n);
    if Consistent(cc, decomp, table) {
      NfdPlain(cc, decomp, table, rank, src, n);
      Reordered(cc, decomp, Nfd(decomp, rank, src, n));
    }
    if composed && !compat {
      var latin := forall i | 0 <= i < |src| :: src[i] < 0x100;
      if latin {
        if Consistent(cc, decomp, table) {
          NfdFiller(cc, decomp, table, rank, src, n);
          if Orderly(cc, decomp, table, rank) {
            LatinMaximal(cc, decomp, table, rank, src);
          }
        }
        return src;
      }
    }
    var dbuf := ToNfd([], src, decomp, rank, n);
    var buf := new int[|dbuf|](i requires 0 <= i < |dbuf| => dbuf[i]);
    assert buf[..|dbuf|] == dbuf && [] + Nfd(decomp, rank, src, n) == Nfd(decomp, rank, src, n);
    SortMarks(buf, |dbuf|, cc);
    ghost var s := buf[..|dbuf|];
    if HangulFree(cc, table) && AllSyllables(src) {
      NfdSyllables(decomp, rank, src, n);
      LettersStay(cc, table, src);
      SyllablesCompose(cc, table, src);
    }
    if Consistent(cc, decomp, table) {
      PlainStays(decomp, rank, s);
      ReorderOrdered(cc, s);
      ComposeEquivalent(cc, decomp, table, rank, s);
      if Orderly(cc, decomp, table, rank) {
        ComposeMaximal(cc, decomp, table, rank, s);
      }
    }
    if |dbuf| <= 1 || !composed {
      ShortText(cc, table, s);
      ShortMaximal(cc, table, s);
      return buf[..|dbuf|];
    }
    var len := ComposeAll(buf, |dbuf|, cc, table);
    return buf[..len];
  }

  lemma ShortText(cc: int -> nat, table: (int, int) -> int, s: seq<int>)
    ensures |s| <= 1 ==> Compose(cc, table, s) == s && !HasFiller(s)
  {
    if |s| == 1 {
      assert Compose(cc, table, s[..0]) == [];
    }
  }

  /** What goes wrong: the filler behind an open syllable is lost. */
  lemma FillerLost(table: (int, int) -> int)
    ensures Compose(_ => 0, table, [0x1100, 0x1161, FILLER]) == [0xac00]
  {
    var s := [0x1100, 0x1161, FILLER];
    ComposeFirst(_ => 0, table, s);
    ComposeNext(_ => 0, table, s, 1);
    ComposeNext(_ => 0, table, s, 2);
    assert s[..3] == s && s[..1] == [0x1100];
  }
}
