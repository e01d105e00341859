/** Canonical ordering and Hangul composition. */
module Normalization {

  // ----- canonical ordering -----

  /** Puts x behind the elements that may not follow it. */
  function Insert(cc: int -> nat, t: seq<int>, x: int): (r: seq<int>)
    ensures |r| == |t| + 1
  {
    if t == [] || cc(x) == 0 || cc(t[|t| - 1]) <= cc(x) then t + [x]
    else Insert(cc, t[..|t| - 1], x) + [t[|t| - 1]]
  }

  /** The characters in canonical order: each is inserted behind those before it. */
  function Reorder(cc: int -> nat, s: seq<int>): (r: seq<int>)
    ensures |r| == |s|
  {
    if s == [] then [] else Insert(cc, Reorder(cc, s[..|s| - 1]), s[|s| - 1])
  }

  /** No two neighbours that canonical ordering would exchange. */
  predicate Ordered(cc: int -> nat, s: seq<int>) {
    forall i | 0 <= i < |s| - 1 :: cc(s[i]) <= cc(s[i + 1]) || cc(s[i + 1]) == 0
  }

  /** The starters and the characters of class k. */
  function Class(cc: int -> nat, k: nat, s: seq<int>): seq<int> {
    if s == [] then [] else Class(cc, k, s[..|s| - 1]) + Kept(cc, k, s[|s| - 1])
  }

  function Kept(cc: int -> nat, k: nat, x: int): seq<int> {
    if cc(x) == 0 || cc(x) == k then [x] else []
  }

  lemma ClassPush(cc: int -> nat, k: nat, s: seq<int>, x: int)
    ensures Class(cc, k, s + [x]) == Class(cc, k, s) + Kept(cc, k, x)
  {
    assert (s + [x])[..|s|] == s;
  }

  lemma ClassLast(cc: int -> nat, k: nat, s: seq<int>)
    requires s != []
    ensures Class(cc, k, s) == Class(cc, k, s[..|s| - 1]) + Kept(cc, k, s[|s| - 1])
  {
  }

  lemma {:induction false} InsertClass(cc: int -> nat, t: seq<int>, x: int, k: nat)
    ensures Class(cc, k, Insert(cc, t, x)) == Class(cc, k, t) + Kept(cc, k, x)
  {
    hide Class;
    if t == [] || cc(x) == 0 || cc(t[|t| - 1]) <= cc(x) {
      ClassPush(cc, k, t, x);
    } else {
      var u, y := t[..|t| - 1], t[|t| - 1];
      InsertClass(cc, u, x, k);
      ClassPush(cc, k, Insert(cc, u, x), y);
      ClassLast(cc, k, t);
      var c := Class(cc, k, u);
      assert Kept(cc, k, x) == [] || Kept(cc, k, y) == [];
      assert c + Kept(cc, k, x) + Kept(cc, k, y) == c + Kept(cc, k, y) + Kept(cc, k, x);
    }
  }

  lemma {:induction false} InsertOrders(cc: int -> nat, t: seq<int>, x: int)
    requires Ordered(cc, t)
    ensures var r := Insert(cc, t, x);
            Ordered(cc, r) && (r[|r| - 1] == x || (t != [] && r[|r| - 1] == t[|t| - 1]))
  {
    if !(t == [] || cc(x) == 0 || cc(t[|t| - 1]) <= cc(x)) {
      InsertOrders(cc, t[..|t| - 1], x);
    }
  }

  lemma {:induction false} InsertPermutes(cc: int -> nat, t: seq<int>, x: int)
    ensures multiset(Insert(cc, t, x)) == multiset(t) + multiset{x}
  {
    if !(t == [] || cc(x) == 0 || cc(t[|t| - 1]) <= cc(x)) {
      InsertPermutes(cc, t[..|t| - 1], x);
      assert t == t[..|t| - 1] + [t[|t| - 1]];
    }
  }

  /** Canonical ordering permutes, orders, and keeps the order within every class and around starters. */
  lemma {:induction false} ReorderFacts(cc: int -> nat, s: seq<int>, k: nat)
    ensures Ordered(cc, Reorder(cc, s)) && multiset(Reorder(cc, s)) == multiset(s)
    ensures Class(cc, k, Reorder(cc, s)) == Class(cc, k, s)
  {
    hide Class, Insert, Ordered;
    if s == [] {
      NothingOrdered(cc);
    } else {
      var t, x := s[..|s| - 1], s[|s| - 1];
      ReorderFacts(cc, t, k);
      InsertOrders(cc, Reorder(cc, t), x);
      InsertPermutes(cc, Reorder(cc, t), x);
      InsertClass(cc, Reorder(cc, t), x, k);
      assert s == t + [x];
      ClassLast(cc, k, s);
    }
  }

  lemma NothingOrdered(cc: int -> nat)
    ensures Ordered(cc, [])
  {
  }

  ghost predicate SameClasses(cc: int -> nat, s: seq<int>, t: seq<int>) {
    forall k :: Class(cc, k, s) == Class(cc, k, t)
  }

  /** An ordered text is known by its classes. */
  lemma {:induction false} OrderedUnique(cc: int -> nat, s: seq<int>, t: seq<int>)
    requires Ordered(cc, s) && Ordered(cc, t) && SameClasses(cc, s, t)
    ensures s == t
    decreases |s|
  {
    if s == [] || t == [] {
      EmptyClasses(cc, s, t);
    } else {
      hide Class;
      SameLast(cc, s, t);
      var s', t', x := s[..|s| - 1], t[..|t| - 1], s[|s| - 1];
      forall k ensures Class(cc, k, s') == Class(cc, k, t') {
        ClassLast(cc, k, s);
        ClassLast(cc, k, t);
        assert Class(cc, k, s) == Class(cc, k, t);
        DropLast(Class(cc, k, s'), Class(cc, k, t'), Kept(cc, k, x));
      }
      OrderedUnique(cc, s', t');
      assert s == s' + [x] && t == t' + [x];
    }
  }

  lemma DropLast(s: seq<int>, t: seq<int>, x: seq<int>)
    requires s + x == t + x
    ensures s == t
  {
    assert |s| == |t|;
    assert s == (s + x)[..|s|] && t == (t + x)[..|s|];
  }

  lemma EmptyClasses(cc: int -> nat, s: seq<int>, t: seq<int>)
    requires (s == [] || t == []) && SameClasses(cc, s, t)
    ensures s == t
  {
    var u := if s == [] then t else s;
    if u != [] {
      ClassLast(cc, cc(u[|u| - 1]), u);
    }
  }

  /** The last character of an ordered text has the largest class since the last starter. */
  lemma {:induction false} LastIsLargest(cc: int -> nat, s: seq<int>, k: nat)
    requires Ordered(cc, s) && s != [] && k > 0
    ensures var c := Class(cc, k, s); c != [] && cc(c[|c| - 1]) == k ==> cc(s[|s| - 1]) >= k
  {
    hide Class;
    var x, t := s[|s| - 1], s[..|s| - 1];
    ClassLast(cc, k, s);
    if cc(x) != 0 && cc(x) != k {
      if t == [] {
        NoClass(cc, k);
      } else {
        LastIsLargest(cc, t, k);
        assert cc(s[|s| - 2]) <= cc(s[|s| - 1]);
      }
    }
  }

  lemma NoClass(cc: int -> nat, k: nat)
    ensures Class(cc, k, []) == []
  {
  }

  lemma SameLast(cc: int -> nat, s: seq<int>, t: seq<int>)
    requires Ordered(cc, s) && Ordered(cc, t) && s != [] && t != [] && SameClasses(cc, s, t)
    ensures s[|s| - 1] == t[|t| - 1]
  {
    hide Class, Ordered;
    var x, y := s[|s| - 1], t[|t| - 1];
    LastAtLeast(cc, s, t);
    assert SameClasses(cc, t, s);
    LastAtLeast(cc, t, s);
    assert Class(cc, cc(x), s) == Class(cc, cc(x), t);
    ClassLast(cc, cc(x), s);
    ClassLast(cc, cc(x), t);
    assert (Class(cc, cc(x), s[..|s| - 1]) + [x])[|Class(cc, cc(x), s)| - 1] == x;
    assert (Class(cc, cc(x), t[..|t| - 1]) + [y])[|Class(cc, cc(x), t)| - 1] == y;
  }

  lemma LastAtLeast(cc: int -> nat, s: seq<int>, t: seq<int>)
    requires Ordered(cc, t) && s != [] && t != [] && SameClasses(cc, s, t)
    ensures cc(t[|t| - 1]) >= cc(s[|s| - 1])
  {
    hide Class, Ordered;
    var x := s[|s| - 1];
    if cc(x) > 0 {
      assert Class(cc, cc(x), s) == Class(cc, cc(x), t);
      ClassLast(cc, cc(x), s);
      LastIsLargest(cc, t, cc(x));
    }
  }

  /** Canonical ordering is idempotent, and leaves ordered texts alone. */
  lemma ReorderOrdered(cc: int -> nat, s: seq<int>)
    ensures Ordered(cc, s) ==> Reorder(cc, s) == s
    ensures Reorder(cc, Reorder(cc, s)) == Reorder(cc, s)
  {
    var r := Reorder(cc, s);
    forall k ensures Class(cc, k, r) == Class(cc, k, s) && Class(cc, k, Reorder(cc, r)) == Class(cc, k, r) {
      ReorderFacts(cc, s, k);
      ReorderFacts(cc, r, k);
    }
    ReorderFacts(cc, s, 0);
    ReorderFacts(cc, r, 0);
    if Ordered(cc, s) {
      OrderedUnique(cc, r, s);
    }
    OrderedUnique(cc, Reorder(cc, r), r);
  }

  /** `sort_cc` */
  method SortMarks(buf: array<int>, len: nat, cc: int -> nat)
    requires len <= buf.Length
    modifies buf
    ensures buf[..len] == Reorder(cc, old(buf[..len])) && buf[len..] == old(buf[len..])
  {
    hide Insert, Reorder;
    ghost var was := buf[..];
    var i := 0;
    Unordered(cc, was);
    while i < len
      invariant 0 <= i <= len + 1 && buf[..Least(i, len)] == Reorder(cc, was[..Least(i, len)]) && buf[Least(i, len)..] == was[Least(i, len)..]
      invariant i == 0 || i > len || cc(was[i - 1]) == 0
      decreases len + 1 - i
    {
      var c := cc(buf[i]);
      assert buf[i] == buf[i..][0] == was[i..][0] == was[i];
      if c != 0 {
        i := SortRun(buf, i, len, cc, was);
      }
      if i < len {
        ReorderStarter(cc, was, i);
        assert buf[..i + 1] == buf[..i] + [was[i]] by { assert buf[i] == buf[i..][0] == was[i..][0] == was[i]; }
        assert buf[i + 1..] == buf[i..][1..] && was[i + 1..] == was[i..][1..];
      }
      i := i + 1;
    }
    assert was[..len] == old(buf[..len]);
  }

  function Least(x: nat, y: nat): nat {
    if x < y then x else y
  }

  lemma Unordered(cc: int -> nat, s: seq<int>)
    ensures Reorder(cc, s[..0]) == []
  {
  }

  /** A starter stays behind what is in front of it. */
  lemma ReorderStarter(cc: int -> nat, s: seq<int>, i: nat)
    requires i < |s| && cc(s[i]) == 0
    ensures Reorder(cc, s[..i + 1]) == Reorder(cc, s[..i]) + [s[i]]
  {
    assert s[..i + 1][..i] == s[..i];
  }

  /** Inserts the characters of a run of non-starters one by one. */
  method SortRun(buf: array<int>, start: nat, len: nat, cc: int -> nat, ghost was: seq<int>) returns (j: nat)
    requires start < len <= buf.Length == |was| && buf[..start] == Reorder(cc, was[..start]) && buf[start..] == was[start..]
    requires cc(was[start]) != 0 && (start == 0 || cc(was[start - 1]) == 0)
    modifies buf
    ensures start < j <= len && (j < len ==> cc(was[j]) == 0)
    ensures buf[..j] == Reorder(cc, was[..j]) && buf[j..] == was[j..]
  {
    hide Reorder;
    ReorderFirst(cc, was, start);
    j := start + 1;
    NextElement(buf[..], was, start);
    while j < len
      invariant start < j <= len && buf[..j] == Reorder(cc, was[..j]) && buf[j..] == was[j..]
      invariant start == 0 || cc(buf[start - 1]) == 0
    {
      var ch := buf[j];
      NextElement(buf[..], was, j);
      if cc(ch) == 0 {
        break;
      }
      InsertAt(buf, start, j, cc);
      ReorderNext(cc, was, j);
      j := j + 1;
    }
  }

  lemma NextElement(s: seq<int>, t: seq<int>, j: nat)
    requires j < |s| == |t| && s[j..] == t[j..]
    ensures s[j] == t[j] && s[j + 1..] == t[j + 1..] && s[..j + 1] == s[..j] + [t[j]]
  {
    assert s[j] == s[j..][0] && t[j] == t[j..][0];
    assert s[j + 1..] == s[j..][1..] && t[j + 1..] == t[j..][1..];
  }

  lemma ReorderNext(cc: int -> nat, s: seq<int>, i: nat)
    requires i < |s|
    ensures Reorder(cc, s[..i + 1]) == Insert(cc, Reorder(cc, s[..i]), s[i])
  {
    assert s[..i + 1][..i] == s[..i];
  }

  /** The first character after a starter stays behind it. */
  lemma ReorderFirst(cc: int -> nat, s: seq<int>, i: nat)
    requires i < |s| && (i == 0 || cc(s[i - 1]) == 0)
    ensures Reorder(cc, s[..i + 1]) == Reorder(cc, s[..i]) + [s[i]]
    ensures i > 0 ==> Reorder(cc, s[..i])[i - 1] == s[i - 1]
  {
    hide Reorder;
    ReorderNext(cc, s, i);
    if i > 0 {
      ReorderStarter(cc, s, i - 1);
    }
  }

  /** Moves buf[j] down past the larger classes of its run. */
  method InsertAt(buf: array<int>, start: nat, j: nat, cc: int -> nat)
    requires start < j < buf.Length && cc(buf[j]) != 0 && (start == 0 || cc(buf[start - 1]) == 0)
    modifies buf
    ensures buf[..j + 1] == Insert(cc, old(buf[..j]), old(buf[j])) && buf[j + 1..] == old(buf[j + 1..])
    ensures start > 0 ==> cc(buf[start - 1]) == 0
  {
    hide Insert;
    var ch := buf[j];
    ghost var t := buf[..j];
    var k: int := j - 1;
    while k >= start
      invariant start - 1 <= k < j && buf[j + 1..] == old(buf[j + 1..])
      invariant (forall i | 0 <= i <= k :: buf[i] == t[i]) && forall i | k + 1 < i <= j :: buf[i] == t[i - 1]
      invariant forall i | k < i < j :: cc(t[i]) > cc(ch)
      invariant k < j - 1 ==> buf[k + 1] == t[k + 1]
    {
      if cc(buf[k]) <= cc(ch) {
        break;
      }
      buf[k + 1] := buf[k];
      k := k - 1;
    }
    buf[k + 1] := ch;
    InsertIs(cc, t, ch, k + 1);
    assert buf[..j + 1] == t[..k + 1] + [ch] + t[k + 1..];
  }

  /** The place where a character goes. */
  lemma {:induction false} InsertIs(cc: int -> nat, t: seq<int>, x: int, q: nat)
    requires q <= |t| && cc(x) != 0 && (q == 0 || cc(t[q - 1]) <= cc(x)) && forall i | q <= i < |t| :: cc(t[i]) > cc(x)
    ensures Insert(cc, t, x) == t[..q] + [x] + t[q..]
  {
    if q == |t| {
      assert t[..q] == t && t[q..] == [];
    } else {
      var u, y := t[..|t| - 1], t[|t| - 1];
      InsertIs(cc, u, x, q);
      assert Insert(cc, t, x) == Insert(cc, u, x) + [y];
      hide Insert;
      assert u[..q] == t[..q] && u[q..] + [y] == t[q..];
      assert t[..q] + [x] + u[q..] + [y] == t[..q] + [x] + (u[q..] + [y]);
    }
  }

  // ----- Hangul -----

  predicate IsSyllable(c: int) {
    0xac00 <= c < 0xd7a4
  }

  predicate IsLead(c: int) {
    0x1100 <= c < 0x1100 + 19
  }

  predicate IsVowel(c: int) {
    0x1161 <= c < 0x1161 + 21
  }

  /** The two or three letters of a syllable. */
  function Letters(c: int): (s: seq<int>)
    requires IsSyllable(c)
    ensures 2 <= |s| <= 3 && IsLead(s[0]) && IsVowel(s[1]) && (|s| == 3 ==> 0x11a7 < s[2] < 0x11a7 + 28)
  {
    var i := c - 0xac00;
    [0x1100 + i / 588, 0x1161 + i % 588 / 28] + if i % 28 != 0 then [0x11a7 + i % 28] else []
  }

  /** `compose_pair`; `table` is `unicode_compose_pair` */
  function ComposePair(table: (int, int) -> int, c0: int, c1: int): int {
    if IsLead(c0) && IsVowel(c1) then 0xac00 + (c0 - 0x1100) * 588 + (c1 - 0x1161) * 28
    else if 0xac00 <= c0 < 0xac00 + 11172 && (c0 - 0xac00) % 28 == 0 && 0x11a7 <= c1 < 0x11a7 + 28 then c0 + c1 - 0x11a7
    else table(c0, c1)
  }

  /** Composing the letters of a syllable, two by two, gives it back. */
  lemma LettersCompose(table: (int, int) -> int, c: int)
    requires IsSyllable(c)
    ensures var s := Letters(c);
            var lv := ComposePair(table, s[0], s[1]);
            IsSyllable(lv) && if |s| == 2 then lv == c else ComposePair(table, lv, s[2]) == c
  {
    var i := c - 0xac00;
    assert i % 588 / 28 * 28 + i % 28 == i % 588;
  }

  predicate AllSyllables(s: seq<int>) {
    forall i | 0 <= i < |s| :: IsSyllable(s[i])
  }

  function AllLetters(s: seq<int>): seq<int>
    requires AllSyllables(s)
  {
    if s == [] then [] else AllLetters(s[..|s| - 1]) + Letters(s[|s| - 1])
  }

  /** The letters of syllable q stand behind those of the syllables before it. */
  lemma {:induction false} LettersAt(s: seq<int>, q: nat)
    requires AllSyllables(s) && q < |s|
    ensures AllLetters(s[..q + 1]) == AllLetters(s[..q]) + Letters(s[q])
    ensures |AllLetters(s[..q + 1])| <= |AllLetters(s)|
    ensures forall k | 0 <= k < |Letters(s[q])| :: AllLetters(s)[|AllLetters(s[..q])| + k] == Letters(s[q])[k]
    decreases |s| - q
  {
    assert s[..q + 1][..q] == s[..q];
    LettersPrefix(s, q + 1);
  }

  lemma {:induction false} LettersPrefix(s: seq<int>, q: nat)
    requires AllSyllables(s) && q <= |s|
    ensures |AllLetters(s[..q])| <= |AllLetters(s)| && AllLetters(s)[..|AllLetters(s[..q])|] == AllLetters(s[..q])
  {
    if q < |s| {
      LettersPrefix(s[..|s| - 1], q);
      assert s[..|s| - 1][..q] == s[..q];
    } else {
      assert s[..q] == s;
    }
  }

  /** What the composition tables and the classes say about Hangul: nothing composes with a leading
      letter, and letters and syllables are starters. */
  ghost predicate HangulFree(cc: int -> nat, table: (int, int) -> int) {
    && (forall c | IsSyllable(c) :: cc(c) == 0)
    && (forall c | IsLead(c) || IsVowel(c) || 0x11a7 <= c < 0x11a7 + 28 :: cc(c) == 0)
    && forall c, l | IsSyllable(c) && IsLead(l) :: table(c, l) == 0
  }

  // ----- composition -----

  /** The starter that a character may combine with, looking down from k, or that it is blocked on the way. */
  function Find(cc: int -> nat, out: seq<int>, k: int, last: nat): (r: (int, bool))
    requires -1 <= k < |out|
    ensures -1 <= r.0 <= k
    decreases k + 1
  {
    if k < 0 then (-1, false)
    else if cc(out[k]) == 0 then (k, false)
    else if cc(out[k]) >= last then (k, true)
    else Find(cc, out, k - 1, 256)
  }

  /** What a character makes of the text composed so far. */
  function Step(cc: int -> nat, table: (int, int) -> int, out: seq<int>, x: int): seq<int> {
    var (pos, blocked) := Find(cc, out, |out| - 1, cc(x));
    var p := if pos >= 0 && !blocked then ComposePair(table, out[pos], x) else 0;
    if p != 0 then out[pos := p] else out + [x]
  }

  function Compose(cc: int -> nat, table: (int, int) -> int, s: seq<int>): (out: seq<int>)
    ensures |out| <= |s| && (s != [] ==> out != [])
  {
    if s == [] then [] else Step(cc, table, Compose(cc, table, s[..|s| - 1]), s[|s| - 1])
  }

  lemma ComposeNext(cc: int -> nat, table: (int, int) -> int, s: seq<int>, i: nat)
    requires i < |s|
    ensures Compose(cc, table, s[..i + 1]) == Step(cc, table, Compose(cc, table, s[..i]), s[i])
  {
    assert s[..i + 1][..i] == s[..i];
  }

  lemma ComposeFirst(cc: int -> nat, table: (int, int) -> int, s: seq<int>)
    requires s != []
    ensures Compose(cc, table, s[..1]) == s[..1]
  {
    assert s[..1][..0] == [];
    assert Compose(cc, table, []) == [];
  }

  /** The inner loop: the position of the starter that buf[i] may combine with, if it is not blocked. */
  method FindStarter(buf: array<int>, i: nat, outLen: nat, cc: int -> nat) returns (pos: int, blocked: bool)
    requires 1 <= outLen <= i < buf.Length
    ensures (pos, blocked) == Find(cc, buf[..outLen], outLen - 1, cc(buf[i]))
  {
    var last := cc(buf[i]);
    pos := outLen - 1;
    while pos >= 0
      invariant -1 <= pos < outLen && Find(cc, buf[..outLen], pos, last) == Find(cc, buf[..outLen], outLen - 1, cc(buf[i]))
    {
      var c := cc(buf[pos]);
      if c == 0 {
        break;
      }
      if c >= last {
        return pos, true;
      }
      last := 256;
      pos := pos - 1;
    }
    blocked := false;
  }

  /** The composition loop of `unicode_normalize` */
  method ComposeAll(buf: array<int>, len: nat, cc: int -> nat, table: (int, int) -> int) returns (outLen: nat)
    requires 2 <= len <= buf.Length
    modifies buf
    ensures outLen <= len && buf[..outLen] == Compose(cc, table, old(buf[..len]))
  {
    hide Compose, ComposePair, Find;
    ghost var s := buf[..len];
    var i := 1;
    outLen := 1;
    ComposeFirst(cc, table, s);
    assert buf[..1] == s[..1];
    while i < len
      invariant 1 <= outLen <= i <= len && buf[i..len] == s[i..] && buf[..outLen] == Compose(cc, table, s[..i])
    {
      assert buf[i] == buf[i..len][0] == s[i..][0] == s[i];
      assert buf[i + 1..len] == buf[i..len][1..] == s[i + 1..];
      ghost var out := buf[..outLen];
      ComposeNext(cc, table, s, i);
      var pos, blocked := FindStarter(buf, i, outLen, cc);
      var p := if pos >= 0 && !blocked then ComposePair(table, buf[pos], buf[i]) else 0;
      if p != 0 {
        buf[pos] := p;
        assert buf[..outLen] == out[pos := p];
      } else {
        buf[outLen] := buf[i];
        outLen := outLen + 1;
        assert buf[..outLen] == out + [s[i]];
      }
      i := i + 1;
    }
    assert s[..len] == s;
  }

  /** i letters have been read: the syllables before q are complete, and `stage` letters of syllable q
      have been combined. */
  ghost predicate Composing(table: (int, int) -> int, src: seq<int>, out: seq<int>, i: int, q: nat, stage: nat) {
    && AllSyllables(src) && q <= |src| && i == |AllLetters(src[..q])| + stage
    && (stage == 0 ==> q > 0 && out == src[..q])
    && (stage > 0 ==> q < |src|)
    && (stage == 1 ==> out == src[..q] + [Letters(src[q])[0]])
    && (stage == 2 ==> |Letters(src[q])| == 3 && out == src[..q] + [ComposePair(table, Letters(src[q])[0], Letters(src[q])[1])])
    && stage <= 2
  }

  ghost function Advance(src: seq<int>, q: nat, stage: nat): (nat, nat)
    requires AllSyllables(src) && (stage > 0 ==> q < |src|)
  {
    if stage == 0 then (q, 1)
    else if stage == 1 && |Letters(src[q])| == 3 then (q, 2)
    else (q + 1, 0)
  }

  lemma StartCompose(buf: seq<int>, src: seq<int>)
    requires buf != [] && AllSyllables(src) && buf == AllLetters(src)
    ensures src != [] && buf[..1] == src[..0] + [Letters(src[0])[0]] && |AllLetters(src[..0])| == 0
  {
    if src != [] {
      LettersAt(src, 0);
    }
  }

  lemma LastIsStarter(cc: int -> nat, table: (int, int) -> int, src: seq<int>, out: seq<int>, i: int, q: nat, stage: nat)
    requires HangulFree(cc, table) && Composing(table, src, out, i, q, stage)
    ensures out != [] && cc(out[|out| - 1]) == 0
  {
    hide AllLetters, ComposePair, Letters;
    if stage == 0 {
      assert out[|out| - 1] == src[q - 1];
    } else {
      LettersCompose(table, src[q]);
    }
  }

  lemma ComposeStep(cc: int -> nat, table: (int, int) -> int, src: seq<int>, out: seq<int>, i: nat, q: nat, stage: nat, p: int)
    requires HangulFree(cc, table) && Composing(table, src, out, i, q, stage) && i < |AllLetters(src)| && out != []
    requires p == ComposePair(table, out[|out| - 1], AllLetters(src)[i])
    ensures var (q', stage') := Advance(src, q, stage);
            if p != 0 then Composing(table, src, out[|out| - 1 := p], i + 1, q', stage')
            else Composing(table, src, out + [AllLetters(src)[i]], i + 1, q', stage')
  {
    hide AllLetters, ComposePair, Letters;
    assert src[..|src|] == src;
    LettersAt(src, q);
    var s, x := Letters(src[q]), AllLetters(src)[i];
    assert x == s[stage];
    assert src[..q + 1] == src[..q] + [src[q]];
    LettersCompose(table, src[q]);
    if stage == 0 {
      assert out[|out| - 1] == src[q - 1];
      NoLead(cc, table, src[q - 1], x);
    } else {
      assert out[|out| - 1 := p] == src[..q] + [p];
    }
  }

  lemma NoLead(cc: int -> nat, table: (int, int) -> int, c: int, l: int)
    requires HangulFree(cc, table) && IsSyllable(c) && IsLead(l)
    ensures ComposePair(table, c, l) == 0
  {
  }

  lemma EndCompose(table: (int, int) -> int, src: seq<int>, out: seq<int>, i: int, q: nat, stage: nat)
    requires Composing(table, src, out, i, q, stage) && i == |AllLetters(src)|
    ensures out == src
  {
    hide AllLetters, ComposePair, Letters;
    if q < |src| {
      LettersAt(src, q);
    } else {
      assert src[..q] == src;
    }
  }

  /** Composing the letters one by one. */
  lemma {:induction false} ComposeLetters(cc: int -> nat, table: (int, int) -> int, src: seq<int>, i: nat) returns (q: nat, stage: nat)
    requires HangulFree(cc, table) && AllSyllables(src) && 1 <= i <= |AllLetters(src)|
    ensures Composing(table, src, Compose(cc, table, AllLetters(src)[..i]), i, q, stage)
  {
    hide AllLetters, HangulFree, Letters, ComposePair, Compose;
    var s := AllLetters(src);
    if i == 1 {
      StartCompose(s, src);
      ComposeFirst(cc, table, s);
      q, stage := 0, 1;
    } else {
      q, stage := ComposeLetters(cc, table, src, i - 1);
      var out := Compose(cc, table, s[..i - 1]);
      LastIsStarter(cc, table, src, out, i - 1, q, stage);
      ComposeNext(cc, table, s, i - 1);
      var p := ComposePair(table, out[|out| - 1], s[i - 1]);
      ComposeStep(cc, table, src, out, i - 1, q, stage, p);
      var (q', stage') := Advance(src, q, stage);
      q, stage := q', stage';
    }
  }

  /** The letters of Hangul syllables compose to those syllables. */
  lemma SyllablesCompose(cc: int -> nat, table: (int, int) -> int, src: seq<int>)
    requires HangulFree(cc, table) && AllSyllables(src)
    ensures Compose(cc, table, AllLetters(src)) == src
  {
    hide AllLetters, HangulFree, Letters, Composing, Compose;
    var s := AllLetters(src);
    if src == [] {
      NoLetters(cc, table);
    } else {
      SomeLetters(src);
      var q, stage := ComposeLetters(cc, table, src, |s|);
      assert s[..|s|] == s;
      EndCompose(table, src, Compose(cc, table, s), |s|, q, stage);
    }
  }

  lemma NoLetters(cc: int -> nat, table: (int, int) -> int)
    ensures AllLetters([]) == [] && Compose(cc, table, []) == []
  {
  }

  lemma SomeLetters(src: seq<int>)
    requires AllSyllables(src) && src != []
    ensures |AllLetters(src)| >= 2
  {
  }
}
