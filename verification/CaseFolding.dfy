/** Case folding of characters and of sets of characters. */
module CaseFolding {
  import opened CharSets

  /** The kinds of runs in the case conversion table. */
  datatype Kind = U | L | UF | LF | UL | LSU | U2L399 | UFD20 | UFD1 | UExt | LFExt | UFExt2 | LFExt2 | UFExt3

  /** `len` characters from `code` on.  `to` and `to'` stand for what the entry refers to in the
      other tables, for upper and for lower case. */
  datatype Run = Run(code: nat, len: nat, kind: Kind, to: int, to': int)

  predicate InRun(r: Run, c: int) {
    r.code <= c < r.code + r.len
  }

  /** The table is sorted, its runs do not overlap, pairs and triples are whole. */
  predicate TableOk(table: seq<Run>) {
    && table != []
    && (forall i | 0 <= i < |table| :: RunOk(table[i]))
    && forall i, j | 0 <= i < j < |table| :: table[i].code + table[i].len <= table[j].code
  }

  predicate RunOk(r: Run) {
    r.len >= 1 && r.code + r.len < UINT32_MAX && (r.kind == UL ==> r.len % 2 == 0) && (r.kind == LSU ==> r.len == 3)
  }

  /** `lre_case_conv_entry` for upper case (0), lower case (1) and folding (2), as a number of
      characters and the first of them. */
  function Convert(r: Run, c: int, conv: int): (int, int)
  {
    var a, lower := c - r.code, conv != 0;
    match r.kind
    case U => if conv == 0 then (1, a + r.to) else (1, c)
    case L => if conv == 1 then (1, a + r.to) else (1, c)
    case UF => if conv == 0 || conv == 2 then (1, a + r.to) else (1, c)
    case LF => if conv == 1 || conv == 2 then (1, a + r.to) else (1, c)
    case UL => if lower == (a % 2 == 0) then (1, r.code + if a % 2 == 0 then a + 1 else a - 1) else (1, c)
    case LSU =>
      if a == 1 then (1, if lower then c + 1 else c - 1)
      else if a == (if lower then 0 else 2) then (1, if lower then c + 2 else c - 2)
      else (1, c)
    case U2L399 => if !lower then (2, a + r.to) else (1, a + r.to')
    case UFD20 => if conv == 1 then (1, c) else (1, r.to + if conv == 2 then 0x20 else 0)
    case UFD1 => if conv == 1 then (1, c) else (1, r.to + if conv == 2 then 1 else 0)
    case UExt => if lower then (1, c) else (1, r.to)
    case LFExt => if !lower then (1, c) else (1, r.to)
    case LFExt2 => if !lower then (1, c) else (2, a + r.to)
    case UFExt2 => if conv == 1 then (1, c) else (2, a + r.to)
    case UFExt3 => if conv == 1 then (1, c) else (3, r.to)
  }

  /** `lre_case_folding_entry` */
  function FoldEntry(r: Run, c: int, unicode: bool): int {
    if unicode then
      var (n, d) := Convert(r, c, 2);
      if n == 1 then d
      else if c == 0xfb06 then 0xfb05
      else if c == 0x1fd3 then 0x390
      else if c == 0x1fe3 then 0x3b0
      else c
    else if c < 128 then FoldAscii(c, false)
    else
      var (n, d) := Convert(r, c, 0);
      if n == 1 && d >= 128 then d else c
  }

  function FoldAscii(c: int, unicode: bool): int {
    if unicode then if 'A' as int <= c <= 'Z' as int then c + 0x20 else c
    else if 'a' as int <= c <= 'z' as int then c - 0x20 else c
  }

  /** Characters fold to characters, and the table agrees with the rule for ASCII. */
  ghost predicate FoldsOk(table: seq<Run>, unicode: bool) {
    && (forall i, c | 0 <= i < |table| && InRun(table[i], c) :: 0 <= FoldEntry(table[i], c, unicode) < UINT32_MAX)
    && (forall i, c | 0 <= i < |table| && c < 128 && InRun(table[i], c) :: FoldEntry(table[i], c, unicode) == FoldAscii(c, unicode))
    && (forall c | c < 128 && !InTable(table, c) :: FoldAscii(c, unicode) == c)
    && forall i, c | 0 <= i < |table| && c < 128 && InRun(table[i], c) && !InMask(table[i], unicode, c) :: FoldAscii(c, unicode) == c
  }

  ghost predicate InTable(table: seq<Run>, c: int) {
    exists i | 0 <= i < |table| :: InRun(table[i], c)
  }

  /** How a character folds, by the entry it lies in, if any. */
  ghost predicate Folds(table: seq<Run>, unicode: bool, c: int, d: int) {
    && (forall i | 0 <= i < |table| && InRun(table[i], c) :: FoldEntry(table[i], c, unicode) == d)
    && (!InTable(table, c) ==> d == c)
  }

  /** `lre_canonicalize` */
  method Canonicalize(table: seq<Run>, unicode: bool, c: nat) returns (d: int)
    requires TableOk(table) && FoldsOk(table, unicode)
    ensures Folds(table, unicode, c, d)
  {
    if c < 128 {
      return FoldAscii(c, unicode);
    }
    var lo, hi := 0, |table| - 1;
    while lo <= hi
      invariant 0 <= lo <= hi + 1 <= |table|
      invariant forall i | 0 <= i < lo :: table[i].code + table[i].len <= c
      invariant forall i | hi < i < |table| :: c < table[i].code
    {
      var mid := (hi + lo) / 2;
      var r := table[mid];
      if c < r.code {
        hi := mid - 1;
      } else if c >= r.code + r.len {
        lo := mid + 1;
      } else {
        OnlyRun(table, mid, c);
        return FoldEntry(r, c, unicode);
      }
    }
    return c;
  }

  lemma OnlyRun(table: seq<Run>, i: nat, c: int)
    requires TableOk(table) && i < |table| && InRun(table[i], c)
    ensures forall j | 0 <= j < |table| && InRun(table[j], c) :: j == i
  {
  }

  lemma FoldsUnique(table: seq<Run>, unicode: bool, c: int, d: int, d': int)
    requires Folds(table, unicode, c, d) && Folds(table, unicode, c, d')
    ensures d == d'
  {
  }

  // ----- which characters change -----

  /** The run kinds of `unicode_case1` for CASE_F and for CASE_U. */
  predicate Changes(kind: Kind, unicode: bool) {
    if unicode then !(kind == U || kind == L || kind == UExt)
    else !(kind == L || kind == LF || kind == LFExt || kind == LFExt2)
  }

  /** The part of a run that `unicode_case1` lists. */
  predicate InMask(r: Run, unicode: bool, c: int) {
    && InRun(r, c) && Changes(r.kind, unicode)
    && (r.kind == UL ==> ((c - r.code) % 2 == 0) == unicode)
    && (r.kind == LSU ==> c != (if unicode then r.code + 2 else r.code))
  }

  /** Characters outside the mask are fixed. */
  lemma OutsideMask(r: Run, unicode: bool, c: int)
    requires RunOk(r) && InRun(r, c) && !InMask(r, unicode, c) && c >= 128
    ensures FoldEntry(r, c, unicode) == c
  {
  }

  /** The two characters of a pair fold to the same one of them, and the three of a triple; folding again changes
      nothing. */
  lemma PairsFold(r: Run, unicode: bool, c: int)
    requires RunOk(r) && InRun(r, c) && (r.kind == UL || r.kind == LSU) && r.code >= 128
    ensures var d := FoldEntry(r, c, unicode);
            && InRun(r, d) && FoldEntry(r, d, unicode) == d && (d != c ==> InMask(r, unicode, c))
            && (r.kind == UL ==> d - r.code == (c - r.code) / 2 * 2 + if unicode then 1 else 0)
            && (r.kind == LSU ==> d == if unicode then r.code + 2 else r.code)
  {
    var a := c - r.code;
    assert a == a / 2 * 2 + a % 2;
    if r.kind == UL && unicode {
      assert r.len % 2 == 0 && a / 2 * 2 + 1 < r.len;
    }
  }

  /** Lower case undoes upper case and the other way round, within pairs and triples. */
  lemma PairsConvert(r: Run, c: int, conv: int)
    requires RunOk(r) && InRun(r, c) && (r.kind == UL || r.kind == LSU) && 0 <= conv <= 2
    ensures var (n, d) := Convert(r, c, conv);
            && n == 1 && InRun(r, d) && Convert(r, d, conv) == (1, d)
            && Convert(r, Convert(r, c, 0).1, conv) == Convert(r, c, conv)
            && Convert(r, Convert(r, c, 1).1, conv) == Convert(r, c, conv)
  {
    var a := c - r.code;
    assert a == a / 2 * 2 + a % 2;
  }

  ghost predicate Masked(table: seq<Run>, unicode: bool, c: int) {
    exists i | 0 <= i < |table| :: InMask(table[i], unicode, c)
  }

  lemma MaskedFolds(table: seq<Run>, unicode: bool, c: int, i: nat)
    requires TableOk(table) && i < |table| && InRun(table[i], c)
    ensures Folds(table, unicode, c, FoldEntry(table[i], c, unicode))
  {
    OnlyRun(table, i, c);
  }

  lemma UnmaskedFolds(table: seq<Run>, unicode: bool, c: int)
    requires TableOk(table) && FoldsOk(table, unicode) && !Masked(table, unicode, c)
    ensures Folds(table, unicode, c, c)
  {
    forall i | 0 <= i < |table| && InRun(table[i], c) ensures FoldEntry(table[i], c, unicode) == c {
      assert !InMask(table[i], unicode, c);
      if c >= 128 {
        OutsideMask(table[i], unicode, c);
      }
    }
  }

  // ----- the mask as a set -----

  /** The endpoints written for a run. */
  function MaskOf(r: Run, unicode: bool): (s: seq<int>)
  {
    if !Changes(r.kind, unicode) then []
    else if r.kind == UL then Singles(if unicode then r.code else r.code + 1, r.len / 2)
    else if r.kind == LSU then if unicode then [r.code, r.code + 1, r.code + 1, r.code + 2]
      else [r.code + 1, r.code + 2, r.code + 2, r.code + 3]
    else [r.code, r.code + r.len]
  }

  /** Every other character from `code` on. */
  function Singles(code: int, n: nat): (s: seq<int>)
    ensures |s| == 2 * n
  {
    if n == 0 then [] else Singles(code, n - 1) + [code + 2 * (n - 1), code + 2 * (n - 1) + 1]
  }

  lemma {:induction false} SinglesAre(code: int, n: nat, c: int)
    ensures Sorted(Singles(code, n)) && forall x :: x in Singles(code, n) ==> code <= x < code + 2 * n
    ensures Has(Singles(code, n), c) == (code <= c < code + 2 * n && (c - code) % 2 == 0)
  {
    hide Has;
    if n == 0 {
      NoneHeld(c);
    } else {
      var s, x := Singles(code, n - 1), code + 2 * (n - 1);
      SinglesAre(code, n - 1, c);
      TwoHeld(x, x + 1, c);
      HasJoin(s, [x, x + 1], x, c);
      JoinSorted(s, [x, x + 1], x);
    }
  }

  /** s lists, in order, the masked characters of a run. */
  ghost predicate Lists(s: seq<int>, r: Run, unicode: bool) {
    && |s| % 2 == 0 && Sorted(s) && (forall x :: x in s ==> r.code <= x <= r.code + r.len)
    && forall c :: Has(s, c) == InMask(r, unicode, c)
  }

  lemma MaskLists(r: Run, unicode: bool)
    requires RunOk(r)
    ensures Lists(MaskOf(r, unicode), r, unicode)
  {
    hide Has, Lists;
    if !Changes(r.kind, unicode) {
      MaskNone(r, unicode);
    } else if r.kind == UL {
      MaskPairs(r, unicode);
    } else if r.kind == LSU {
      MaskTriple(r, unicode);
    } else {
      MaskWhole(r, unicode);
    }
  }

  lemma MaskNone(r: Run, unicode: bool)
    requires RunOk(r) && !Changes(r.kind, unicode)
    ensures Lists(MaskOf(r, unicode), r, unicode)
  {
    hide Has;
    forall c ensures !Has([], c) {
      NoneHeld(c);
    }
  }

  lemma MaskPairs(r: Run, unicode: bool)
    requires RunOk(r) && r.kind == UL
    ensures Lists(MaskOf(r, unicode), r, unicode)
  {
    hide Has, Singles;
    var s := MaskOf(r, unicode);
    var code := if unicode then r.code else r.code + 1;
    forall c ensures Has(s, c) == InMask(r, unicode, c) {
      SinglesAre(code, r.len / 2, c);
    }
    SinglesAre(code, r.len / 2, 0);
  }

  lemma MaskTriple(r: Run, unicode: bool)
    requires RunOk(r) && r.kind == LSU
    ensures Lists(MaskOf(r, unicode), r, unicode)
  {
    hide Has;
    var s := MaskOf(r, unicode);
    forall c ensures Has(s, c) == InMask(r, unicode, c) {
      FourHeld(s[0], s[1], s[3], c);
    }
  }

  lemma MaskWhole(r: Run, unicode: bool)
    requires RunOk(r) && Changes(r.kind, unicode) && r.kind != UL && r.kind != LSU
    ensures Lists(MaskOf(r, unicode), r, unicode)
  {
    hide Has;
    var s := MaskOf(r, unicode);
    forall c ensures Has(s, c) == InMask(r, unicode, c) {
      TwoHeld(r.code, r.code + r.len, c);
    }
  }

  lemma NoneHeld(c: int)
    ensures !Has([], c)
  {
  }

  lemma TwoHeld(x: int, y: int, c: int)
    requires x <= y
    ensures Has([x, y], c) == (x <= c < y)
  {
    hide Crossed;
    assert [x, y] == [x] + [y];
    CrossedPush([x], y, c);
    CrossedOne(x, c);
  }

  lemma FourHeld(x: int, y: int, z: int, c: int)
    requires x <= y <= z
    ensures Has([x, y, y, z], c) == (x <= c < z)
  {
    hide Crossed;
    assert [x, y, y, z] == [x, y] + [y, z];
    CrossedJoin([x, y], [y, z], c);
    assert [x, y] == [x] + [y] && [y, z] == [y] + [z];
    CrossedPush([x], y, c);
    CrossedOne(x, c);
    CrossedPush([y], z, c);
    CrossedOne(y, c);
  }

  /** s lists the masked characters of the first n runs. */
  ghost predicate ListsAll(s: seq<int>, table: seq<Run>, unicode: bool, n: nat) {
    && n <= |table| && |s| % 2 == 0 && Sorted(s) && InRange(s)
    && (n < |table| ==> forall x :: x in s ==> x <= table[n].code)
    && forall c :: Has(s, c) == Masked(table[..n], unicode, c)
  }

  lemma ListsMore(s: seq<int>, table: seq<Run>, unicode: bool, n: nat)
    requires TableOk(table) && n < |table| && ListsAll(s, table, unicode, n)
    ensures ListsAll(s + MaskOf(table[n], unicode), table, unicode, n + 1)
  {
    hide Has, InMask, MaskOf;
    var r, m := table[n], MaskOf(table[n], unicode);
    MaskLists(r, unicode);
    JoinSorted(s, m, r.code);
    forall c ensures Has(s + m, c) == Masked(table[..n + 1], unicode, c) {
      assert table[..n + 1] == table[..n] + [r];
      MaskedMore(table[..n], r, unicode, c);
      assert Has(s, c) == Masked(table[..n], unicode, c) && Has(m, c) == InMask(r, unicode, c);
      HasJoin(s, m, r.code, c);
      InMaskBounds(table, n, unicode, c);
    }
    forall i | 0 <= i < |s + m| ensures 0 <= (s + m)[i] <= UINT32_MAX {
      assert i >= |s| ==> (s + m)[i] in m;
    }
    if n + 1 < |table| {
      forall x | x in s + m ensures x <= table[n + 1].code {
        assert x in s || x in m;
      }
    }
  }

  lemma InMaskBounds(table: seq<Run>, n: nat, unicode: bool, c: int)
    requires TableOk(table) && n < |table|
    ensures if c < table[n].code then !InMask(table[n], unicode, c) else !Masked(table[..n], unicode, c)
  {
  }

  lemma MaskedMore(table: seq<Run>, r: Run, unicode: bool, c: int)
    ensures Masked(table + [r], unicode, c) == (Masked(table, unicode, c) || InMask(r, unicode, c))
  {
    var t := table + [r];
    assert t[|table|] == r;
    assert forall i | 0 <= i < |table| :: t[i] == table[i];
  }

  lemma JoinSorted(s: seq<int>, m: seq<int>, v: int)
    requires Sorted(s) && Sorted(m) && (forall x :: x in s ==> x <= v) && forall x :: x in m ==> v <= x
    ensures Sorted(s + m)
  {
    var t := s + m;
    forall i, j | 0 <= i < j < |t| ensures t[i] <= t[j] {
      if i < |s| <= j {
        assert s[i] in s && m[j - |s|] in m;
      }
    }
  }

  /** Membership in two sets, one after the other. */
  lemma HasJoin(s: seq<int>, m: seq<int>, v: int, c: int)
    requires |s| % 2 == 0 && (forall x :: x in s ==> x <= v) && (forall x :: x in m ==> v <= x)
    ensures Has(s + m, c) == if c < v then Has(s, c) else Has(m, c)
  {
    hide Crossed;
    CrossedJoin(s, m, c);
    assert forall i | 0 <= i < |s| :: s[i] in s;
    assert forall i | 0 <= i < |m| :: m[i] in m;
    if c < v {
      CrossedNone(m, c);
    } else {
      CrossedAll(s, c);
    }
  }

  lemma NothingListed(table: seq<Run>, unicode: bool)
    ensures ListsAll([], table, unicode, 0)
  {
  }

  /** `unicode_case1` for folding or for upper case */
  method CollectMask(cr: CharRange, table: seq<Run>, unicode: bool)
    requires TableOk(table) && cr.points == []
    modifies cr
    ensures Sorted(cr.points) && |cr.points| % 2 == 0 && InRange(cr.points)
    ensures forall c :: Has(cr.points, c) == Masked(table, unicode, c)
  {
    hide TableOk, ListsAll, Has, MaskOf;
    NothingListed(table, unicode);
    for i := 0 to |table|
      invariant ListsAll(cr.points, table, unicode, i)
    {
      ghost var s := cr.points;
      ListsMore(s, table, unicode, i);
      AddRun(cr, table[i], unicode);
    }
    AllListed(cr.points, table, unicode);
  }

  lemma AllListed(s: seq<int>, table: seq<Run>, unicode: bool)
    requires ListsAll(s, table, unicode, |table|)
    ensures Sorted(s) && |s| % 2 == 0 && InRange(s) && forall c :: Has(s, c) == Masked(table, unicode, c)
  {
    assert table[..|table|] == table;
  }

  method AddRun(cr: CharRange, r: Run, unicode: bool)
    modifies cr
    ensures cr.points == old(cr.points) + MaskOf(r, unicode)
  {
    if Changes(r.kind, unicode) {
      if r.kind == UL {
        var code := if unicode then r.code else r.code + 1;
        ghost var s := cr.points;
        assert s == s + Singles(code, 0);
        for i := 0 to r.len / 2
          invariant cr.points == s + Singles(code, i)
        {
          cr.points := cr.points + [code + 2 * i, code + 2 * i + 1];
        }
      } else if r.kind == LSU {
        if unicode {
          cr.points := cr.points + [r.code, r.code + 1];
        }
        cr.points := cr.points + [r.code + 1, r.code + 2];
        if !unicode {
          cr.points := cr.points + [r.code + 2, r.code + 3];
        }
      } else {
        cr.points := cr.points + [r.code, r.code + r.len];
      }
    }
  }

  // ----- folding a set -----

  /** d is among the intervals written and the one being built. */
  ghost predicate Listed(s: seq<int>, start: int, end: int, d: int) {
    Covered(s, 0, |s| / 2, d) || start <= d < end
  }

  /** d is what a character of `s` below `limit` folds to. */
  ghost predicate FoldedFrom(table: seq<Run>, unicode: bool, s: seq<int>, limit: int, d: int) {
    exists c | Has(s, c) && c < limit :: Folds(table, unicode, c, d)
  }

  /** The characters of `s` below `limit` have been folded. */
  ghost predicate Folded(table: seq<Run>, unicode: bool, s: seq<int>, limit: int, out: seq<int>, start: int, end: int) {
    && |out| % 2 == 0 && NotEmpty(out) && (if start == -1 then end == -1 && out == [] else 0 <= start < end)
    && forall d :: Listed(out, start, end, d) <==> FoldedFrom(table, unicode, s, limit, d)
  }

  lemma NothingFolded(table: seq<Run>, unicode: bool, s: seq<int>, limit: int)
    requires forall c | c < limit :: !Has(s, c)
    ensures Folded(table, unicode, s, limit, [], -1, -1)
  {
  }

  /** One more character: its fold extends the interval being built, or starts another. */
  lemma FoldOne(table: seq<Run>, unicode: bool, s: seq<int>, c: int, out: seq<int>, start: int, end: int, d: int, out': seq<int>, start': int)
    requires Folded(table, unicode, s, c, out, start, end) && Has(s, c) && Folds(table, unicode, c, d) && d >= 0
    requires if start == -1 then out' == out && start' == d
             else if end == d then out' == out && start' == start
             else out' == out + [start, end] && start' == d
    ensures Folded(table, unicode, s, c + 1, out', start', d + 1)
  {
    hide Has, Folds;
    var c', end' := c + 1, d + 1;
    forall x ensures Listed(out', start', end', x) <==> FoldedFrom(table, unicode, s, c', x) {
      assert Listed(out, start, end, x) <==> FoldedFrom(table, unicode, s, c, x);
      FromOneMore(table, unicode, s, c, d, x);
      if out' != out {
        CoveredMore(out, start, end, x);
      }
    }
    if out' != out {
      NotEmptyMore(out, start, end);
    }
  }

  lemma NotEmptyMore(out: seq<int>, start: int, end: int)
    requires |out| % 2 == 0 && NotEmpty(out) && start < end
    ensures NotEmpty(out + [start, end])
  {
  }

  lemma CoveredMore(out: seq<int>, start: int, end: int, x: int)
    requires |out| % 2 == 0
    ensures Covered(out + [start, end], 0, |out + [start, end]| / 2, x) == (Covered(out, 0, |out| / 2, x) || start <= x < end)
  {
    var t, n := out + [start, end], |out| / 2;
    assert t[2 * n] == start && t[2 * n + 1] == end;
    assert forall k | 0 <= k < n :: t[2 * k] == out[2 * k] && t[2 * k + 1] == out[2 * k + 1];
  }

  lemma FromOneMore(table: seq<Run>, unicode: bool, s: seq<int>, c: int, d: int, x: int)
    requires Has(s, c) && Folds(table, unicode, c, d)
    ensures FoldedFrom(table, unicode, s, c + 1, x) == (FoldedFrom(table, unicode, s, c, x) || x == d)
  {
    hide Has, Folds;
    if FoldedFrom(table, unicode, s, c + 1, x) {
      var c' :| Has(s, c') && c' < c + 1 && Folds(table, unicode, c', x);
      if c' == c {
        FoldsUnique(table, unicode, c, x, d);
      }
    }
  }

  /** No character of s lies between the limits. */
  lemma SkipGap(table: seq<Run>, unicode: bool, s: seq<int>, limit: int, limit': int, out: seq<int>, start: int, end: int)
    requires Folded(table, unicode, s, limit, out, start, end) && limit <= limit' && forall c | limit <= c < limit' :: !Has(s, c)
    ensures Folded(table, unicode, s, limit', out, start, end)
  {
    hide Has, Folds, Listed;
    forall d ensures FoldedFrom(table, unicode, s, limit', d) == FoldedFrom(table, unicode, s, limit, d) {
    }
  }

  /** Runs before `idx` end at or before c. */
  predicate Passed(table: seq<Run>, idx: nat, c: int) {
    idx <= |table| && forall i | 0 <= i < idx :: table[i].code + table[i].len <= c
  }

  /** The forward scan of the table: it never runs past the end. */
  method FindRun(table: seq<Run>, idx0: nat, c: int, ghost unicode: bool) returns (idx: nat)
    requires TableOk(table) && Masked(table, unicode, c) && Passed(table, idx0, c) && idx0 < |table|
    ensures idx0 <= idx < |table| && InRun(table[idx], c) && Passed(table, idx, c)
  {
    ghost var r :| 0 <= r < |table| && InMask(table[r], unicode, c);
    idx := idx0;
    while !(table[idx].code <= c < table[idx].code + table[idx].len)
      invariant idx0 <= idx <= r < |table| && Passed(table, idx, c)
      decreases r - idx
    {
      assert idx != r;
      idx := idx + 1;
    }
  }

  /** What the characters of s fold to. */
  ghost predicate Image(table: seq<Run>, unicode: bool, s: seq<int>, d: int) {
    exists c | Has(s, c) :: Folds(table, unicode, c, d)
  }

  method FoldAll(inter: seq<int>, table: seq<Run>, unicode: bool, result: CharRange)
    requires TableOk(table) && FoldsOk(table, unicode) && Increasing(inter) && |inter| % 2 == 0 && result.points == []
    requires forall c :: Has(inter, c) ==> Masked(table, unicode, c)
    modifies result
    ensures |result.points| % 2 == 0 && NotEmpty(result.points)
    ensures forall d :: Covered(result.points, 0, |result.points| / 2, d) == Image(table, unicode, inter, d)
  {
    hide TableOk, FoldsOk, Folded, Has, Increasing;
    var start, end, idx := -1, -1, 0;
    ghost var limit := if inter == [] then 0 else inter[0];
    TableStart(table);
    BeforeFirst(inter, limit);
    NothingFolded(table, unicode, inter, limit);
    for i := 0 to |inter| / 2
      invariant limit == (if inter == [] then 0 else if i == 0 then inter[0] else inter[2 * i - 1])
      invariant Folded(table, unicode, inter, limit, result.points, start, end) && idx < |table| && Passed(table, idx, limit)
    {
      InsideIs(inter, i);
      SkipGap(table, unicode, inter, limit, inter[2 * i], result.points, start, end);
      PassedMore(table, idx, limit, inter[2 * i]);
      for c := inter[2 * i] to inter[2 * i + 1]
        invariant Folded(table, unicode, inter, c, result.points, start, end) && idx < |table| && Passed(table, idx, c)
      {
        assert Has(inter, c);
        idx := FindRun(table, idx, c, unicode);
        var d := FoldEntry(table[idx], c, unicode);
        FoldChar(table, unicode, c, idx);
        ghost var out, start0, end0 := result.points, start, end;
        if start == -1 {
          start := d;
        } else if end != d {
          result.points := result.points + [start, end];
          start := d;
        }
        end := d + 1;
        FoldOne(table, unicode, inter, c, out, start0, end0, d, result.points, start);
        PassedMore(table, idx, c, c + 1);
      }
      limit := inter[2 * i + 1];
    }
    AfterLast(inter, limit);
    if start != -1 {
      ghost var out := result.points;
      result.points := result.points + [start, end];
      LastFolded(table, unicode, inter, limit, out, start, end);
    } else {
      NoneFolded(table, unicode, inter, limit, result.points, start, end);
    }
  }

  lemma TableStart(table: seq<Run>)
    requires TableOk(table)
    ensures |table| > 0
  {
  }

  lemma PassedMore(table: seq<Run>, idx: nat, c: int, c': int)
    requires Passed(table, idx, c) && c <= c'
    ensures Passed(table, idx, c')
  {
  }

  lemma FoldChar(table: seq<Run>, unicode: bool, c: int, idx: nat)
    requires TableOk(table) && FoldsOk(table, unicode) && idx < |table| && InRun(table[idx], c)
    ensures Folds(table, unicode, c, FoldEntry(table[idx], c, unicode)) && FoldEntry(table[idx], c, unicode) >= 0
  {
    hide FoldEntry;
    MaskedFolds(table, unicode, c, idx);
  }

  lemma BeforeFirst(s: seq<int>, limit: int)
    requires Increasing(s) && (s != [] ==> limit == s[0])
    ensures forall c | c < limit :: !Has(s, c)
  {
    hide Crossed;
    forall c | c < limit ensures !Has(s, c) {
      CrossedNone(s, c);
    }
  }

  lemma AfterLast(s: seq<int>, limit: int)
    requires Increasing(s) && |s| % 2 == 0 && (s != [] ==> limit == s[|s| - 1])
    ensures forall c | limit <= c :: !Has(s, c)
  {
    hide Crossed;
    forall c | limit <= c ensures !Has(s, c) {
      CrossedAll(s, c);
    }
  }

  /** Where a set has its characters. */
  lemma InsideIs(s: seq<int>, i: nat)
    requires Increasing(s) && |s| % 2 == 0 && i < |s| / 2
    ensures s[2 * i] < s[2 * i + 1] && (i > 0 ==> s[2 * i - 1] < s[2 * i])
    ensures forall c | s[2 * i] <= c < s[2 * i + 1] :: Has(s, c)
    ensures i > 0 ==> forall c | s[2 * i - 1] <= c < s[2 * i] :: !Has(s, c)
  {
    hide Crossed;
    forall c | s[2 * i] <= c < s[2 * i + 1] ensures Has(s, c) {
      CrossedAt(s, c, 2 * i + 1);
    }
    if i > 0 {
      forall c | s[2 * i - 1] <= c < s[2 * i] ensures !Has(s, c) {
        CrossedAt(s, c, 2 * i);
      }
    }
  }

  lemma ImageIs(table: seq<Run>, unicode: bool, s: seq<int>, limit: int, d: int)
    requires forall c | limit <= c :: !Has(s, c)
    ensures FoldedFrom(table, unicode, s, limit, d) == Image(table, unicode, s, d)
  {
    hide Has, Folds;
    if Image(table, unicode, s, d) {
      var c :| Has(s, c) && Folds(table, unicode, c, d);
      assert c < limit;
    }
  }

  lemma LastFolded(table: seq<Run>, unicode: bool, s: seq<int>, limit: int, out: seq<int>, start: int, end: int)
    requires Folded(table, unicode, s, limit, out, start, end) && start != -1 && forall c | limit <= c :: !Has(s, c)
    ensures var t := out + [start, end];
            |t| % 2 == 0 && NotEmpty(t) && forall d :: Covered(t, 0, |t| / 2, d) == Image(table, unicode, s, d)
  {
    hide Has, Image, FoldedFrom, NotEmpty;
    NotEmptyMore(out, start, end);
    var t := out + [start, end];
    forall d ensures Covered(t, 0, |t| / 2, d) == Image(table, unicode, s, d) {
      CoveredMore(out, start, end, d);
      ImageIs(table, unicode, s, limit, d);
      assert Listed(out, start, end, d) <==> FoldedFrom(table, unicode, s, limit, d);
    }
  }

  lemma NoneFolded(table: seq<Run>, unicode: bool, s: seq<int>, limit: int, out: seq<int>, start: int, end: int)
    requires Folded(table, unicode, s, limit, out, start, end) && start == -1 && forall c | limit <= c :: !Has(s, c)
    ensures |out| % 2 == 0 && NotEmpty(out) && forall d :: Covered(out, 0, |out| / 2, d) == Image(table, unicode, s, d)
  {
    hide Has, Image, FoldedFrom;
    forall d ensures Covered(out, 0, |out| / 2, d) == Image(table, unicode, s, d) {
      ImageIs(table, unicode, s, limit, d);
      assert Listed(out, start, end, d) <==> FoldedFrom(table, unicode, s, limit, d);
    }
  }

  /** `cr_regexp_canonicalize`: a set becomes its image under folding */
  method CanonicalizeSet(cr: CharRange, table: seq<Run>, unicode: bool)
    requires TableOk(table) && FoldsOk(table, unicode) && Sorted(cr.points) && |cr.points| % 2 == 0 && InRange(cr.points)
    modifies cr
    ensures Increasing(cr.points) && |cr.points| % 2 == 0
    ensures forall d :: Has(cr.points, d) == Image(table, unicode, old(cr.points), d)
  {
    hide TableOk, FoldsOk, Has, Increasing, Sorted, InRange, Image, Masked, Complement, Combined;
    ghost var s := cr.points;
    var mask := new CharRange();
    var inter := new CharRange();
    var result := new CharRange();
    var rest := new CharRange();
    CollectMask(mask, table, unicode);
    ghost var m := mask.points;
    inter.Operate(mask.points, cr.points, Inter);
    mask.Invert();
    IsSorted(mask.points);
    rest.Operate(mask.points, cr.points, Inter);
    Parted(table, unicode, s, m, mask.points, inter.points, rest.points);
    FoldAll(inter.points, table, unicode, result);
    result.SortAndMerge();
    cr.points := [];
    IsSorted(result.points);
    IsSorted(rest.points);
    cr.Operate(result.points, rest.points, Union);
    WholeImage(table, unicode, s, inter.points, rest.points, result.points, cr.points);
  }

  lemma IsSorted(s: seq<int>)
    requires Increasing(s)
    ensures Sorted(s)
  {
  }

  /** The set falls into the characters that may change and those that do not. */
  ghost predicate Halves(table: seq<Run>, unicode: bool, s: seq<int>, inter: seq<int>, rest: seq<int>) {
    && (forall c :: Has(inter, c) == (Has(s, c) && Masked(table, unicode, c)))
    && (forall c :: Has(rest, c) == (Has(s, c) && !Masked(table, unicode, c)))
  }

  lemma Parted(table: seq<Run>, unicode: bool, s: seq<int>, m: seq<int>, n: seq<int>, inter: seq<int>, rest: seq<int>)
    requires InRange(s) && |s| % 2 == 0 && (forall c :: Has(m, c) == Masked(table, unicode, c)) && Complement(m, n)
    requires forall c :: Has(inter, c) == Combined(Inter, Has(m, c), Has(s, c))
    requires forall c :: Has(rest, c) == Combined(Inter, Has(n, c), Has(s, c))
    ensures Halves(table, unicode, s, inter, rest)
  {
    hide Has, Masked;
    forall c ensures Has(inter, c) == (Has(s, c) && Masked(table, unicode, c)) {
      assert Has(m, c) == Masked(table, unicode, c);
    }
    forall c ensures Has(rest, c) == (Has(s, c) && !Masked(table, unicode, c)) {
      assert Has(m, c) == Masked(table, unicode, c) && Has(n, c) == (0 <= c < UINT32_MAX && !Has(m, c));
      HasInRange(s, c);
    }
  }

  lemma HasInRange(s: seq<int>, c: int)
    requires InRange(s) && |s| % 2 == 0
    ensures Has(s, c) ==> 0 <= c < UINT32_MAX
  {
    hide Crossed;
    if c < 0 {
      CrossedNone(s, c);
    } else if c >= UINT32_MAX {
      CrossedAll(s, c);
    }
  }

  lemma WholeImage(table: seq<Run>, unicode: bool, s: seq<int>, inter: seq<int>, rest: seq<int>, result: seq<int>, t: seq<int>)
    requires TableOk(table) && FoldsOk(table, unicode) && Halves(table, unicode, s, inter, rest)
    requires forall d :: Has(result, d) == Image(table, unicode, inter, d)
    requires forall d :: Has(t, d) == Combined(Union, Has(result, d), Has(rest, d))
    ensures forall d :: Has(t, d) == Image(table, unicode, s, d)
  {
    hide Has, Masked, TableOk, FoldsOk, Folds;
    forall d ensures Has(t, d) == Image(table, unicode, s, d) {
      assert Has(result, d) == Image(table, unicode, inter, d);
      ImageParts(table, unicode, s, inter, rest, d);
    }
  }

  lemma ImageParts(table: seq<Run>, unicode: bool, s: seq<int>, inter: seq<int>, rest: seq<int>, d: int)
    requires TableOk(table) && FoldsOk(table, unicode) && Halves(table, unicode, s, inter, rest)
    ensures Image(table, unicode, s, d) == (Image(table, unicode, inter, d) || Has(rest, d))
  {
    hide Has, Masked, TableOk, FoldsOk, Folds;
    if Image(table, unicode, s, d) {
      var c :| Has(s, c) && Folds(table, unicode, c, d);
      if Masked(table, unicode, c) {
        assert Has(inter, c);
      } else {
        UnmaskedFolds(table, unicode, c);
        FoldsUnique(table, unicode, c, c, d);
        assert Has(rest, c);
      }
    }
    if Image(table, unicode, inter, d) {
      var c :| Has(inter, c) && Folds(table, unicode, c, d);
      assert Has(s, c);
    }
    if Has(rest, d) {
      assert Has(s, d) && !Masked(table, unicode, d);
      UnmaskedFolds(table, unicode, d);
    }
  }
}
