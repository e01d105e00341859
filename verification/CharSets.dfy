/** `CharRange`: sets of characters as sorted endpoints. */
module CharSets {
  import Introsort

  const UINT32_MAX := 0xFFFF_FFFF

  predicate Sorted(s: seq<int>) {
    forall i, j | 0 <= i < j < |s| :: s[i] <= s[j]
  }

  /** The normal form: no empty interval, and no two that touch. */
  predicate Increasing(s: seq<int>) {
    forall i, j | 0 <= i < j < |s| :: s[i] < s[j]
  }

  /** How many endpoints lie at or before c. */
  function Crossed(s: seq<int>, c: int): (n: nat)
    ensures n <= |s|
  {
    if s == [] then 0 else Crossed(s[..|s| - 1], c) + Step(s[|s| - 1], c)
  }

  function Step(x: int, c: int): nat {
    if x <= c then 1 else 0
  }

  /** c lies in one of the intervals [s[0], s[1]), [s[2], s[3]), ... of sorted endpoints. */
  predicate Has(s: seq<int>, c: int) {
    Crossed(s, c) % 2 == 1
  }

  lemma CrossedPush(s: seq<int>, x: int, c: int)
    ensures Crossed(s + [x], c) == Crossed(s, c) + Step(x, c)
  {
    assert (s + [x])[..|s|] == s;
  }

  lemma {:induction false} CrossedAll(s: seq<int>, c: int)
    requires forall i | 0 <= i < |s| :: s[i] <= c
    ensures Crossed(s, c) == |s|
  {
    if s != [] {
      CrossedAll(s[..|s| - 1], c);
    }
  }

  lemma {:induction false} CrossedNone(s: seq<int>, c: int)
    requires forall i | 0 <= i < |s| :: c < s[i]
    ensures Crossed(s, c) == 0
  {
    if s != [] {
      CrossedNone(s[..|s| - 1], c);
    }
  }

  lemma {:induction false} CrossedJoin(s: seq<int>, t: seq<int>, c: int)
    ensures Crossed(s + t, c) == Crossed(s, c) + Crossed(t, c)
  {
    if t == [] {
      assert s + t == s;
    } else {
      assert (s + t)[..|s + t| - 1] == s + t[..|t| - 1];
      CrossedJoin(s, t[..|t| - 1], c);
    }
  }

  /** The number crossed says between which endpoints c lies. */
  lemma CrossedAt(s: seq<int>, c: int, k: nat)
    requires Sorted(s) && k <= |s| && (k == 0 || s[k - 1] <= c) && (k == |s| || c < s[k])
    ensures Crossed(s, c) == k
  {
    hide Crossed;
    assert s == s[..k] + s[k..];
    CrossedJoin(s[..k], s[k..], c);
    CrossedAll(s[..k], c);
    CrossedNone(s[k..], c);
  }

  lemma {:induction false} CrossedWhere(s: seq<int>, c: int) returns (k: nat)
    requires Sorted(s)
    ensures k <= |s| && k == Crossed(s, c) && (k == 0 || s[k - 1] <= c) && (k == |s| || c < s[k])
  {
    k := |s|;
    while k > 0 && c < s[k - 1]
      invariant k <= |s| && (k == |s| || c < s[k])
    {
      k := k - 1;
    }
    CrossedAt(s, c, k);
  }

  /** Membership, interval by interval. */
  lemma HasInterval(s: seq<int>, c: int)
    requires Sorted(s) && |s| % 2 == 0
    ensures Has(s, c) <==> exists i | 0 <= i < |s| / 2 :: s[2 * i] <= c < s[2 * i + 1]
  {
    var k := CrossedWhere(s, c);
    if k % 2 == 1 {
      assert s[2 * (k / 2)] <= c < s[2 * (k / 2) + 1];
    } else {
      forall i | 0 <= i < |s| / 2 ensures !(s[2 * i] <= c < s[2 * i + 1]) {
      }
    }
  }

  /** Two normal forms of the same set are the same. */
  lemma {:induction false} NormalUnique(s: seq<int>, t: seq<int>)
    requires Increasing(s) && Increasing(t) && forall c :: Has(s, c) == Has(t, c)
    ensures s == t
  {
    var n := if |s| < |t| then |s| else |t|;
    if s[..n] == t[..n] {
      if |s| > n {
        Differs(s, t, n);
      } else if |t| > n {
        Differs(t, s, n);
      }
    } else {
      var k := FirstDifference(s[..n], t[..n]);
      if s[k] < t[k] {
        Differs(s, t, k);
      } else {
        Differs(t, s, k);
      }
    }
  }

  lemma FirstDifference(s: seq<int>, t: seq<int>) returns (k: nat)
    requires |s| == |t| && s != t
    ensures k < |s| && s[k] != t[k] && s[..k] == t[..k]
  {
    k := 0;
    while s[k] == t[k]
      invariant k < |s| && s[..k] == t[..k]
      decreases |s| - k
    {
      assert s[..k + 1] == s[..k] + [s[k]] && t[..k + 1] == t[..k] + [t[k]];
      assert s[..|s|] == s && t[..|t|] == t;
      k := k + 1;
    }
  }

  /** At the first endpoint that only s has, membership changes in s alone. */
  lemma Differs(s: seq<int>, t: seq<int>, k: nat)
    requires Increasing(s) && Increasing(t) && k < |s| && k <= |t| && s[..k] == t[..k] && (k == |t| || s[k] < t[k])
    ensures Has(s, s[k]) != Has(t, s[k])
  {
    var c := s[k];
    CrossedAt(s, c, k + 1);
    if k > 0 {
      assert t[k - 1] == t[..k][k - 1] == s[k - 1];
    }
    CrossedAt(t, c, k);
  }

  ghost predicate SameSet(s: seq<int>, t: seq<int>) {
    forall c :: Has(s, c) == Has(t, c)
  }

  datatype Op = Union | Inter | Xor | Sub

  predicate Combined(op: Op, a: bool, b: bool) {
    match op
    case Union => a || b
    case Inter => a && b
    case Xor => a != b
    case Sub => a && !b
  }

  // ----- merging intervals that touch -----

  /** What has been written is the normal form of the endpoints before i. */
  ghost predicate Compressed(out: seq<int>, t: seq<int>, i: nat) {
    && i <= |t| && |out| <= i && |out| % 2 == 0 && i % 2 == 0 && Increasing(out) && SameSet(out, t[..i])
    && (out != [] && i < |t| ==> out[|out| - 1] < t[i]) && forall x :: x in out ==> x in t
  }

  /** The endpoints from i to j + 1 make one interval. */
  ghost predicate OneInterval(t: seq<int>, i: nat, j: nat) {
    i <= j && j + 2 <= |t| && j % 2 == i % 2 && forall c :: OneAt(t, i, j, c)
  }

  ghost predicate OneAt(t: seq<int>, i: nat, j: nat, c: int)
    requires i <= j && j + 2 <= |t|
  {
    Crossed(t[i..j + 2], c) % 2 == (Step(t[i], c) + Step(t[j + 1], c)) % 2
  }

  lemma FirstInterval(t: seq<int>, i: nat)
    requires i + 2 <= |t|
    ensures OneInterval(t, i, i)
  {
    hide Crossed, Step;
    forall c ensures OneAt(t, i, i, c) {
      assert t[i..i + 2] == [t[i]] + [t[i + 1]];
      CrossedOne(t[i], c);
      CrossedPush([t[i]], t[i + 1], c);
    }
  }

  lemma CrossedOne(x: int, c: int)
    ensures Crossed([x], c) == Step(x, c)
  {
    CrossedPush([], x, c);
    assert [] + [x] == [x];
  }

  lemma NextInterval(t: seq<int>, i: nat, j: nat)
    requires OneInterval(t, i, j) && j + 4 <= |t| && t[j + 1] == t[j + 2]
    ensures OneInterval(t, i, j + 2)
  {
    hide Crossed, Step;
    var j' := j + 2;
    forall c ensures OneAt(t, i, j', c) {
      assert OneAt(t, i, j, c);
      assert t[i..j + 3] == t[i..j + 2] + [t[j + 2]] && t[i..j + 4] == t[i..j + 3] + [t[j + 3]];
      CrossedPush(t[i..j + 2], t[j + 2], c);
      CrossedPush(t[i..j + 3], t[j + 3], c);
    }
  }

  lemma Emit(out: seq<int>, t: seq<int>, i: nat, j: nat)
    requires Compressed(out, t, i) && Sorted(t) && |t| % 2 == 0 && i < |t| && t[i] < t[i + 1]
    requires OneInterval(t, i, j) && (j + 4 <= |t| ==> t[j + 1] != t[j + 2])
    ensures Compressed(out + [t[i], t[j + 1]], t, j + 2)
  {
    hide Has, OneAt;
    var out' := out + [t[i], t[j + 1]];
    forall c ensures Has(out', c) == Has(t[..j + 2], c) {
      assert Has(out, c) == Has(t[..i], c) && OneAt(t, i, j, c);
      EmitAt(out, t, i, j, c);
    }
  }

  lemma EmitAt(out: seq<int>, t: seq<int>, i: nat, j: nat, c: int)
    requires i <= j && j + 2 <= |t| && Has(out, c) == Has(t[..i], c) && OneAt(t, i, j, c)
    ensures Has(out + [t[i], t[j + 1]], c) == Has(t[..j + 2], c)
  {
    hide Crossed, Step;
    assert t[..j + 2] == t[..i] + t[i..j + 2] && out + [t[i], t[j + 1]] == out + [t[i]] + [t[j + 1]];
    CrossedJoin(t[..i], t[i..j + 2], c);
    CrossedPush(out, t[i], c);
    CrossedPush(out + [t[i]], t[j + 1], c);
  }

  lemma SkipEmpty(out: seq<int>, t: seq<int>, i: nat)
    requires Compressed(out, t, i) && Sorted(t) && |t| % 2 == 0 && i < |t| && t[i] == t[i + 1]
    ensures Compressed(out, t, i + 2)
  {
    hide Has, OneAt;
    FirstInterval(t, i);
    forall c ensures Has(out, c) == Has(t[..i + 2], c) {
      assert Has(out, c) == Has(t[..i], c) && OneAt(t, i, i, c);
      SkipAt(out, t, i, c);
    }
  }

  lemma SkipAt(out: seq<int>, t: seq<int>, i: nat, c: int)
    requires i + 2 <= |t| && Has(out, c) == Has(t[..i], c) && OneAt(t, i, i, c) && t[i] == t[i + 1]
    ensures Has(out, c) == Has(t[..i + 2], c)
  {
    hide Crossed, Step;
    assert t[..i + 2] == t[..i] + t[i..i + 2];
    CrossedJoin(t[..i], t[i..i + 2], c);
  }

  // ----- one merge of two sets -----

  predicate AllAtMost(s: seq<int>, v: int) {
    forall i | 0 <= i < |s| :: s[i] <= v
  }

  /** r describes the endpoints taken so far from a and b, all of them at most v. */
  ghost predicate Merged(op: Op, r: seq<int>, a: seq<int>, b: seq<int>, v: int) {
    && Sorted(r) && AllAtMost(r, v) && AllAtMost(a, v) && AllAtMost(b, v)
    && forall c :: Has(r, c) == Combined(op, Has(a, c), Has(b, c))
  }

  /** Taking the next endpoint, from a, from b or from both. */
  lemma MergeNext(op: Op, r: seq<int>, a: seq<int>, b: seq<int>, v: int, a': seq<int>, b': seq<int>, v': int, r': seq<int>)
    requires Merged(op, r, a, b, v) && v <= v' && (a' == a || a' == a + [v']) && (b' == b || b' == b + [v'])
    requires r' == if Combined(op, |a'| % 2 == 1, |b'| % 2 == 1) != (|r| % 2 == 1) then r + [v'] else r
    ensures Merged(op, r', a', b', v')
  {
    hide Has, Combined;
    forall c ensures Has(r', c) == Combined(op, Has(a', c), Has(b', c)) {
      if c < v' {
        Unchanged(a, v', c);
        Unchanged(b, v', c);
        Unchanged(r, v', c);
        assert Has(r, c) == Combined(op, Has(a, c), Has(b, c));
      } else {
        Parity(a', v', c);
        Parity(b', v', c);
        Parity(r', v', c);
      }
    }
  }

  lemma Unchanged(s: seq<int>, v: int, c: int)
    requires c < v
    ensures Has(s + [v], c) == Has(s, c)
  {
    hide Crossed;
    CrossedPush(s, v, c);
  }

  lemma Parity(s: seq<int>, v: int, c: int)
    requires AllAtMost(s, v) && v <= c
    ensures Has(s, c) == (|s| % 2 == 1)
  {
    hide Crossed;
    CrossedAll(s, c);
  }

  class CharRange {
    var points: seq<int>

    constructor ()
      ensures points == []
    {
      points := [];
    }

    /** The last of the intervals that touch, one after the other, from the one at i on. */
    method LastTouching(i: nat, ghost t: seq<int>) returns (j: nat)
      requires |points| == |t| && i + 2 <= |t| && points[i..] == t[i..]
      ensures OneInterval(t, i, j) && j + 2 <= |t| && j >= i && j % 2 == i % 2 && (j + 4 <= |t| ==> t[j + 1] != t[j + 2])
    {
      hide OneInterval;
      j := i;
      FirstInterval(t, i);
      while j + 3 < |points| && points[j + 1] == points[j + 2]
        invariant i <= j && j + 2 <= |t| && j % 2 == i % 2 && OneInterval(t, i, j)
      {
        Same(points, t, i, j + 1);
        Same(points, t, i, j + 2);
        NextInterval(t, i, j);
        j := j + 2;
      }
      Same(points, t, i, j + 1);
      if j + 3 < |points| {
        Same(points, t, i, j + 2);
      }
    }

    /** `cr_compress` */
    method Compress()
      requires Sorted(points) && |points| % 2 == 0
      modifies this
      ensures Increasing(points) && |points| % 2 == 0 && SameSet(points, old(points))
      ensures forall x :: x in points ==> x in old(points)
    {
      hide Compressed, OneInterval, SameSet, Increasing;
      ghost var t := points;
      var len := |points|;
      var i, k := 0, 0;
      NothingCompressed(t);
      while i + 1 < len
        invariant 0 <= k <= i <= len && i % 2 == 0 && |points| == len && points[i..] == t[i..] && Compressed(points[..k], t, i)
      {
        Same(points, t, i, i);
        Same(points, t, i, i + 1);
        if points[i] == points[i + 1] {
          SkipEmpty(points[..k], t, i);
          i := i + 2;
        } else {
          var j := LastTouching(i, t);
          Emit(points[..k], t, i, j);
          Shorter(points[..k], t, i);
          ghost var out, end := points[..k], points[j + 1];
          Same(points, t, i, j + 1);
          points := points[k := points[i]][k + 1 := points[j + 1]];
          k := k + 2;
          assert points[..k] == out + [t[i], end];
          i := j + 2;
        }
      }
      points := points[..k];
      AllCompressed(points, t);
    }

    /** `cr_op`, on an empty range */
    method Operate(a: seq<int>, b: seq<int>, op: Op)
      requires points == [] && Sorted(a) && Sorted(b) && |a| % 2 == 0 && |b| % 2 == 0
      modifies this
      ensures Increasing(points) && |points| % 2 == 0
      ensures forall c :: Has(points, c) == Combined(op, Has(a, c), Has(b, c))
      ensures forall x :: x in points ==> x in a || x in b
    {
      hide Merged, Has, Sorted;
      var i, j := 0, 0;
      ghost var v := Below(a, b);
      NothingMerged(op, a, b, v);
      while i < |a| || j < |b|
        invariant 0 <= i <= |a| && 0 <= j <= |b| && Merged(op, points, a[..i], b[..j], v)
        invariant (i < |a| ==> v <= a[i]) && (j < |b| ==> v <= b[j])
        invariant (|points| % 2 == 1) == Combined(op, i % 2 == 1, j % 2 == 1) && forall x :: x in points ==> x in a || x in b
        decreases |a| - i + |b| - j
      {
        ghost var i0, j0, r := i, j, points;
        var w;
        if i < |a| && (j == |b| || a[i] < b[j]) {
          w := a[i];
          i := i + 1;
        } else if i < |a| && a[i] == b[j] {
          w := a[i];
          i := i + 1;
          j := j + 1;
        } else {
          w := b[j];
          j := j + 1;
        }
        assert i > i0 ==> a[..i] == a[..i0] + [w];
        assert j > j0 ==> b[..j] == b[..j0] + [w];
        if Combined(op, i % 2 == 1, j % 2 == 1) != (|points| % 2 == 1) {
          points := points + [w];
        }
        MergeNext(op, r, a[..i0], b[..j0], v, a[..i], b[..j], w, points);
        NextInOrder(a, i, w);
        NextInOrder(b, j, w);
        v := w;
      }
      assert a[..i] == a && b[..j] == b;
      ghost var r := points;
      AllMerged(op, r, a, b, v);
      Compress();
      SetEquals(op, points, r, a, b);
    }

    /** `cr_invert` */
    method Invert()
      requires Sorted(points) && |points| % 2 == 0 && InRange(points)
      modifies this
      ensures Increasing(points) && |points| % 2 == 0 && InRange(points) && Complement(old(points), points)
    {
      hide Complement, Has;
      ghost var s := points;
      points := [0] + points + [UINT32_MAX];
      ghost var t := points;
      Framed(s, t);
      Compress();
      SameComplement(s, t, points);
    }

    /** `cr_sort_and_remove_overlap` */
    method SortAndMerge()
      requires |points| % 2 == 0 && NotEmpty(points)
      modifies this
      ensures Increasing(points) && |points| % 2 == 0
      ensures forall c :: Has(points, c) == Covered(old(points), 0, |old(points)| / 2, c)
      ensures forall x :: x in points ==> x in old(points)
    {
      hide Has, Covered, Joined, Spans, Starts, NotEmpty, Increasing;
      ghost var s := points;
      SortPairs();
      ghost var t := points;
      StillNotEmpty(s, t);
      var i, j := 0, 0;
      NothingJoined(t);
      while i < |points|
        invariant 0 <= j <= i <= |points| == |t| && i % 2 == 0 && j % 2 == 0 && points[i..] == t[i..]
        invariant Joined(points[..j], t, i / 2)
      {
        Same(points, t, i, i);
        Same(points, t, i, i + 1);
        var start, end, k := Overlapping(i, t);
        ghost var out := points[..j];
        JoinMore(out, t, i / 2, k / 2, start, end);
        points := points[j := start][j + 1 := end];
        assert points[..j + 2] == out + [start, end];
        j := j + 2;
        i := k;
      }
      points := points[..j];
      AllJoined(points, s, t);
    }

    /** Sorts the intervals by their starts. */
    method SortPairs()
      requires |points| % 2 == 0
      modifies this
      ensures |points| == |old(points)| && Starts(points) && multiset(Pairs(points)) == multiset(Pairs(old(points)))
    {
      ghost var was := points;
      var ps := Pairs(points);
      var a := new (int, int)[|ps|](k requires 0 <= k < |ps| => ps[k]);
      assert a[..] == ps;
      PointOrder();
      Introsort.Sort(a, PointCmp);
      points := Flat(a[..]);
      FlatPairs(a[..]);
      SortedStarts(a[..]);
      SameCount(ps, a[..]);
    }

    /** One interval and those that start no later than it, so extended, ends. */
    method Overlapping(i: nat, ghost t: seq<int>) returns (start: int, end: int, k: nat)
      requires |points| == |t| && |t| % 2 == 0 && i % 2 == 0 && i < |t| && points[i..] == t[i..] && Starts(t) && NotEmpty(t)
      ensures i < k <= |t| && k % 2 == 0 && start == t[i] && start < end && end in t && (k < |t| ==> end < t[k])
      ensures Spans(t, i / 2, k / 2, start, end)
    {
      hide Covered, Spans, Starts, NotEmpty;
      Same(points, t, i, i);
      Same(points, t, i, i + 1);
      start, end := points[i], points[i + 1];
      k := i + 2;
      NonEmptyAt(t, i / 2);
      CoveredOne(t, i / 2, k / 2);
      while k < |points|
        invariant i < k <= |t| && k % 2 == 0 && start < end && end in t
        invariant Spans(t, i / 2, k / 2, start, end)
      {
        Same(points, t, i, k);
        Same(points, t, i, k + 1);
        var start1, end1 := points[k], points[k + 1];
        if start1 > end {
          break;
        }
        NonEmptyAt(t, k / 2);
        CoveredNext(t, i / 2, k / 2, (k + 2) / 2, start, end);
        if end1 > end {
          end := end1;
        }
        k := k + 2;
      }
    }
  }

  // ----- complements -----

  predicate InRange(s: seq<int>) {
    forall i | 0 <= i < |s| :: 0 <= s[i] <= UINT32_MAX
  }

  /** t holds the characters below UINT32_MAX that s does not. */
  ghost predicate Complement(s: seq<int>, t: seq<int>) {
    forall c :: Has(t, c) == (0 <= c < UINT32_MAX && !Has(s, c))
  }

  lemma Framed(s: seq<int>, t: seq<int>)
    requires Sorted(s) && |s| % 2 == 0 && InRange(s) && t == [0] + s + [UINT32_MAX]
    ensures Sorted(t) && InRange(t) && Complement(s, t)
  {
    forall c ensures Has(t, c) == (0 <= c < UINT32_MAX && !Has(s, c)) {
      FramedAt(s, t, c);
    }
  }

  lemma FramedAt(s: seq<int>, t: seq<int>, c: int)
    requires |s| % 2 == 0 && InRange(s) && t == [0] + s + [UINT32_MAX]
    ensures Has(t, c) == (0 <= c < UINT32_MAX && !Has(s, c))
  {
    hide Crossed;
    CrossedPush([0] + s, UINT32_MAX, c);
    CrossedJoin([0], s, c);
    CrossedOne(0, c);
    if c < 0 {
      CrossedNone(s, c);
    } else if c >= UINT32_MAX {
      CrossedAll(s, c);
    }
  }

  lemma SameComplement(s: seq<int>, t: seq<int>, u: seq<int>)
    requires Complement(s, t) && SameSet(u, t) && InRange(t) && forall x :: x in u ==> x in t
    ensures Complement(s, u) && InRange(u)
  {
    hide Has;
    forall c ensures Has(u, c) == (0 <= c < UINT32_MAX && !Has(s, c)) {
      assert Has(u, c) == Has(t, c);
    }
    forall i | 0 <= i < |u| ensures 0 <= u[i] <= UINT32_MAX {
      assert u[i] in u;
    }
  }

  /** Complementing twice gives a normal form back. */
  lemma ComplementTwice(s: seq<int>, t: seq<int>, u: seq<int>)
    requires Increasing(s) && |s| % 2 == 0 && InRange(s) && Increasing(u) && Complement(s, t) && Complement(t, u)
    ensures u == s
  {
    hide Crossed;
    forall c ensures Has(u, c) == Has(s, c) {
      if c < 0 {
        CrossedNone(s, c);
      } else if c >= UINT32_MAX {
        CrossedAll(s, c);
      }
      assert Has(t, c) == (0 <= c < UINT32_MAX && !Has(s, c));
    }
    NormalUnique(u, s);
  }

  // ----- intervals in any order -----

  predicate NotEmpty(s: seq<int>)
    requires |s| % 2 == 0
  {
    forall k | 0 <= k < |s| / 2 :: s[2 * k] < s[2 * k + 1]
  }

  lemma NonEmptyAt(s: seq<int>, k: nat)
    requires |s| % 2 == 0 && NotEmpty(s) && k < |s| / 2
    ensures s[2 * k] < s[2 * k + 1]
  {
  }

  /** One of the intervals a .. b - 1 holds c. */
  ghost predicate Covered(s: seq<int>, a: nat, b: nat, c: int)
    requires b <= |s| / 2
  {
    exists k | a <= k < b :: s[2 * k] <= c < s[2 * k + 1]
  }

  predicate Starts(s: seq<int>)
    requires |s| % 2 == 0
  {
    forall k, l | 0 <= k < l < |s| / 2 :: s[2 * k] <= s[2 * l]
  }

  function Pairs(s: seq<int>): (ps: seq<(int, int)>)
    requires |s| % 2 == 0
    ensures |ps| == |s| / 2 && forall k | 0 <= k < |ps| :: ps[k] == (s[2 * k], s[2 * k + 1])
  {
    seq(|s| / 2, k requires 0 <= k < |s| / 2 => (s[2 * k], s[2 * k + 1]))
  }

  function Flat(ps: seq<(int, int)>): (s: seq<int>)
    ensures |s| == 2 * |ps|
    ensures forall k | 0 <= k < |ps| :: s[2 * k] == ps[k].0 && s[2 * k + 1] == ps[k].1
  {
    seq(2 * |ps|, k requires 0 <= k < 2 * |ps| => if k % 2 == 0 then ps[k / 2].0 else ps[k / 2].1)
  }

  lemma FlatPairs(ps: seq<(int, int)>)
    ensures Pairs(Flat(ps)) == ps
  {
  }

  lemma SameCount<T>(s: seq<T>, t: seq<T>)
    requires multiset(s) == multiset(t)
    ensures |s| == |t|
  {
    assert |multiset(s)| == |s| && |multiset(t)| == |t|;
  }

  /** `point_cmp` */
  function PointCmp(x: (int, int), y: (int, int)): int {
    (if x.0 > y.0 then 1 else 0) - (if x.0 < y.0 then 1 else 0)
  }

  lemma PointOrder()
    ensures Introsort.TotalPreorder(PointCmp)
  {
  }

  lemma SortedStarts(ps: seq<(int, int)>)
    requires Introsort.SortedIn(PointCmp, ps, 0, |ps|)
    ensures Starts(Flat(ps))
  {
    var s := Flat(ps);
    forall k, l | 0 <= k < l < |s| / 2 ensures s[2 * k] <= s[2 * l] {
      assert PointCmp(ps[k], ps[l]) <= 0;
    }
  }

  /** The intervals a .. b - 1 make up one. */
  ghost predicate Spans(t: seq<int>, a: nat, b: nat, start: int, end: int)
    requires b <= |t| / 2
  {
    forall c :: Covered(t, a, b, c) == (start <= c < end)
  }

  lemma CoveredOne(t: seq<int>, i: nat, j: nat)
    requires j == i + 1 <= |t| / 2
    ensures Spans(t, i, j, t[2 * i], t[2 * i + 1])
  {
  }

  lemma CoveredNext(t: seq<int>, i: nat, k: nat, k': nat, start: int, end: int)
    requires |t| % 2 == 0 && i < k && k' == k + 1 <= |t| / 2 && Starts(t) && start == t[2 * i] && t[2 * k] <= end && t[2 * k] < t[2 * k + 1]
    requires Spans(t, i, k, start, end)
    ensures Spans(t, i, k', start, if t[2 * k + 1] > end then t[2 * k + 1] else end)
  {
    hide Covered;
    CoveredOne(t, k, k');
    forall c ensures Covered(t, i, k', c) == (start <= c < if t[2 * k + 1] > end then t[2 * k + 1] else end) {
      CoveredSplit(t, i, k, k', c);
      assert Covered(t, i, k, c) == (start <= c < end) && Covered(t, k, k', c) == (t[2 * k] <= c < t[2 * k + 1]);
    }
  }

  lemma CoveredSplit(t: seq<int>, a: nat, b: nat, d: nat, c: int)
    requires a <= b <= d <= |t| / 2
    ensures Covered(t, a, d, c) == (Covered(t, a, b, c) || Covered(t, b, d, c))
  {
  }

  /** out is the normal form of the first n intervals. */
  ghost predicate Joined(out: seq<int>, t: seq<int>, n: nat) {
    && n <= |t| / 2 && |out| <= 2 * n && |out| % 2 == 0 && Increasing(out)
    && (forall c :: Has(out, c) == Covered(t, 0, n, c))
    && (out != [] && n < |t| / 2 ==> out[|out| - 1] < t[2 * n]) && forall x :: x in out ==> x in t
  }

  lemma NothingJoined(t: seq<int>)
    ensures Joined([], t, 0)
  {
  }

  lemma JoinMore(out: seq<int>, t: seq<int>, n: nat, m: nat, start: int, end: int)
    requires Joined(out, t, n) && n < m <= |t| / 2 && start == t[2 * n] && start < end && end in t
    requires (m < |t| / 2 ==> end < t[2 * m]) && Spans(t, n, m, start, end)
    ensures Joined(out + [start, end], t, m)
  {
    hide Has;
    var out' := out + [start, end];
    forall c ensures Has(out', c) == Covered(t, 0, m, c) {
      CoveredSplit(t, 0, n, m, c);
      AddInterval(out, start, end, c);
      assert Has(out, c) == Covered(t, 0, n, c) && Covered(t, n, m, c) == (start <= c < end);
    }
  }

  lemma AddInterval(out: seq<int>, start: int, end: int, c: int)
    requires Increasing(out) && |out| % 2 == 0 && (out != [] ==> out[|out| - 1] < start) && start < end
    ensures Has(out + [start, end], c) == (Has(out, c) || start <= c < end)
  {
    hide Crossed;
    assert out + [start, end] == out + [start] + [end];
    CrossedPush(out, start, c);
    CrossedPush(out + [start], end, c);
    if start <= c {
      CrossedAll(out, c);
    }
  }

  lemma AllJoined(out: seq<int>, s: seq<int>, t: seq<int>)
    requires |s| % 2 == 0 && |t| == |s| && Joined(out, t, |t| / 2) && multiset(Pairs(s)) == multiset(Pairs(t))
    ensures Increasing(out) && |out| % 2 == 0 && (forall c :: Has(out, c) == Covered(s, 0, |s| / 2, c))
    ensures forall x :: x in out ==> x in s
  {
    hide Has;
    forall c ensures Covered(t, 0, |t| / 2, c) == Covered(s, 0, |s| / 2, c) {
      CoveredSame(s, t, c);
      CoveredSame(t, s, c);
    }
    forall x | x in out ensures x in s {
      PointsSame(s, t, x);
    }
  }

  lemma CoveredSame(s: seq<int>, t: seq<int>, c: int)
    requires |s| % 2 == 0 && |t| == |s| && multiset(Pairs(s)) == multiset(Pairs(t))
    ensures Covered(s, 0, |s| / 2, c) ==> Covered(t, 0, |t| / 2, c)
  {
    if Covered(s, 0, |s| / 2, c) {
      var k :| 0 <= k < |s| / 2 && s[2 * k] <= c < s[2 * k + 1];
      var l := Elsewhere(s, t, k);
    }
  }

  lemma StillNotEmpty(s: seq<int>, t: seq<int>)
    requires |s| % 2 == 0 && |t| == |s| && multiset(Pairs(s)) == multiset(Pairs(t)) && NotEmpty(s)
    ensures NotEmpty(t)
  {
    forall l | 0 <= l < |t| / 2 ensures t[2 * l] < t[2 * l + 1] {
      var k := Elsewhere(t, s, l);
    }
  }

  lemma Elsewhere(s: seq<int>, t: seq<int>, k: nat) returns (l: nat)
    requires |s| % 2 == 0 && |t| == |s| && multiset(Pairs(s)) == multiset(Pairs(t)) && k < |s| / 2
    ensures l < |t| / 2 && t[2 * l] == s[2 * k] && t[2 * l + 1] == s[2 * k + 1]
  {
    assert Pairs(s)[k] in multiset(Pairs(s));
    assert Pairs(s)[k] in Pairs(t);
    l :| 0 <= l < |t| / 2 && Pairs(t)[l] == Pairs(s)[k];
  }

  lemma PointsSame(s: seq<int>, t: seq<int>, x: int)
    requires |s| % 2 == 0 && |t| == |s| && multiset(Pairs(s)) == multiset(Pairs(t)) && x in t
    ensures x in s
  {
    var i :| 0 <= i < |t| && t[i] == x;
    var l := Elsewhere(t, s, i / 2);
    assert i == 2 * (i / 2) || i == 2 * (i / 2) + 1;
  }

  /** Below all endpoints. */
  lemma Below(a: seq<int>, b: seq<int>) returns (v: int)
    requires Sorted(a) && Sorted(b)
    ensures (a != [] ==> v <= a[0]) && (b != [] ==> v <= b[0])
  {
    v := if a == [] then if b == [] then 0 else b[0] else if b == [] || a[0] <= b[0] then a[0] else b[0];
  }

  lemma Same(s: seq<int>, t: seq<int>, i: nat, j: nat)
    requires i <= j < |s| == |t| && s[i..] == t[i..]
    ensures s[j] == t[j]
  {
    assert s[i..][j - i] == t[i..][j - i];
  }

  lemma NothingCompressed(t: seq<int>)
    ensures Compressed([], t, 0)
  {
    assert t[..0] == [];
  }

  lemma Shorter(out: seq<int>, t: seq<int>, i: nat)
    requires Compressed(out, t, i)
    ensures |out| <= i && |out| % 2 == 0
  {
  }

  lemma AllCompressed(out: seq<int>, t: seq<int>)
    requires |t| % 2 == 0 && Compressed(out, t, |t|)
    ensures Increasing(out) && |out| % 2 == 0 && SameSet(out, t) && forall x :: x in out ==> x in t
  {
    assert t[..|t|] == t;
  }

  lemma NothingMerged(op: Op, a: seq<int>, b: seq<int>, v: int)
    ensures Merged(op, [], a[..0], b[..0], v) && !Combined(op, false, false)
  {
    hide Crossed;
    forall c ensures !Has([], c) {
      CrossedNone([], c);
    }
    assert a[..0] == [] && b[..0] == [];
  }

  lemma NextInOrder(a: seq<int>, i: nat, w: int)
    requires Sorted(a) && i <= |a| && (i < |a| ==> w <= a[i] || (i > 0 && a[i - 1] == w))
    ensures i < |a| ==> w <= a[i]
  {
  }

  lemma AllMerged(op: Op, r: seq<int>, a: seq<int>, b: seq<int>, v: int)
    requires Merged(op, r, a, b, v)
    ensures Sorted(r) && forall c :: Has(r, c) == Combined(op, Has(a, c), Has(b, c))
  {
  }

  lemma SetEquals(op: Op, s: seq<int>, r: seq<int>, a: seq<int>, b: seq<int>)
    requires SameSet(s, r) && forall c :: Has(r, c) == Combined(op, Has(a, c), Has(b, c))
    ensures forall c :: Has(s, c) == Combined(op, Has(a, c), Has(b, c))
  {
    hide Has, Combined;
    forall c ensures Has(s, c) == Combined(op, Has(a, c), Has(b, c)) {
      assert Has(s, c) == Has(r, c);
    }
  }
}
