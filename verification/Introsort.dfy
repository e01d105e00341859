/** `rqsort`: three-way quicksort on an explicit stack, with heapsort past a depth limit. */
module Introsort {
  /** The comparison function orders all values, possibly with ties. */
  ghost predicate TotalPreorder<T(!new)>(cmp: (T, T) -> int) {
    && (forall x, y :: cmp(x, y) < 0 <==> cmp(y, x) > 0)
    && (forall x, y, z :: cmp(x, y) <= 0 && cmp(y, z) <= 0 ==> cmp(x, z) <= 0)
  }

  lemma Transitive<T(!new)>(cmp: (T, T) -> int, x: T, y: T, z: T)
    requires TotalPreorder(cmp) && cmp(x, y) <= 0 && cmp(y, z) <= 0
    ensures cmp(x, z) <= 0
  {
  }

  lemma Flip<T(!new)>(cmp: (T, T) -> int, x: T, y: T)
    requires TotalPreorder(cmp)
    ensures (cmp(x, y) < 0 <==> cmp(y, x) > 0) && (cmp(x, y) > 0 <==> cmp(y, x) < 0) && (cmp(x, y) == 0 <==> cmp(y, x) == 0)
  {
  }

  predicate SortedIn<T>(cmp: (T, T) -> int, s: seq<T>, lo: nat, hi: nat)
    requires hi <= |s|
  {
    forall i, j | lo <= i < j < hi :: cmp(s[i], s[j]) <= 0
  }

  // ----- permutations -----

  /** t is s with the elements lo .. hi - 1 in another order. */
  ghost predicate Rearranged<T>(s: seq<T>, t: seq<T>, lo: nat, hi: nat) {
    && |s| == |t| && lo <= hi <= |s|
    && s[..lo] == t[..lo] && s[hi..] == t[hi..]
    && multiset(s) == multiset(t)
  }

  lemma Unmoved<T>(s: seq<T>, lo: nat, hi: nat)
    requires lo <= hi <= |s|
    ensures Rearranged(s, s, lo, hi)
  {
  }

  lemma Onward<T>(s: seq<T>, t: seq<T>, u: seq<T>, lo: nat, hi: nat)
    requires Rearranged(s, t, lo, hi) && Rearranged(t, u, lo, hi)
    ensures Rearranged(s, u, lo, hi)
  {
  }

  lemma Outward<T>(s: seq<T>, t: seq<T>, lo: nat, hi: nat, lo': nat, hi': nat)
    requires Rearranged(s, t, lo, hi) && lo' <= lo && hi <= hi' <= |s|
    ensures Rearranged(s, t, lo', hi')
  {
    assert s[..lo'] == s[..lo][..lo'] == t[..lo'];
    assert s[hi'..] == s[hi..][hi' - hi..] == t[hi'..];
  }

  lemma OutsideSame<T>(s: seq<T>, t: seq<T>, lo: nat, hi: nat, i: nat)
    requires Rearranged(s, t, lo, hi) && i < |s| && (i < lo || hi <= i)
    ensures s[i] == t[i]
  {
    if i < lo {
      assert s[..lo][i] == t[..lo][i];
    } else {
      assert s[hi..][i - hi] == t[hi..][i - hi];
    }
  }

  lemma SameElements<T>(s: seq<T>, t: seq<T>, lo: nat, hi: nat)
    requires Rearranged(s, t, lo, hi)
    ensures multiset(s[lo..hi]) == multiset(t[lo..hi])
  {
    assert s == s[..lo] + s[lo..hi] + s[hi..];
    assert t == t[..lo] + t[lo..hi] + t[hi..];
    calc {
      multiset(s[lo..hi]);
      multiset(s) - multiset(s[..lo]) - multiset(s[hi..]);
      multiset(t) - multiset(t[..lo]) - multiset(t[hi..]);
      multiset(t[lo..hi]);
    }
  }

  /** Where an element of the part came from. */
  lemma CameFrom<T>(s: seq<T>, t: seq<T>, lo: nat, hi: nat, i: nat) returns (j: nat)
    requires Rearranged(s, t, lo, hi) && lo <= i < hi
    ensures lo <= j < hi && s[j] == t[i]
  {
    SameElements(s, t, lo, hi);
    assert t[lo..hi][i - lo] in multiset(t[lo..hi]);
    assert t[i] in s[lo..hi];
    var k :| 0 <= k < hi - lo && s[lo..hi][k] == t[i];
    j := lo + k;
  }

  function Exchange<T>(s: seq<T>, i: nat, j: nat): (t: seq<T>)
    requires i < |s| && j < |s|
    ensures |t| == |s|
  {
    s[i := s[j]][j := s[i]]
  }

  method Swap<T>(a: array<T>, i: nat, j: nat, ghost lo: nat, ghost hi: nat)
    requires lo <= i < hi && lo <= j < hi && hi <= a.Length
    modifies a
    ensures a[..] == Exchange(old(a[..]), i, j) && Rearranged(old(a[..]), a[..], lo, hi)
  {
    a[i], a[j] := a[j], a[i];
    Swapped(old(a[..]), i, j, lo, hi);
    assert a[..] == Exchange(old(a[..]), i, j);
  }

  lemma ExchangeElse<T>(s: seq<T>, i: nat, j: nat, k: nat)
    requires i < |s| && j < |s| && k < |s| && k != i && k != j
    ensures Exchange(s, i, j)[k] == s[k]
  {
  }

  lemma Swapped<T>(s: seq<T>, i: nat, j: nat, lo: nat, hi: nat)
    requires lo <= i < hi && lo <= j < hi && hi <= |s|
    ensures Rearranged(s, Exchange(s, i, j), lo, hi)
  {
  }

  // ----- insertion sort -----

  /** The last loop of `rqsort`. */
  method InsertionSort<T(!new)>(a: array<T>, lo: nat, hi: nat, cmp: (T, T) -> int)
    requires TotalPreorder(cmp) && lo <= hi <= a.Length
    modifies a
    ensures Rearranged(old(a[..]), a[..], lo, hi) && SortedIn(cmp, a[..], lo, hi)
  {
    hide TotalPreorder, Rearranged;
    Unmoved(a[..], lo, hi);
    if lo == hi {
      return;
    }
    var i := lo + 1;
    while i < hi
      invariant lo < i <= hi && Rearranged(old(a[..]), a[..], lo, hi) && SortedIn(cmp, a[..], lo, i)
    {
      ghost var s := a[..];
      Insert(a, lo, i, cmp);
      Outward(s, a[..], lo, i + 1, lo, hi);
      Onward(old(a[..]), s, a[..], lo, hi);
      i := i + 1;
    }
  }

  method Insert<T(!new)>(a: array<T>, lo: nat, i: nat, cmp: (T, T) -> int)
    requires TotalPreorder(cmp) && lo <= i < a.Length && SortedIn(cmp, a[..], lo, i)
    modifies a
    ensures Rearranged(old(a[..]), a[..], lo, i + 1) && SortedIn(cmp, a[..], lo, i + 1)
  {
    hide TotalPreorder, Rearranged, SortedIn, SortedExcept, Exchange;
    Unmoved(a[..], lo, i + 1);
    StartInsert(cmp, a[..], lo, i);
    var j := i;
    while j > lo && cmp(a[j - 1], a[j]) > 0
      invariant lo <= j <= i && Rearranged(old(a[..]), a[..], lo, i + 1)
      invariant SortedExcept(cmp, a[..], lo, i + 1, j)
    {
      ghost var s := a[..];
      Swap(a, j, j - 1, lo, i + 1);
      Onward(old(a[..]), s, a[..], lo, i + 1);
      SinkOne(cmp, s, lo, i + 1, j);
      j := j - 1;
    }
    Settled(cmp, a[..], lo, i + 1, j);
  }

  lemma StartInsert<T(!new)>(cmp: (T, T) -> int, s: seq<T>, lo: nat, i: nat)
    requires i < |s| && SortedIn(cmp, s, lo, i)
    ensures SortedExcept(cmp, s, lo, i + 1, i)
  {
  }

  /** Sorted, but the element at `j` may be less than those before it. */
  predicate SortedExcept<T>(cmp: (T, T) -> int, s: seq<T>, lo: nat, hi: nat, j: nat)
    requires hi <= |s|
  {
    forall x, y | lo <= x < y < hi && y != j :: cmp(s[x], s[y]) <= 0
  }

  lemma SinkOne<T(!new)>(cmp: (T, T) -> int, s: seq<T>, lo: nat, hi: nat, j: nat)
    requires TotalPreorder(cmp) && hi <= |s| && lo < j < hi && SortedExcept(cmp, s, lo, hi, j) && cmp(s[j - 1], s[j]) > 0
    ensures SortedExcept(cmp, Exchange(s, j, j - 1), lo, hi, j - 1)
  {
    var t := Exchange(s, j, j - 1);
    Flip(cmp, s[j - 1], s[j]);
    forall x, y | lo <= x < y < hi && y != j - 1 ensures cmp(t[x], t[y]) <= 0 {
    }
  }

  lemma Settled<T(!new)>(cmp: (T, T) -> int, s: seq<T>, lo: nat, hi: nat, j: nat)
    requires TotalPreorder(cmp) && hi <= |s| && lo <= j < hi && SortedExcept(cmp, s, lo, hi, j)
    requires j == lo || cmp(s[j - 1], s[j]) <= 0
    ensures SortedIn(cmp, s, lo, hi)
  {
    forall x, y | lo <= x < y < hi ensures cmp(s[x], s[y]) <= 0 {
      if y == j && x < j - 1 {
        Transitive(cmp, s[x], s[j - 1], s[j]);
      }
    }
  }

  // ----- heapsort -----

  predicate IsChild(p: int, c: int) {
    c == 2 * p + 1 || c == 2 * p + 2
  }

  /** Among the first n elements from `lo` on, no parent from i on, other than r, is less than a
      child; and no ancestor from i on is less than the children of r. */
  ghost predicate HeapExcept<T>(cmp: (T, T) -> int, s: seq<T>, lo: nat, n: nat, i: nat, r: int)
    requires lo + n <= |s|
  {
    && (forall p, c | i <= p < n && IsChild(p, c) && c < n && p != r :: cmp(s[lo + c], s[lo + p]) <= 0)
    && (forall q, c | i <= q < n && IsChild(q, r) && IsChild(r, c) && c < n :: cmp(s[lo + c], s[lo + q]) <= 0)
  }

  ghost predicate Heap<T>(cmp: (T, T) -> int, s: seq<T>, lo: nat, n: nat, i: nat)
    requires lo + n <= |s|
  {
    forall p, c | i <= p < n && IsChild(p, c) && c < n :: cmp(s[lo + c], s[lo + p]) <= 0
  }

  /** The inner loops of `heapsortx`. */
  method SiftDown<T(!new)>(a: array<T>, lo: nat, n: nat, i: nat, cmp: (T, T) -> int)
    requires TotalPreorder(cmp) && lo + n <= a.Length && i < n && Heap(cmp, a[..], lo, n, i + 1)
    modifies a
    ensures Rearranged(old(a[..]), a[..], lo, lo + n) && Heap(cmp, a[..], lo, n, i)
  {
    hide TotalPreorder, Rearranged, Heap, HeapExcept, Largest, Exchange;
    Unmoved(a[..], lo, lo + n);
    StartSift(cmp, a[..], lo, n, i);
    var r := i;
    while 2 * r + 1 < n
      invariant i <= r < n && Rearranged(old(a[..]), a[..], lo, lo + n) && HeapExcept(cmp, a[..], lo, n, i, r)
      decreases n - r
    {
      var c := 2 * r + 1;
      if c < n - 1 && cmp(a[lo + c], a[lo + c + 1]) <= 0 {
        c := c + 1;
      }
      LargerChild(cmp, a[..], lo, n, r, c);
      if cmp(a[lo + r], a[lo + c]) > 0 {
        Flip(cmp, a[lo + r], a[lo + c]);
        HeapSettled(cmp, a[..], lo, n, i, r, c);
        return;
      }
      ghost var s := a[..];
      Swap(a, lo + r, lo + c, lo, lo + n);
      Onward(old(a[..]), s, a[..], lo, lo + n);
      HeapStep(cmp, s, lo, n, i, r, c);
      r := c;
    }
    HeapLeaf(cmp, a[..], lo, n, i, r);
  }

  lemma StartSift<T(!new)>(cmp: (T, T) -> int, s: seq<T>, lo: nat, n: nat, i: nat)
    requires lo + n <= |s| && Heap(cmp, s, lo, n, i + 1)
    ensures HeapExcept(cmp, s, lo, n, i, i)
  {
  }

  lemma HeapLeaf<T(!new)>(cmp: (T, T) -> int, s: seq<T>, lo: nat, n: nat, i: nat, r: nat)
    requires lo + n <= |s| && HeapExcept(cmp, s, lo, n, i, r) && 2 * r + 1 >= n
    ensures Heap(cmp, s, lo, n, i)
  {
  }

  /** c is a child of r that is not less than its sibling. */
  ghost predicate Largest<T>(cmp: (T, T) -> int, s: seq<T>, lo: nat, n: nat, r: int, c: int)
    requires lo + n <= |s|
  {
    IsChild(r, c) && 0 <= c < n && forall d | IsChild(r, d) && 0 <= d < n :: cmp(s[lo + d], s[lo + c]) <= 0
  }

  lemma Reflexive<T(!new)>(cmp: (T, T) -> int, x: T)
    requires TotalPreorder(cmp)
    ensures cmp(x, x) == 0
  {
    Flip(cmp, x, x);
  }

  lemma LargerChild<T(!new)>(cmp: (T, T) -> int, s: seq<T>, lo: nat, n: nat, r: nat, c: int)
    requires TotalPreorder(cmp) && lo + n <= |s| && 2 * r + 1 < n
    requires if 2 * r + 2 < n && cmp(s[lo + 2 * r + 1], s[lo + 2 * r + 2]) <= 0 then c == 2 * r + 2 else c == 2 * r + 1
    ensures Largest(cmp, s, lo, n, r, c) && r < c < n
  {
    Reflexive(cmp, s[lo + c]);
    if 2 * r + 2 < n {
      Flip(cmp, s[lo + 2 * r + 1], s[lo + 2 * r + 2]);
      assert lo + 2 * r + 1 == lo + (2 * r + 1) && lo + 2 * r + 2 == lo + (2 * r + 2);
    }
  }

  lemma HeapSettled<T(!new)>(cmp: (T, T) -> int, s: seq<T>, lo: nat, n: nat, i: nat, r: nat, c: int)
    requires TotalPreorder(cmp) && lo + n <= |s| && i <= r < n && HeapExcept(cmp, s, lo, n, i, r)
    requires Largest(cmp, s, lo, n, r, c) && cmp(s[lo + c], s[lo + r]) <= 0
    ensures Heap(cmp, s, lo, n, i)
  {
    forall p, d | i <= p < n && IsChild(p, d) && d < n ensures cmp(s[lo + d], s[lo + p]) <= 0 {
      if p == r {
        Transitive(cmp, s[lo + d], s[lo + c], s[lo + r]);
      }
    }
  }

  lemma HeapStep<T(!new)>(cmp: (T, T) -> int, s: seq<T>, lo: nat, n: nat, i: nat, r: nat, c: int)
    requires TotalPreorder(cmp) && lo + n <= |s| && i <= r < n && HeapExcept(cmp, s, lo, n, i, r)
    requires Largest(cmp, s, lo, n, r, c) && cmp(s[lo + r], s[lo + c]) <= 0
    ensures HeapExcept(cmp, Exchange(s, lo + r, lo + c), lo, n, i, c)
  {
    var t := Exchange(s, lo + r, lo + c);
    forall p, d | i <= p < n && IsChild(p, d) && d < n && p != c ensures cmp(t[lo + d], t[lo + p]) <= 0 {
      if p == r {
        if d != c {
          assert IsChild(r, d);
        }
      } else if d == r {
        assert IsChild(p, r) && IsChild(r, c);
      }
    }
    forall q, d | i <= q < n && IsChild(q, c) && IsChild(c, d) && d < n ensures cmp(t[lo + d], t[lo + q]) <= 0 {
      assert q == r;
    }
  }

  /** The root of a heap is not less than any element. */
  lemma {:induction false} HeapTop<T(!new)>(cmp: (T, T) -> int, s: seq<T>, lo: nat, n: nat, k: nat)
    requires TotalPreorder(cmp) && lo + n <= |s| && k < n && Heap(cmp, s, lo, n, 0)
    ensures cmp(s[lo + k], s[lo]) <= 0
  {
    if k == 0 {
      Reflexive(cmp, s[lo]);
    } else {
      var p := (k - 1) / 2;
      assert IsChild(p, k);
      HeapTop(cmp, s, lo, n, p);
      Transitive(cmp, s[lo + k], s[lo + p], s[lo]);
    }
  }

  /** Everything in lo .. mid - 1 comes before everything in mid .. hi - 1. */
  predicate Below<T>(cmp: (T, T) -> int, s: seq<T>, lo: nat, mid: nat, hi: nat)
    requires hi <= |s|
  {
    forall i, j | lo <= i < mid <= j < hi :: cmp(s[i], s[j]) <= 0
  }

  /** `heapsortx` */
  method HeapSort<T(!new)>(a: array<T>, lo: nat, n: nat, cmp: (T, T) -> int)
    requires TotalPreorder(cmp) && lo + n <= a.Length
    modifies a
    ensures Rearranged(old(a[..]), a[..], lo, lo + n) && SortedIn(cmp, a[..], lo, lo + n)
  {
    hide TotalPreorder, Rearranged, Heap, SortedIn, Below;
    Unmoved(a[..], lo, lo + n);
    HeapEnds(cmp, a[..], lo, n);
    if n <= 1 {
      return;
    }
    var i := n / 2;
    while i > 0
      invariant 0 <= i <= n / 2 && Rearranged(old(a[..]), a[..], lo, lo + n) && Heap(cmp, a[..], lo, n, i)
    {
      i := i - 1;
      ghost var s := a[..];
      SiftDown(a, lo, n, i, cmp);
      Onward(old(a[..]), s, a[..], lo, lo + n);
    }
    i := n - 1;
    HeapEnds(cmp, a[..], lo, n);
    while i > 0
      invariant 0 <= i < n && Rearranged(old(a[..]), a[..], lo, lo + n) && HeapAndTail(cmp, a[..], lo, n, i)
    {
      ghost var s := a[..];
      TakeRoot(a, lo, n, i, cmp);
      Onward(old(a[..]), s, a[..], lo, lo + n);
      i := i - 1;
    }
    TailSorted(cmp, a[..], lo, n);
  }

  /** A heap of i + 1 elements, then a sorted tail that is not less. */
  ghost predicate HeapAndTail<T>(cmp: (T, T) -> int, s: seq<T>, lo: nat, n: nat, i: nat)
    requires lo + n <= |s|
  {
    && i < n && Heap(cmp, s, lo, i + 1, 0)
    && SortedIn(cmp, s, lo + i + 1, lo + n) && Below(cmp, s, lo, lo + i + 1, lo + n)
  }

  lemma HeapEnds<T(!new)>(cmp: (T, T) -> int, s: seq<T>, lo: nat, n: nat)
    requires lo + n <= |s|
    ensures Heap(cmp, s, lo, n, n / 2) && (n <= 1 ==> SortedIn(cmp, s, lo, lo + n))
    ensures SortedIn(cmp, s, lo + n, lo + n) && Below(cmp, s, lo, lo + n, lo + n)
  {
  }

  lemma TailSorted<T(!new)>(cmp: (T, T) -> int, s: seq<T>, lo: nat, n: nat)
    requires lo + n <= |s| && HeapAndTail(cmp, s, lo, n, 0)
    ensures SortedIn(cmp, s, lo, lo + n)
  {
  }

  /** One turn of the second loop. */
  method TakeRoot<T(!new)>(a: array<T>, lo: nat, n: nat, i: nat, cmp: (T, T) -> int)
    requires TotalPreorder(cmp) && lo + n <= a.Length && 0 < i < n && HeapAndTail(cmp, a[..], lo, n, i)
    modifies a
    ensures Rearranged(old(a[..]), a[..], lo, lo + n) && HeapAndTail(cmp, a[..], lo, n, i - 1)
  {
    hide TotalPreorder, Rearranged, Heap, SortedIn, Below, Exchange;
    ghost var s := a[..];
    Swap(a, lo, lo + i, lo, lo + n);
    ghost var t := a[..];
    RootOut(cmp, s, lo, n, i);
    SiftDown(a, lo, i, 0, cmp);
    StillBelow(cmp, t, a[..], lo, lo + i, lo + n);
    Outward(t, a[..], lo, lo + i, lo, lo + n);
    Onward(s, t, a[..], lo, lo + n);
  }

  /** The root of the heap joins the sorted end. */
  lemma RootOut<T(!new)>(cmp: (T, T) -> int, s: seq<T>, lo: nat, n: nat, i: nat)
    requires TotalPreorder(cmp) && lo + n <= |s| && 0 < i < n && Heap(cmp, s, lo, i + 1, 0)
    requires SortedIn(cmp, s, lo + i + 1, lo + n) && Below(cmp, s, lo, lo + i + 1, lo + n)
    ensures var t := Exchange(s, lo, lo + i);
            Heap(cmp, t, lo, i, 1) && SortedIn(cmp, t, lo + i, lo + n) && Below(cmp, t, lo, lo + i, lo + n)
  {
    hide TotalPreorder, Heap;
    var t := Exchange(s, lo, lo + i);
    RootMoved(cmp, s, lo, i);
    forall x, y | lo <= x < lo + i <= y < lo + n ensures cmp(t[x], t[y]) <= 0 {
      if y == lo + i {
        HeapTop(cmp, s, lo, i + 1, if x == lo then i else x - lo);
      }
    }
  }

  lemma RootMoved<T(!new)>(cmp: (T, T) -> int, s: seq<T>, lo: nat, i: nat)
    requires lo + i < |s| && 0 < i && Heap(cmp, s, lo, i + 1, 0)
    ensures Heap(cmp, Exchange(s, lo, lo + i), lo, i, 1)
  {
  }

  lemma StillBelow<T(!new)>(cmp: (T, T) -> int, s: seq<T>, t: seq<T>, lo: nat, mid: nat, hi: nat)
    requires Rearranged(s, t, lo, mid) && mid <= hi <= |s| && Below(cmp, s, lo, mid, hi) && SortedIn(cmp, s, mid, hi)
    ensures Below(cmp, t, lo, mid, hi) && SortedIn(cmp, t, mid, hi)
  {
    hide Rearranged;
    SameLength(s, t, lo, mid);
    forall x, y | lo <= x < mid <= y < hi ensures cmp(t[x], t[y]) <= 0 {
      var z := CameFrom(s, t, lo, mid, x);
      OutsideSame(s, t, lo, mid, y);
    }
    forall x, y | mid <= x < y < hi ensures cmp(t[x], t[y]) <= 0 {
      OutsideSame(s, t, lo, mid, x);
      OutsideSame(s, t, lo, mid, y);
    }
  }

  lemma SameLength<T>(s: seq<T>, t: seq<T>, lo: nat, hi: nat)
    requires Rearranged(s, t, lo, hi)
    ensures |s| == |t| && lo <= hi <= |s|
  {
  }

  // ----- partition -----

  /** The elements x .. y - 1 compare with the pivot as `sign` says. */
  predicate Side<T>(cmp: (T, T) -> int, p: T, s: seq<T>, x: int, y: int, sign: int)
    requires 0 <= x <= y <= |s|
  {
    forall k | x <= k < y ::
      (sign < 0 ==> cmp(p, s[k]) > 0) && (sign == 0 ==> cmp(p, s[k]) == 0) && (sign > 0 ==> cmp(p, s[k]) < 0)
  }

  /** Equal, less, not looked at, greater, equal. */
  ghost predicate Parts<T>(cmp: (T, T) -> int, p: T, s: seq<T>, lo: int, plt: int, pi: int, pj: int, pgt: int, hi: int) {
    && 0 <= lo < plt <= pi <= pj <= pgt <= hi <= |s| && s[lo] == p
    && Side(cmp, p, s, lo, plt, 0) && Side(cmp, p, s, plt, pi, -1) && Side(cmp, p, s, pj, pgt, 1) && Side(cmp, p, s, pgt, hi, 0)
  }

  lemma TakeLow<T>(cmp: (T, T) -> int, p: T, s: seq<T>, lo: int, plt: int, pi: int, pj: int, pgt: int, hi: int)
    requires Parts(cmp, p, s, lo, plt, pi, pj, pgt, hi) && pi < pj && cmp(p, s[pi]) >= 0
    ensures cmp(p, s[pi]) > 0 ==> Parts(cmp, p, s, lo, plt, pi + 1, pj, pgt, hi)
    ensures cmp(p, s[pi]) == 0 ==> Parts(cmp, p, Exchange(s, plt, pi), lo, plt + 1, pi + 1, pj, pgt, hi)
  {
  }

  lemma TakeHigh<T>(cmp: (T, T) -> int, p: T, s: seq<T>, lo: int, plt: int, pi: int, pj: int, pgt: int, hi: int)
    requires Parts(cmp, p, s, lo, plt, pi, pj, pgt, hi) && pi < pj && cmp(p, s[pj - 1]) <= 0
    ensures cmp(p, s[pj - 1]) < 0 ==> Parts(cmp, p, s, lo, plt, pi, pj - 1, pgt, hi)
    ensures cmp(p, s[pj - 1]) == 0 ==> Parts(cmp, p, Exchange(s, pgt - 1, pj - 1), lo, plt, pi, pj - 1, pgt - 1, hi)
  {
  }

  lemma TakeBoth<T>(cmp: (T, T) -> int, p: T, s: seq<T>, lo: int, plt: int, pi: int, pj: int, pgt: int, hi: int)
    requires Parts(cmp, p, s, lo, plt, pi, pj, pgt, hi) && pi < pj - 1 && cmp(p, s[pi]) < 0 && cmp(p, s[pj - 1]) > 0
    ensures Parts(cmp, p, Exchange(s, pi, pj - 1), lo, plt, pi + 1, pj - 1, pgt, hi)
  {
  }

  /** The loop that leaves four parts. */
  method Divide<T(!new)>(a: array<T>, lo: nat, hi: nat, cmp: (T, T) -> int, ghost p: T) returns (plt: nat, pi: nat, pgt: nat)
    requires TotalPreorder(cmp) && lo < hi <= a.Length && a[lo] == p
    modifies a
    ensures Rearranged(old(a[..]), a[..], lo, hi) && Parts(cmp, p, a[..], lo, plt, pi, pi, pgt, hi)
  {
    hide TotalPreorder, Rearranged, Parts, Exchange;
    Unmoved(a[..], lo, hi);
    plt, pi, pgt := lo + 1, lo + 1, hi;
    var pj: nat := hi;
    OnlyPivot(cmp, p, a[..], lo, hi);
    while true
      invariant Rearranged(old(a[..]), a[..], lo, hi) && Parts(cmp, p, a[..], lo, plt, pi, pj, pgt, hi)
      decreases pj - pi
    {
      plt, pi := ScanUp(a, lo, plt, pi, pj, pgt, hi, cmp, p, old(a[..]));
      PartBounds(cmp, p, a[..], lo, plt, pi, pj, pgt, hi);
      pj, pgt := ScanDown(a, lo, plt, pi, pj, pgt, hi, cmp, p, old(a[..]));
      if pi >= pj {
        break;
      }
      PartBounds(cmp, p, a[..], lo, plt, pi, pj + 1, pgt, hi);
      ghost var s := a[..];
      TakeBoth(cmp, p, s, lo, plt, pi, pj + 1, pgt, hi);
      Swap(a, pi, pj, lo, hi);
      Onward(old(a[..]), s, a[..], lo, hi);
      pi := pi + 1;
    }
  }

  lemma OnlyPivot<T(!new)>(cmp: (T, T) -> int, p: T, s: seq<T>, lo: nat, hi: nat)
    requires TotalPreorder(cmp) && lo < hi <= |s| && s[lo] == p
    ensures Parts(cmp, p, s, lo, lo + 1, lo + 1, hi, hi, hi)
  {
    Reflexive(cmp, p);
  }

  lemma PartBounds<T>(cmp: (T, T) -> int, p: T, s: seq<T>, lo: int, plt: int, pi: int, pj: int, pgt: int, hi: int)
    requires Parts(cmp, p, s, lo, plt, pi, pj, pgt, hi)
    ensures 0 <= lo < plt <= pi <= pj <= pgt <= hi <= |s| && s[lo] == p
  {
  }

  method ScanUp<T(!new)>(a: array<T>, lo: nat, plt0: nat, pi0: nat, pj: nat, pgt: nat, hi: nat, cmp: (T, T) -> int,
                         ghost p: T, ghost was: seq<T>) returns (plt: nat, pi: nat)
    requires Rearranged(was, a[..], lo, hi) && Parts(cmp, p, a[..], lo, plt0, pi0, pj, pgt, hi)
    modifies a
    ensures Rearranged(was, a[..], lo, hi) && Parts(cmp, p, a[..], lo, plt, pi, pj, pgt, hi)
    ensures pi0 <= pi <= pj <= a.Length && (pi == pj || cmp(p, a[pi]) < 0)
  {
    hide Rearranged, Parts, Exchange;
    plt, pi := plt0, pi0;
    PartBounds(cmp, p, a[..], lo, plt, pi, pj, pgt, hi);
    while pi < pj && cmp(a[lo], a[pi]) >= 0
      invariant pi0 <= pi <= pj && plt <= pi && lo < plt && pj <= hi <= a.Length && a[lo] == p
      invariant Rearranged(was, a[..], lo, hi) && Parts(cmp, p, a[..], lo, plt, pi, pj, pgt, hi)
      decreases pj - pi
    {
      ghost var s := a[..];
      TakeLow(cmp, p, s, lo, plt, pi, pj, pgt, hi);
      if cmp(a[lo], a[pi]) == 0 {
        Swap(a, plt, pi, lo, hi);
        Onward(was, s, a[..], lo, hi);
        plt := plt + 1;
      }
      pi := pi + 1;
      PartBounds(cmp, p, a[..], lo, plt, pi, pj, pgt, hi);
    }
  }

  method ScanDown<T(!new)>(a: array<T>, lo: nat, plt: nat, pi: nat, pj0: nat, pgt0: nat, hi: nat, cmp: (T, T) -> int,
                           ghost p: T, ghost was: seq<T>) returns (pj: nat, pgt: nat)
    requires Rearranged(was, a[..], lo, hi) && Parts(cmp, p, a[..], lo, plt, pi, pj0, pgt0, hi)
    requires pi <= pj0 <= a.Length && (pi == pj0 || cmp(p, a[pi]) < 0)
    modifies a
    ensures Rearranged(was, a[..], lo, hi) && pj < pj0 <= a.Length
    ensures pi >= pj ==> Parts(cmp, p, a[..], lo, plt, pi, pi, pgt, hi)
    ensures pi < pj ==> Parts(cmp, p, a[..], lo, plt, pi, pj + 1, pgt, hi) && cmp(p, a[pj]) > 0 && cmp(p, a[pi]) < 0
  {
    hide Rearranged, Parts, Exchange;
    pj, pgt := pj0, pgt0;
    PartBounds(cmp, p, a[..], lo, plt, pi, pj, pgt, hi);
    while true
      invariant pi <= pj <= pj0 && pj <= pgt <= hi <= a.Length && 1 <= pi && lo < pi && a[lo] == p
      invariant pi == pj || cmp(p, a[pi]) < 0
      invariant Rearranged(was, a[..], lo, hi) && Parts(cmp, p, a[..], lo, plt, pi, pj, pgt, hi)
      decreases pj
    {
      if pi < pj && cmp(a[lo], a[pj - 1]) <= 0 {
        TakeHigh(cmp, p, a[..], lo, plt, pi, pj, pgt, hi);
      }
      pj := pj - 1;
      if !(pi < pj) {
        break;
      }
      var c := cmp(a[lo], a[pj]);
      if c > 0 {
        break;
      }
      if c == 0 {
        ghost var s := a[..];
        pgt := pgt - 1;
        Swap(a, pgt, pj, lo, hi);
        ExchangeElse(s, pgt, pj, pi);
        ExchangeElse(s, pgt, pj, lo);
        Onward(was, s, a[..], lo, hi);
      }
      PartBounds(cmp, p, a[..], lo, plt, pi, pj, pgt, hi);
    }
  }

  /** `swap_block`: exchanges n elements at x with n elements at y */
  method SwapBlock<T>(a: array<T>, x: nat, y: nat, n: nat, ghost lo: nat, ghost hi: nat)
    requires lo <= x && x + n <= y && y + n <= hi <= a.Length
    modifies a
    ensures Rearranged(old(a[..]), a[..], lo, hi) && BlocksSwapped(old(a[..]), a[..], x, y, n)
  {
    hide Rearranged, BlocksSwapped, Exchange;
    Unmoved(a[..], lo, hi);
    ghost var was := a[..];
    NoneSwapped(was, x, y);
    for i := 0 to n
      invariant Rearranged(was, a[..], lo, hi) && BlocksSwapped(was, a[..], x, y, i)
    {
      ghost var s := a[..];
      Swap(a, x + i, y + i, lo, hi);
      Onward(was, s, a[..], lo, hi);
      OneSwapped(was, s, a[..], x, y, i, n);
    }
  }

  /** Where the element at k comes from when n elements at x and at y are exchanged. */
  function Source(x: nat, y: nat, n: nat, k: nat): int {
    if x <= k < x + n then y + (k - x) else if y <= k < y + n then x + (k - y) else k
  }

  ghost predicate BlocksSwapped<T>(s: seq<T>, t: seq<T>, x: nat, y: nat, n: nat) {
    && |s| == |t| && x + n <= |s| && y + n <= |s|
    && forall k | 0 <= k < |t| :: t[k] == s[Source(x, y, n, k)]
  }

  lemma NoneSwapped<T>(s: seq<T>, x: nat, y: nat)
    requires x <= y <= |s|
    ensures BlocksSwapped(s, s, x, y, 0)
  {
  }

  lemma OneSwapped<T>(was: seq<T>, s: seq<T>, t: seq<T>, x: nat, y: nat, i: nat, n: nat)
    requires BlocksSwapped(was, s, x, y, i) && i < n && x + n <= y && y + n <= |was| && t == Exchange(s, x + i, y + i)
    ensures BlocksSwapped(was, t, x, y, i + 1)
  {
    assert s[x + i] == was[x + i] && s[y + i] == was[y + i];
  }

  function Least(x: nat, y: nat): nat {
    if x > y then y else x
  }

  /** From four parts to three. */
  method Gather<T(!new)>(a: array<T>, lo: nat, plt: nat, pi: nat, pgt: nat, hi: nat, ghost cmp: (T, T) -> int, ghost p: T)
    returns (lt: nat, gt: nat)
    requires hi <= a.Length && Parts(cmp, p, a[..], lo, plt, pi, pi, pgt, hi)
    modifies a
    ensures Rearranged(old(a[..]), a[..], lo, hi) && lo <= lt < gt <= hi && Three(cmp, p, a[..], lo, lt, gt, hi)
  {
    hide Rearranged, Parts, BlocksSwapped, Three;
    ghost var s := a[..];
    PartBounds(cmp, p, s, lo, plt, pi, pi, pgt, hi);
    var span := Least(plt - lo, pi - plt);
    SwapBlock(a, lo, pi - span, span, lo, hi);
    ghost var t := a[..];
    lt := lo + (pi - plt);
    span := Least(hi - pgt, pgt - pi);
    SwapBlock(a, pi, hi - span, span, lo, hi);
    gt := hi - (pgt - pi);
    Onward(s, t, a[..], lo, hi);
    ThreeParts(cmp, p, s, t, a[..], lo, plt, pi, pgt, hi, lt, gt);
  }

  /** Less than the pivot, equal to it, greater. */
  ghost predicate Three<T>(cmp: (T, T) -> int, p: T, s: seq<T>, lo: int, lt: int, gt: int, hi: int) {
    && 0 <= lo <= lt <= gt <= hi <= |s|
    && Side(cmp, p, s, lo, lt, -1) && Side(cmp, p, s, lt, gt, 0) && Side(cmp, p, s, gt, hi, 1)
  }

  lemma ThreeParts<T>(cmp: (T, T) -> int, p: T, s: seq<T>, t: seq<T>, u: seq<T>, lo: nat, plt: nat, pi: nat, pgt: nat, hi: nat,
                      lt: nat, gt: nat)
    requires Parts(cmp, p, s, lo, plt, pi, pi, pgt, hi) && lt == lo + (pi - plt) && gt == hi - (pgt - pi)
    requires |s| == |t| == |u|
    requires var n := Least(plt - lo, pi - plt); BlocksSwapped(s, t, lo, pi - n, n)
    requires var n := Least(hi - pgt, pgt - pi); BlocksSwapped(t, u, pi, hi - n, n)
    ensures Three(cmp, p, u, lo, lt, gt, hi)
  {
    hide BlocksSwapped, Side;
    SidesSwapped(cmp, p, s, t, lo, plt, pi, -1, 0);
    SidesKept(cmp, p, s, t, lo, pi, Least(plt - lo, pi - plt), pi, pgt, 1);
    SidesKept(cmp, p, s, t, lo, pi, Least(plt - lo, pi - plt), pgt, hi, 0);
    SidesSwapped(cmp, p, t, u, pi, pgt, hi, 0, 1);
    SidesKept(cmp, p, t, u, pi, hi, Least(hi - pgt, pgt - pi), lo, lt, -1);
    SidesKept(cmp, p, t, u, pi, hi, Least(hi - pgt, pgt - pi), lt, pi, 0);
    SidesJoin(cmp, p, u, lt, pi, gt, 0);
  }

  lemma SidesJoin<T>(cmp: (T, T) -> int, p: T, s: seq<T>, x: nat, y: nat, z: nat, sign: int)
    requires x <= y <= z <= |s| && Side(cmp, p, s, x, y, sign) && Side(cmp, p, s, y, z, sign)
    ensures Side(cmp, p, s, x, z, sign)
  {
  }

  /** Two neighbouring parts change places when the smaller is exchanged with the far end of the
      other. */
  lemma SidesSwapped<T>(cmp: (T, T) -> int, p: T, s: seq<T>, t: seq<T>, x: nat, y: nat, z: nat, first: int, second: int)
    requires x <= y <= z <= |s| && Side(cmp, p, s, x, y, second) && Side(cmp, p, s, y, z, first)
    requires var n := Least(y - x, z - y); BlocksSwapped(s, t, x, z - n, n)
    ensures Side(cmp, p, t, x, x + (z - y), first) && Side(cmp, p, t, x + (z - y), z, second)
  {
    var n, mid := Least(y - x, z - y), x + (z - y);
    forall k | x <= k < z ensures exists j | x <= j < z :: t[k] == s[j] && (k < mid <==> j >= y) {
      assert t[k] == s[Source(x, z - n, n, k)];
    }
  }

  lemma SidesKept<T>(cmp: (T, T) -> int, p: T, s: seq<T>, t: seq<T>, x: nat, z: nat, n: nat, i: nat, j: nat, sign: int)
    requires x + n <= z - n && z <= |s| && BlocksSwapped(s, t, x, z - n, n) && i <= j <= |s| && (j <= x || z <= i)
    requires Side(cmp, p, s, i, j, sign)
    ensures Side(cmp, p, t, i, j, sign)
  {
  }

  /** `med3` */
  function Median<T>(a: T, b: T, c: T, cmp: (T, T) -> int, i: nat, j: nat, k: nat): (m: nat)
    ensures m == i || m == j || m == k
  {
    if cmp(a, b) < 0 then if cmp(b, c) < 0 then j else if cmp(a, c) < 0 then k else i
    else if cmp(b, c) > 0 then j else if cmp(a, c) < 0 then i else k
  }

  /** One round of quicksort. */
  method Partition<T(!new)>(a: array<T>, lo: nat, n: nat, cmp: (T, T) -> int) returns (lt: nat, gt: nat, ghost p: T)
    requires TotalPreorder(cmp) && lo + n <= a.Length && n > 6
    modifies a
    ensures Rearranged(old(a[..]), a[..], lo, lo + n) && lo <= lt < gt <= lo + n && Three(cmp, p, a[..], lo, lt, gt, lo + n)
  {
    hide TotalPreorder, Rearranged, Parts, Three, Exchange;
    var m4 := n / 4;
    var m := Median(a[lo + m4], a[lo + 2 * m4], a[lo + 3 * m4], cmp, lo + m4, lo + 2 * m4, lo + 3 * m4);
    ghost var s := a[..];
    Swap(a, lo, m, lo, lo + n);
    ghost var t := a[..];
    p := a[lo];
    var plt, pi, pgt := Divide(a, lo, lo + n, cmp, p);
    ghost var u := a[..];
    lt, gt := Gather(a, lo, plt, pi, pgt, lo + n, cmp, p);
    Onward(s, t, u, lo, lo + n);
    Onward(s, u, a[..], lo, lo + n);
  }

  // ----- the stack -----

  /** A part still to be sorted. */
  datatype Segment = Segment(lo: nat, count: nat, depth: nat) {
    function Hi(): nat { lo + count }
    predicate Holds(i: int, j: int) { lo <= i < Hi() && lo <= j < Hi() }
  }

  predicate Apart(x: Segment, y: Segment) {
    x.Hi() <= y.lo || y.Hi() <= x.lo
  }

  ghost predicate Disjoint(segs: seq<Segment>, n: nat) {
    && (forall k | 0 <= k < |segs| :: segs[k].Hi() <= n)
    && forall k, l | 0 <= k < l < |segs| :: Apart(segs[k], segs[l])
  }

  ghost predicate InSome(segs: seq<Segment>, i: int, j: int) {
    exists k | 0 <= k < |segs| :: segs[k].Holds(i, j)
  }

  /** Any two elements are in order, unless they lie in the same pending segment. */
  ghost predicate Placed<T>(cmp: (T, T) -> int, s: seq<T>, segs: seq<Segment>) {
    Disjoint(segs, |s|) && forall i, j | 0 <= i < j < |s| :: InSome(segs, i, j) || cmp(s[i], s[j]) <= 0
  }

  lemma InSomeOf(segs: seq<Segment>, x: Segment, i: int, j: int)
    ensures InSome(segs + [x], i, j) <==> InSome(segs, i, j) || x.Holds(i, j)
  {
    var all := segs + [x];
    assert all[|segs|] == x;
    if InSome(segs, i, j) {
      var k :| 0 <= k < |segs| && segs[k].Holds(i, j);
      assert all[k] == segs[k];
    }
    if InSome(all, i, j) {
      var k :| 0 <= k < |all| && all[k].Holds(i, j);
      assert k < |segs| ==> segs[k] == all[k];
    }
  }

  /** Two places of which one lies in the last segment and one does not share no segment. */
  lemma NotShared(segs: seq<Segment>, x: Segment, n: nat, i: int, j: int)
    requires Disjoint(segs + [x], n) && i != j && (x.lo <= i < x.Hi()) != (x.lo <= j < x.Hi())
    ensures !InSome(segs + [x], i, j)
  {
    var all := segs + [x];
    assert all[|segs|] == x;
    forall k | 0 <= k < |all| ensures !all[k].Holds(i, j) {
      if k < |segs| {
        assert Apart(all[k], all[|segs|]);
      }
    }
  }

  /** Rearranging a segment keeps everything else in its place. */
  lemma PlacedMoved<T(!new)>(cmp: (T, T) -> int, s: seq<T>, t: seq<T>, segs: seq<Segment>, x: Segment)
    requires Placed(cmp, s, segs + [x]) && Rearranged(s, t, x.lo, x.Hi())
    ensures Placed(cmp, t, segs + [x])
  {
    hide Rearranged, InSome, Disjoint;
    SameLength(s, t, x.lo, x.Hi());
    forall i, j | 0 <= i < j < |t| ensures InSome(segs + [x], i, j) || cmp(t[i], t[j]) <= 0 {
      InSomeOf(segs, x, i, j);
      var inI, inJ := x.lo <= i < x.Hi(), x.lo <= j < x.Hi();
      if !inI {
        OutsideSame(s, t, x.lo, x.Hi(), i);
      }
      if !inJ {
        OutsideSame(s, t, x.lo, x.Hi(), j);
      }
      if inI && !inJ {
        var i' := CameFrom(s, t, x.lo, x.Hi(), i);
        NotShared(segs, x, |s|, i', j);
      } else if !inI && inJ {
        var j' := CameFrom(s, t, x.lo, x.Hi(), j);
        NotShared(segs, x, |s|, i, j');
      }
    }
  }

  /** A sorted segment is no longer pending. */
  lemma PlacedSorted<T(!new)>(cmp: (T, T) -> int, s: seq<T>, segs: seq<Segment>, x: Segment)
    requires Placed(cmp, s, segs + [x]) && x.Hi() <= |s| && SortedIn(cmp, s, x.lo, x.Hi())
    ensures Placed(cmp, s, segs)
  {
    hide InSome;
    DisjointParts(segs, x, |s|);
    forall i, j | 0 <= i < j < |s| ensures InSome(segs, i, j) || cmp(s[i], s[j]) <= 0 {
      InSomeOf(segs, x, i, j);
    }
  }

  lemma DisjointParts(segs: seq<Segment>, x: Segment, n: nat)
    ensures Disjoint(segs + [x], n) <==> Disjoint(segs, n) && x.Hi() <= n && forall k | 0 <= k < |segs| :: Apart(segs[k], x)
  {
    var all := segs + [x];
    assert all[|segs|] == x;
    assert forall k | 0 <= k < |segs| :: all[k] == segs[k];
    if Disjoint(all, n) {
      assert forall k, l | 0 <= k < l < |segs| :: Apart(all[k], all[l]);
      forall k | 0 <= k < |segs| ensures Apart(segs[k], x) {
        assert Apart(all[k], all[|segs|]);
      }
    }
  }

  /** After a partition only the outer parts are pending. */
  lemma PlacedParts<T(!new)>(cmp: (T, T) -> int, s: seq<T>, segs: seq<Segment>, x: Segment, y: Segment, z: Segment, p: T)
    requires TotalPreorder(cmp) && Placed(cmp, s, segs + [x]) && Three(cmp, p, s, x.lo, y.Hi(), z.lo, x.Hi())
    requires y.lo == x.lo && z.Hi() == x.Hi() && y.Hi() <= z.lo
    ensures Placed(cmp, s, segs + [y] + [z]) && Placed(cmp, s, segs + [z] + [y])
  {
    hide TotalPreorder, InSome, Three;
    DisjointParts(segs, x, |s|);
    DisjointParts(segs, y, |s|);
    DisjointParts(segs, z, |s|);
    DisjointParts(segs + [y], z, |s|);
    DisjointParts(segs + [z], y, |s|);
    assert Apart(y, z) && Apart(z, y);
    forall i, j | 0 <= i < j < |s|
      ensures InSome(segs + [y] + [z], i, j) || cmp(s[i], s[j]) <= 0
      ensures InSome(segs + [z] + [y], i, j) || cmp(s[i], s[j]) <= 0
    {
      InSomeOf(segs, x, i, j);
      InSomeOf(segs, y, i, j);
      InSomeOf(segs + [y], z, i, j);
      InSomeOf(segs, z, i, j);
      InSomeOf(segs + [z], y, i, j);
      if x.Holds(i, j) && !y.Holds(i, j) && !z.Holds(i, j) {
        AcrossParts(cmp, s, x.lo, y.Hi(), z.lo, x.Hi(), p, i, j);
      }
    }
  }

  lemma AcrossParts<T(!new)>(cmp: (T, T) -> int, s: seq<T>, lo: int, lt: int, gt: int, hi: int, p: T, i: int, j: int)
    requires TotalPreorder(cmp) && Three(cmp, p, s, lo, lt, gt, hi) && lo <= i < j < hi && !(j < lt) && !(gt <= i)
    ensures cmp(s[i], s[j]) <= 0
  {
    Flip(cmp, p, s[i]);
    assert cmp(s[i], p) <= 0 && cmp(p, s[j]) <= 0;
    Transitive(cmp, s[i], p, s[j]);
  }

  function Total(segs: seq<Segment>): nat {
    if segs == [] then 0 else Total(segs[..|segs| - 1]) + segs[|segs| - 1].count
  }

  lemma TotalPush(segs: seq<Segment>, x: Segment)
    ensures Total(segs + [x]) == Total(segs) + x.count
  {
    assert (segs + [x])[..|segs|] == segs;
  }

  const DEPTH := 50

  /** The depth of an entry is more than the number of entries below it. */
  predicate Deep(segs: seq<Segment>) {
    forall k | 0 <= k < |segs| :: k < segs[k].depth <= DEPTH
  }

  /** `rqsort` */
  method Sort<T(!new)>(a: array<T>, cmp: (T, T) -> int)
    requires TotalPreorder(cmp)
    modifies a
    ensures multiset(a[..]) == multiset(old(a[..])) && SortedIn(cmp, a[..], 0, a.Length)
  {
    hide TotalPreorder, Placed, SortedIn, Total;
    var n := a.Length;
    StartPlaced(cmp, a[..], Segment(0, n, 0));
    if n < 2 {
      return;
    }
    var stack := new Segment[DEPTH](_ => Segment(0, 0, 0));
    stack[0] := Segment(0, n, 0);
    var sp := 1;
    assert stack[..sp] == [Segment(0, n, 0)];
    while sp > 0
      invariant 0 <= sp <= DEPTH && (Deep(stack[..sp]) || (sp == 1 && stack[0].depth == 0))
      invariant Placed(cmp, a[..], stack[..sp]) && multiset(a[..]) == multiset(old(a[..]))
      decreases Total(stack[..sp]), sp
    {
      sp := sp - 1;
      var x := stack[sp];
      assert stack[..sp + 1] == stack[..sp] + [x];
      TotalPush(stack[..sp], x);
      sp := SortSegment(a, stack, sp, x, cmp);
    }
    assert stack[..0] == [];
    AllPlaced(cmp, a[..]);
  }

  lemma StartPlaced<T(!new)>(cmp: (T, T) -> int, s: seq<T>, x: Segment)
    requires x.lo == 0 && x.count == |s|
    ensures Placed(cmp, s, [x]) && (|s| < 2 ==> SortedIn(cmp, s, 0, |s|))
  {
    forall i, j | 0 <= i < j < |s| ensures InSome([x], i, j) {
      assert [x][0].Holds(i, j);
    }
  }

  lemma AllPlaced<T(!new)>(cmp: (T, T) -> int, s: seq<T>)
    requires Placed(cmp, s, [])
    ensures SortedIn(cmp, s, 0, |s|)
  {
  }

  /** The body of the outer loop: sorts one segment but for the parts it pushes. */
  method SortSegment<T(!new)>(a: array<T>, stack: array<Segment>, sp0: nat, x: Segment, cmp: (T, T) -> int) returns (sp: nat)
    requires stack as object != a && TotalPreorder(cmp) && stack.Length == DEPTH && sp0 < DEPTH && Deep(stack[..sp0]) && sp0 <= x.depth <= DEPTH
    requires Placed(cmp, a[..], stack[..sp0] + [x])
    modifies a, stack
    ensures multiset(a[..]) == multiset(old(a[..])) && sp0 <= sp <= DEPTH && Deep(stack[..sp]) && Placed(cmp, a[..], stack[..sp])
    ensures if x.count == 0 then sp == sp0 && stack[..sp] == old(stack[..sp0])
            else Total(stack[..sp]) < Total(old(stack[..sp0])) + x.count
  {
    hide TotalPreorder, Placed, SortedIn, Total, Three, Rearranged;
    var cur := x;
    sp := sp0;
    while cur.count > 6
      invariant multiset(a[..]) == multiset(old(a[..])) && sp0 <= sp <= cur.depth <= DEPTH && Deep(stack[..sp])
      invariant Placed(cmp, a[..], stack[..sp] + [cur])
      invariant || (cur == x && sp == sp0 && stack[..] == old(stack[..]))
                || (x.count > 6 && Total(stack[..sp]) + cur.count < Total(old(stack[..sp0])) + x.count)
      decreases cur.count
    {
      ghost var segs := stack[..sp];
      PlacedBounds(cmp, a[..], segs, cur);
      if cur.depth + 1 > DEPTH {
        ghost var s := a[..];
        HeapSort(a, cur.lo, cur.count, cmp);
        Finished(cmp, s, a[..], segs, cur);
        return;
      }
      cur := Split(a, stack, sp, cur, cmp);
      sp := sp + 1;
      assert stack[..sp] == segs + [stack[sp - 1]];
      TotalPush(segs, stack[sp - 1]);
    }
    ghost var segs, s := stack[..sp], a[..];
    PlacedBounds(cmp, s, segs, cur);
    InsertionSort(a, cur.lo, cur.Hi(), cmp);
    Finished(cmp, s, a[..], segs, cur);
  }

  lemma PlacedBounds<T(!new)>(cmp: (T, T) -> int, s: seq<T>, segs: seq<Segment>, x: Segment)
    requires Placed(cmp, s, segs + [x])
    ensures x.Hi() <= |s|
  {
    DisjointParts(segs, x, |s|);
  }

  lemma Finished<T(!new)>(cmp: (T, T) -> int, s: seq<T>, t: seq<T>, segs: seq<Segment>, x: Segment)
    requires Placed(cmp, s, segs + [x]) && Rearranged(s, t, x.lo, x.Hi()) && x.Hi() <= |t| && SortedIn(cmp, t, x.lo, x.Hi())
    ensures Placed(cmp, t, segs) && multiset(t) == multiset(s)
  {
    hide Placed;
    PlacedMoved(cmp, s, t, segs, x);
    PlacedSorted(cmp, t, segs, x);
  }

  /** Partitions a segment, pushes the larger part and returns the smaller. */
  method Split<T(!new)>(a: array<T>, stack: array<Segment>, sp: nat, cur: Segment, cmp: (T, T) -> int) returns (rest: Segment)
    requires stack as object != a && TotalPreorder(cmp) && stack.Length == DEPTH && sp <= cur.depth < DEPTH && Deep(stack[..sp])
    requires cur.count > 6 && cur.Hi() <= a.Length && Placed(cmp, a[..], stack[..sp] + [cur])
    modifies a, stack
    ensures multiset(a[..]) == multiset(old(a[..])) && stack[..sp] == old(stack[..sp]) && Deep(stack[..sp + 1])
    ensures Placed(cmp, a[..], stack[..sp + 1] + [rest]) && rest.depth == cur.depth + 1
    ensures stack[sp].count + rest.count < cur.count
  {
    hide TotalPreorder, Placed, Three, Rearranged;
    ghost var segs, s := stack[..sp], a[..];
    var depth := cur.depth + 1;
    var lt, gt, p := Partition(a, cur.lo, cur.count, cmp);
    SameMultiset(s, a[..], cur.lo, cur.Hi());
    PlacedMoved(cmp, s, a[..], segs, cur);
    var low, high := Segment(cur.lo, lt - cur.lo, depth), Segment(gt, cur.Hi() - gt, depth);
    PlacedParts(cmp, a[..], segs, cur, low, high, p);
    if low.count > high.count {
      stack[sp] := low;
      rest := high;
    } else {
      stack[sp] := high;
      rest := low;
    }
    assert stack[..sp] == segs && stack[..sp + 1] == segs + [stack[sp]];
  }

  lemma SameMultiset<T>(s: seq<T>, t: seq<T>, lo: nat, hi: nat)
    requires Rearranged(s, t, lo, hi)
    ensures multiset(t) == multiset(s)
  {
  }
}
