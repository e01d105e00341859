/** The instruction emitted for a character class accepts exactly the class. */
module RegexpClasses {
  import opened RegexpSyntax
  import opened RegexpBytecode
  import opened RegexpCompiler
  import opened RegexpMachine

  predicate Hit(bounds: seq<int>, c: int, i: int)
    requires 0 <= i < |bounds| / 2
  {
    bounds[2 * i] <= c <= bounds[2 * i + 1]
  }

  /** Disjoint increasing inclusive intervals. */
  predicate Ordered(bounds: seq<int>) {
    && |bounds| % 2 == 0
    && forall i, j | 0 <= i < j < |bounds| :: bounds[i] <= bounds[j] && (i % 2 == 1 ==> bounds[i] < bounds[j])
  }

  lemma OrderedAt(bounds: seq<int>, i: int, j: int)
    requires Ordered(bounds) && 0 <= i <= j < |bounds|
    ensures bounds[i] <= bounds[j]
  {
  }

  /** The binary search is exact, and its upper index never passes below the lower one by more
      than one, so the unsigned arithmetic of the source does not wrap. */
  lemma {:induction false} SearchExact(bounds: seq<int>, c: int, lo: int, hi: int)
    requires |bounds| % 2 == 0 && Ordered(bounds) && 0 <= lo && hi < |bounds| / 2
    ensures Search(bounds, c, lo, hi) <==> exists i | lo <= i <= hi :: Hit(bounds, c, i)
    decreases hi - lo + 1
  {
    hide Ordered;
    if lo <= hi {
      var mid := (lo + hi) / 2;
      if c < bounds[2 * mid] {
        SearchExact(bounds, c, lo, mid - 1);
        forall i | mid <= i <= hi ensures !Hit(bounds, c, i) {
          OrderedAt(bounds, 2 * mid, 2 * i);
        }
      } else if c > bounds[2 * mid + 1] {
        SearchExact(bounds, c, mid + 1, hi);
        forall i | lo <= i <= mid ensures !Hit(bounds, c, i) {
          OrderedAt(bounds, 2 * i + 1, 2 * mid + 1);
        }
      } else {
        assert Hit(bounds, c, mid);
      }
    }
  }

  /** Endpoints that `range` can hold in 16 bits. */
  predicate Narrow(points: seq<int>) {
    forall i | 0 <= i < |points| :: points[i] == UINT32_MAX || points[i] <= 0xFFFF
  }

  lemma BoundsOrdered(points: seq<int>, wide: bool)
    requires Normalised(points) && (wide || Narrow(points))
    ensures Ordered(Bounds(wide, points))
  {
    var b := Bounds(wide, points);
    forall i, j | 0 <= i < j < |b|
      ensures b[i] <= b[j] && (i % 2 == 1 ==> b[i] < b[j])
    {
      assert points[i] < points[j];
    }
  }

  /** Of two consecutive endpoints the class holds the half-open interval. */
  lemma HitIsMember(points: seq<int>, wide: bool, c: int, i: int)
    requires Normalised(points) && 0 <= i < |points| / 2 && 0 <= c < UINT32_MAX
    requires wide || c < 0xFFFF || points[2 * i + 1] != UINT32_MAX
    ensures Hit(Bounds(wide, points), c, i) <==> points[2 * i] <= c < points[2 * i + 1]
  {
  }

  lemma LastIsLargest(points: seq<int>, i: int)
    requires Normalised(points) && 0 <= i < |points|
    ensures points[i] <= points[|points| - 1] <= UINT32_MAX
  {
  }

  lemma HitWithin(points: seq<int>, wide: bool, c: int, i: int)
    requires Normalised(points) && (wide || Narrow(points)) && 0 <= i < |points| / 2 && 0 <= c < UINT32_MAX
    requires wide || c < 0xFFFF || points[|points| - 1] != UINT32_MAX
    ensures var b := Bounds(wide, points);
            && (Hit(b, c, i) <==> points[2 * i] <= c < points[2 * i + 1])
            && (Hit(b, c, i) ==> b[0] <= c <= b[|b| - 1])
  {
    hide Bounds, Ordered, Normalised, Narrow;
    var b := Bounds(wide, points);
    BoundsOrdered(points, wide);
    LastIsLargest(points, 2 * i + 1);
    HitIsMember(points, wide, c, i);
    OrderedAt(b, 0, 2 * i);
    OrderedAt(b, 2 * i + 1, |b| - 1);
  }

  /** Away from the 16-bit infinity, the search decides membership. */
  lemma SearchIsMember(points: seq<int>, wide: bool, c: int)
    requires Normalised(points) && points != [] && 0 <= c < UINT32_MAX
    requires wide || Narrow(points)
    requires wide || c < 0xFFFF || points[|points| - 1] != UINT32_MAX
    ensures var b := Bounds(wide, points);
            (b[0] <= c <= b[|b| - 1] && Search(b, c, 0, |b| / 2 - 1)) <==> InClass(points, c)
  {
    hide Search, Bounds, Ordered, Narrow;
    var n := |points| / 2;
    var b := Bounds(wide, points);
    BoundsOrdered(points, wide);
    SearchExact(b, c, 0, n - 1);
    if InClass(points, c) {
      var i :| 0 <= i < n && points[2 * i] <= c < points[2 * i + 1];
      HitWithin(points, wide, c, i);
    }
    if i :| 0 <= i < n && Hit(b, c, i) {
      HitWithin(points, wide, c, i);
    }
  }

  lemma NarrowPoints(points: seq<int>)
    requires Normalised(points) && points != []
    requires var last := points[|points| - 1];
             (if last == UINT32_MAX then points[|points| - 2] else last) <= 0xFFFF
    ensures Narrow(points)
  {
    forall i | 0 <= i < |points| - 2
      ensures points[i] <= 0xFFFF
    {
      assert points[i] < points[|points| - 2] < points[|points| - 1];
    }
    assert points[|points| - 2] < points[|points| - 1];
  }

  lemma ClassEncodable(points: seq<int>, icase: bool)
    requires Normalised(points) && |points| / 2 < 65535
    ensures Encodable(ClassInstr(points, icase))
  {
    if points != [] {
      var b := ClassInstr(points, icase).bounds;
      if !ClassInstr(points, icase).wide {
        NarrowPoints(points);
      }
      forall i | 0 <= i < |points|
        ensures 0 <= b[i] <= if ClassInstr(points, icase).wide then UINT32_MAX else 0xFFFF
      {
        assert i % 2 == 1 ==> points[i - 1] < points[i];
        assert i % 2 == 0 ==> points[i] < points[i + 1];
      }
    }
  }

  /** `re_emit_range` against the class, for every character. */
  lemma ClassExact(points: seq<int>, icase: bool, c: int)
    requires Normalised(points) && points != [] && 0 <= c <= CODE_POINT_MAX
    ensures var i := ClassInstr(points, icase);
            && i.IRange? && i.icase == icase && |i.bounds| % 2 == 0 && i.bounds != []
            && (RangeAccepts(i.wide, i.bounds, c) <==> InClass(points, c))
  {
    hide Search;
    var n := |points| / 2;
    var last := points[|points| - 1];
    var high := if last == UINT32_MAX then points[|points| - 2] else last;
    var wide := high > 0xFFFF;
    var b := Bounds(wide, points);
    if !wide && c >= 0xFFFF && last == UINT32_MAX {
      assert points[2 * (n - 1)] <= c < points[2 * (n - 1) + 1];
      assert b[0] == points[0] <= points[2 * (n - 1)];
    } else {
      if !wide {
        NarrowPoints(points);
      }
      SearchIsMember(points, wide, c);
    }
  }
}
