/** Case-insensitive classes: folding the set once and each character read is what section 22.2.2.7.1 of
    ECMA-262 asks for. */
module RegexpFolding {
  import opened RegexpInput
  import opened RegexpSyntax
  import opened RegexpMatcher
  import opened RegexpBytecode
  import opened RegexpCompiler
  import opened RegexpMachine
  import opened RegexpClasses
  import S = CharSets
  import F = CaseFolding

  /** The folding of the subject is that of the table, and stays within the code points. */
  ghost predicate FoldsBy(env: Env, table: seq<F.Run>, unicode: bool) {
    && (forall c :: F.Folds(table, unicode, c, env.canon(c)))
    && forall c | 0 <= c <= CODE_POINT_MAX :: 0 <= env.canon(c) <= CODE_POINT_MAX
  }

  /** Some member of the set folds to what c folds to. */
  ghost predicate SomeFolds(env: Env, raw: seq<int>, c: int) {
    exists a :: S.Has(raw, a) && env.canon(a) == env.canon(c)
  }

  lemma ImageFolds(env: Env, table: seq<F.Run>, unicode: bool, raw: seq<int>, c: int)
    requires FoldsBy(env, table, unicode)
    ensures F.Image(table, unicode, raw, env.canon(c)) <==> SomeFolds(env, raw, c)
  {
    hide F.Folds, S.Has;
    if F.Image(table, unicode, raw, env.canon(c)) {
      var a :| S.Has(raw, a) && F.Folds(table, unicode, a, env.canon(c));
      F.FoldsUnique(table, unicode, a, env.canon(a), env.canon(c));
    }
    if SomeFolds(env, raw, c) {
      var a :| S.Has(raw, a) && env.canon(a) == env.canon(c);
      assert F.Folds(table, unicode, a, env.canon(a));
    }
  }

  /** Sets in both notations. */
  lemma HasIsInClass(points: seq<int>, c: int)
    requires S.Increasing(points) && |points| % 2 == 0
    ensures S.Has(points, c) <==> InClass(points, c)
  {
    hide S.Has;
    S.HasInterval(points, c);
  }

  /** Folded characters are characters. */
  lemma ImageBounds(table: seq<F.Run>, unicode: bool, raw: seq<int>, d: int)
    requires F.FoldsOk(table, unicode) && S.Sorted(raw) && |raw| % 2 == 0 && S.InRange(raw) && F.Image(table, unicode, raw, d)
    ensures 0 <= d < UINT32_MAX
  {
    hide S.Has;
    var a :| S.Has(raw, a) && F.Folds(table, unicode, a, d);
    S.HasInterval(raw, a);
    if F.InTable(table, a) {
      var i :| 0 <= i < |table| && F.InRun(table[i], a);
      assert F.FoldEntry(table[i], a, unicode) == d;
    }
  }

  lemma BoundedNormal(points: seq<int>)
    requires S.Increasing(points) && |points| % 2 == 0 && forall d | S.Has(points, d) :: 0 <= d < UINT32_MAX
    ensures Normalised(points)
  {
    hide S.Has;
    if points != [] {
      var n := |points|;
      S.HasInterval(points, points[0]);
      assert points[2 * 0] <= points[0] < points[2 * 0 + 1];
      var m := n / 2 - 1;
      S.HasInterval(points, points[n - 1] - 1);
      assert points[2 * m] <= points[n - 1] - 1 < points[2 * m + 1];
      forall i | 0 <= i < n ensures 0 <= points[i] <= UINT32_MAX {
        assert points[0] <= points[i] <= points[n - 1];
      }
    }
  }

  /** A class with the flag for ignoring case, inverted after folding if it is negated: its instruction accepts the
      characters that some member of the set folds as, or the others. */
  method FoldClass(cr: S.CharRange, table: seq<F.Run>, unicode: bool, invert: bool, ghost env: Env) returns (instr: Instr)
    requires F.TableOk(table) && F.FoldsOk(table, unicode) && FoldsBy(env, table, unicode)
    requires S.Sorted(cr.points) && |cr.points| % 2 == 0 && S.InRange(cr.points)
    modifies cr
    ensures Normalised(cr.points) && instr == ClassInstr(cr.points, true)
    ensures forall c | 0 <= c <= CODE_POINT_MAX ::
              Accepts(env, Class(cr.points, true), c) == (SomeFolds(env, old(cr.points), c) != invert)
    ensures instr.IRange? ==>
              && |instr.bounds| % 2 == 0 && instr.bounds != []
              && forall c | 0 <= c <= CODE_POINT_MAX ::
                   RangeAccepts(instr.wide, instr.bounds, env.canon(c)) == (SomeFolds(env, old(cr.points), c) != invert)
  {
    hide F.TableOk, F.FoldsOk, F.Image, S.Has, S.Sorted, S.InRange, Normalised, InClass, SomeFolds, ClassInstr, RangeAccepts, S.Complement;
    ghost var raw := cr.points;
    F.CanonicalizeSet(cr, table, unicode);
    forall d | S.Has(cr.points, d) ensures 0 <= d < UINT32_MAX {
      ImageBounds(table, unicode, raw, d);
    }
    BoundedNormal(cr.points);
    NormalRange(cr.points);
    ghost var folded := cr.points;
    if invert {
      cr.Invert();
      NormalRange(cr.points);
    }
    instr := ClassInstr(cr.points, true);
    Classified(env, table, unicode, raw, folded, cr.points, invert);
    if cr.points != [] {
      ClassExact(cr.points, true, 0);
      forall c | 0 <= c <= CODE_POINT_MAX
        ensures RangeAccepts(instr.wide, instr.bounds, env.canon(c)) == (SomeFolds(env, raw, c) != invert)
      {
        ClassExact(cr.points, true, env.canon(c));
      }
    } else {
      EmptyClass(true);
    }
  }

  lemma EmptyClass(icase: bool)
    ensures !ClassInstr([], icase).IRange?
  {
  }

  lemma NormalRange(points: seq<int>)
    ensures Normalised(points) ==> S.Sorted(points) && |points| % 2 == 0 && S.InRange(points) && S.Increasing(points)
    ensures S.Increasing(points) && |points| % 2 == 0 && S.InRange(points) ==> Normalised(points)
  {
  }

  lemma Classified(env: Env, table: seq<F.Run>, unicode: bool, raw: seq<int>, folded: seq<int>, points: seq<int>, invert: bool)
    requires FoldsBy(env, table, unicode) && Normalised(folded) && Normalised(points)
    requires forall d :: S.Has(folded, d) == F.Image(table, unicode, raw, d)
    requires if invert then S.Complement(folded, points) else points == folded
    ensures forall c | 0 <= c <= CODE_POINT_MAX :: InClass(points, env.canon(c)) == (SomeFolds(env, raw, c) != invert)
  {
    hide F.Image, S.Has, Normalised, InClass, SomeFolds, F.Folds;
    NormalRange(points);
    forall c | 0 <= c <= CODE_POINT_MAX ensures InClass(points, env.canon(c)) == (SomeFolds(env, raw, c) != invert) {
      ImageFolds(env, table, unicode, raw, c);
      HasIsInClass(points, env.canon(c));
    }
  }
}
