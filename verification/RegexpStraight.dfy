/** Patterns without choices that read no capture: the code runs straight through, whatever
    the captures hold, and sets every capture it can set. */
module RegexpStraight {
  import opened RegexpSyntax
  import opened RegexpMatcher
  import opened RegexpBytecode
  import opened RegexpCompiler
  import opened RegexpAnalysis
  import opened RegexpMachine
  import opened RegexpTraces
  import opened RegexpRelation
  import opened RegexpLeaves

  /** Capture `k` after a straight run from `v` to `w`: set as the matcher sets it, or left alone. */
  predicate Settled(re: Re, base: nat, v: seq<int>, w: seq<int>, x: State, y: State, k: nat)
    requires 2 * k + 1 < |v| == |w| && k < |x.caps| == |y.caps|
  {
    if Sets(re, base, k) then w[2 * k] != NULL && w[2 * k + 1] != NULL && y.caps[k] == Span(w[2 * k], w[2 * k + 1])
    else
      && y.caps[k] == x.caps[k]
      && (w[2 * k] == v[2 * k] || w[2 * k] == NULL)
      && (w[2 * k + 1] == v[2 * k + 1] || w[2 * k + 1] == NULL)
  }

  predicate Finished(p: Prog, re: Re, base: nat, v: seq<int>, w: seq<int>, x: State, y: State) {
    && Sane(p, w)
    && Agrees(p, v, w, base, Count(re), |v|)
    && |y.caps| == |x.caps| == p.captures
    && forall k: nat | k < p.captures :: Settled(re, base, v, w, x, y, k)
  }

  ghost predicate RunsStraight(p: Prog, c: Conf, end: int, re: Re, base: nat, v: seq<int>, x: State, ys: seq<State>) {
    || (ys == [] && Reaches(p, c, Back([])))
    || (|ys| == 1 && exists w :: Reaches(p, c, Run(end, ys[0].pos, w, [])) && Finished(p, re, base, v, w, x, ys[0]))
  }

  ghost predicate Ready(p: Prog, re: Re, fwd: bool, base: nat, regs: Regs, pc: int, v: seq<int>, x: State) {
    && Loaded(p) && RangesFit(re) && Applies(p.env, re, base, x) && |x.caps| == p.captures
    && Holds(p, pc, Code(p.env.canon, re, fwd, base, regs)) && Sane(p, v)
  }

  lemma {:induction false} SimpleRuns(p: Prog, re: Re, fwd: bool, base: nat, regs: Regs, pc: int, v: seq<int>, x: State)
    requires Ready(p, re, fwd, base, regs, pc, v, x) && Simple(re)
    ensures RunsStraight(p, Run(pc, x.pos, v, []), pc + Len(Code(p.env.canon, re, fwd, base, regs)), re, base, v, x,
                         Match(p.env, re, fwd, base, x))
    decreases re, 2
  {
    hide Ready, Code, Match, RunsStraight;
    if re.Group? {
      GroupRuns(p, re, fwd, base, regs, pc, v, x);
    } else if re.Cat? {
      CatRuns(p, re, fwd, base, regs, pc, v, x);
    } else if re.Quant? {
      NoRounds(p, re, fwd, base, regs, pc, v, x);
    } else {
      SimpleLeaf(p, re, fwd, base, regs, pc, v, x);
    }
  }

  lemma SimpleLeaf(p: Prog, re: Re, fwd: bool, base: nat, regs: Regs, pc: int, v: seq<int>, x: State)
    requires Ready(p, re, fwd, base, regs, pc, v, x) && IsLeaf(re) && !re.BackRef?
    ensures RunsStraight(p, Run(pc, x.pos, v, []), pc + Len(Code(p.env.canon, re, fwd, base, regs)), re, base, v, x,
                         Match(p.env, re, fwd, base, x))
  {
    hide Code, Match, Reaches, Holds, Loaded, Rel;
    LeafRuns(p, re, fwd, base, regs, pc, v, x);
    var ys := Match(p.env, re, fwd, base, x);
    if ys != [] {
      assert Finished(p, re, base, v, v, x, ys[0]);
    }
  }

  lemma NoRounds(p: Prog, re: Re, fwd: bool, base: nat, regs: Regs, pc: int, v: seq<int>, x: State)
    requires Ready(p, re, fwd, base, regs, pc, v, x) && re.Quant? && re.max == 0
    ensures RunsStraight(p, Run(pc, x.pos, v, []), pc + Len(Code(p.env.canon, re, fwd, base, regs)), re, base, v, x,
                         Match(p.env, re, fwd, base, x))
  {
    hide Code, Match, Reaches, Holds, Rel, Found, Valid;
    PosInRange(p.env, x);
    MatchQuant(p.env, re, fwd, base, x);
    CodeQuant(p.env.canon, re, fwd, base, regs);
    var pre := ResetBefore(p.env.canon, re, fwd, base);
    assert Code(p.env.canon, re, fwd, base, regs) == pre;
    var c := Run(pc, x.pos, v, []);
    if pre == [] {
      ReachesSelf(p, c);
      var end := pc + Len(Code(p.env.canon, re, fwd, base, regs));
      assert Match(p.env, re, fwd, base, x)[0] == x;
      assert Reaches(p, c, Run(end, x.pos, v, []));
      assert Finished(p, re, base, v, v, x, x);
    } else {
      var i := ResetOf(re.body, base);
      LenOne(i);
      StepReset(p, pc, i.lo, i.hi, x.pos, v, []);
      ReachesStep(p, c, Step(p, c));
      assert Finished(p, re, base, v, ResetSlots(v, i.lo, i.hi), x, x);
    }
  }

  lemma {:induction false} GroupRuns(p: Prog, re: Re, fwd: bool, base: nat, regs: Regs, pc: int, v: seq<int>, x: State)
    requires Ready(p, re, fwd, base, regs, pc, v, x) && re.Group? && Simple(re)
    ensures RunsStraight(p, Run(pc, x.pos, v, []), pc + Len(Code(p.env.canon, re, fwd, base, regs)), re, base, v, x,
                         Match(p.env, re, fwd, base, x))
    decreases re, 0
  {
    hide Code, Match, Reaches, Holds, Rel, Finished, Step, Valid, Units16;
    var open, close := ISave(!fwd, base), ISave(fwd, base);
    var inner := Code(p.env.canon, re.body, fwd, base + 1, regs);
    CodeGroup(p.env.canon, re, fwd, base, regs);
    HoldsSplit(p, pc, [open] + inner, [close]);
    HoldsSplit(p, pc, [open], inner);
    LenOne(open);
    LenOne(close);
    PosInRange(p.env, x);
    var c := Run(pc, x.pos, v, []);
    var v1 := v[2 * base + Bit(!fwd) := x.pos];
    StepSave(p, pc, !fwd, base, x.pos, v, []);
    var d := Run(pc + 2, x.pos, v1, []);
    ReachesStep(p, c, d);
    SimpleRuns(p, re.body, fwd, base + 1, regs, pc + 2, v1, x);
    MatchGroup(p.env, re, fwd, base, x);
    var ys := Match(p.env, re.body, fwd, base + 1, x);
    var mid := pc + 2 + Len(inner);
    if ys == [] {
      ReachesThen(p, c, d, Back([]));
    } else {
      var w :| Reaches(p, d, Run(mid, ys[0].pos, w, [])) && Finished(p, re.body, base + 1, v1, w, x, ys[0]);
      var e := Run(mid, ys[0].pos, w, []);
      FinishedSlots(p, re.body, base + 1, v1, w, x, ys[0]);
      assert Follows(p.env, fwd, x, ys[0]);
      PosInRange(p.env, ys[0]);
      var w1 := w[2 * base + Bit(fwd) := ys[0].pos];
      StepSave(p, mid, fwd, base, ys[0].pos, w, []);
      ReachesThen(p, c, d, e);
      ReachesStep(p, e, Run(mid + 2, ys[0].pos, w1, []));
      ReachesThen(p, c, e, Run(mid + 2, ys[0].pos, w1, []));
      GroupFinished(p, re, fwd, base, v, w, x, ys[0]);
    }
  }

  lemma FinishedSlots(p: Prog, re: Re, base: nat, v: seq<int>, w: seq<int>, x: State, y: State)
    requires Finished(p, re, base, v, w, x, y)
    ensures Sane(p, w) && |w| == |v| && |y.caps| == p.captures
  {
  }

  lemma GroupFinished(p: Prog, re: Re, fwd: bool, base: nat, v: seq<int>, w: seq<int>, x: State, y: State)
    requires re.Group? && Sane(p, v) && base + Count(re) <= p.captures
    requires 0 <= x.pos <= p.env.Len() && 0 <= y.pos <= p.env.Len()
    requires Finished(p, re.body, base + 1, v[2 * base + Bit(!fwd) := x.pos], w, x, y)
    ensures Finished(p, re, base, v, w[2 * base + Bit(fwd) := y.pos], x, Close(fwd, base, x.pos, y))
  {
    var v1 := v[2 * base + Bit(!fwd) := x.pos];
    var w1 := w[2 * base + Bit(fwd) := y.pos];
    var z := Close(fwd, base, x.pos, y);
    if Sets(re.body, base + 1, base) {
      SetsInRange(re.body, base + 1, base);
    }
    forall k: nat | k < p.captures
      ensures Settled(re, base, v, w1, x, z, k)
    {
      assert Settled(re.body, base + 1, v1, w, x, y, k);
    }
  }

  lemma {:induction false} CatRuns(p: Prog, re: Re, fwd: bool, base: nat, regs: Regs, pc: int, v: seq<int>, x: State)
    requires Ready(p, re, fwd, base, regs, pc, v, x) && re.Cat? && Simple(re)
    ensures RunsStraight(p, Run(pc, x.pos, v, []), pc + Len(Code(p.env.canon, re, fwd, base, regs)), re, base, v, x,
                         Match(p.env, re, fwd, base, x))
    decreases re, 1
  {
    hide Code, Match, Reaches, Holds, Rel, Finished, Units16, RunsStraight, Valid, MatchAll;
    var rb := base + Count(re.left);
    var left, right := Code(p.env.canon, re.left, fwd, base, regs), Code(p.env.canon, re.right, fwd, rb, regs);
    CodeCat(p.env.canon, re, fwd, base, regs);
    MatchCat(p.env, re, fwd, base, x);
    if fwd {
      HoldsSplit(p, pc, left, right);
      TwoRun(p, re, re.left, base, re.right, rb, fwd, base, regs, pc, v, x);
    } else {
      HoldsSplit(p, pc, right, left);
      TwoRun(p, re, re.right, rb, re.left, base, fwd, base, regs, pc, v, x);
    }
  }

  /** The two parts of a concatenation, `a` run first. */
  lemma {:induction false} TwoRun(p: Prog, re: Re, a: Re, ab: nat, b: Re, bb: nat, fwd: bool, base: nat, regs: Regs,
                                  pc: int, v: seq<int>, x: State)
    requires re.Cat? && (if fwd then a == re.left && b == re.right else a == re.right && b == re.left)
    requires (if fwd then ab == base && bb == base + Count(re.left) else bb == base && ab == base + Count(re.left))
    requires Ready(p, a, fwd, ab, regs, pc, v, x) && Simple(a) && Simple(b)
    requires Ready(p, b, fwd, bb, regs, pc + Len(Code(p.env.canon, a, fwd, ab, regs)), v, x)
    ensures RunsStraight(p, Run(pc, x.pos, v, []),
                         pc + Len(Code(p.env.canon, a, fwd, ab, regs)) + Len(Code(p.env.canon, b, fwd, bb, regs)),
                         re, base, v, x, MatchAll(p.env, b, fwd, bb, x, Match(p.env, a, fwd, ab, x)))
    decreases re, 0
  {
    hide Code, Match, Reaches, Holds, Rel, Finished, Units16, Valid;
    var c := Run(pc, x.pos, v, []);
    var mid := pc + Len(Code(p.env.canon, a, fwd, ab, regs));
    var end := mid + Len(Code(p.env.canon, b, fwd, bb, regs));
    SimpleRuns(p, a, fwd, ab, regs, pc, v, x);
    var ys := Match(p.env, a, fwd, ab, x);
    if ys != [] {
      var y := ys[0];
      assert Follows(p.env, fwd, x, y);
      assert ys[1..] == [];
      var w :| Reaches(p, c, Run(mid, y.pos, w, [])) && Finished(p, a, ab, v, w, x, y);
      FinishedSlots(p, a, ab, v, w, x, y);
      SimpleRuns(p, b, fwd, bb, regs, mid, w, y);
      var zs := Match(p.env, b, fwd, bb, y);
      assert MatchAll(p.env, b, fwd, bb, x, ys) == zs + MatchAll(p.env, b, fwd, bb, x, []);
      assert zs + [] == zs;
      var d := Run(mid, y.pos, w, []);
      if zs == [] {
        ReachesThen(p, c, d, Back([]));
      } else {
        var u :| Reaches(p, d, Run(end, zs[0].pos, u, [])) && Finished(p, b, bb, w, u, y, zs[0]);
        ReachesThen(p, c, d, Run(end, zs[0].pos, u, []));
        CatFinished(p, re, a, ab, b, bb, fwd, base, v, w, u, x, y, zs[0]);
      }
    }
  }

  lemma CatFinished(p: Prog, re: Re, a: Re, ab: nat, b: Re, bb: nat, fwd: bool, base: nat,
                    v: seq<int>, w: seq<int>, u: seq<int>, x: State, y: State, z: State)
    requires re.Cat? && (if fwd then a == re.left && b == re.right else a == re.right && b == re.left)
    requires (if fwd then ab == base && bb == base + Count(re.left) else bb == base && ab == base + Count(re.left))
    requires Finished(p, a, ab, v, w, x, y) && Finished(p, b, bb, w, u, y, z)
    ensures Finished(p, re, base, v, u, x, z)
  {
    forall k: nat | k < p.captures
      ensures Settled(re, base, v, u, x, z, k)
    {
      assert Settled(a, ab, v, w, x, y, k) && Settled(b, bb, w, u, y, z, k);
      if Sets(a, ab, k) {
        SetsInRange(a, ab, k);
        if Sets(b, bb, k) {
          SetsInRange(b, bb, k);
        }
      }
    }
  }
}
