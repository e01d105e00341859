/** Compiled code explores exactly the list of states that the pattern means. */
module RegexpCorrectness {
  import opened RegexpInput
  import opened RegexpSyntax
  import opened RegexpMatcher
  import opened RegexpRepetition
  import opened RegexpBytecode
  import opened RegexpCompiler
  import opened RegexpAnalysis
  import opened RegexpMachine
  import opened RegexpTraces
  import opened RegexpRelation
  import opened RegexpLeaves
  import opened RegexpStraight
  import opened RegexpLayout

  /** The machine is in a state that stands for `x`; `n` is the number of registers. */
  ghost predicate Fits(p: Prog, n: nat, v: seq<int>, x: State) {
    |v| == 2 * p.captures + n && Rel(p, v, x) && Valid(p.env, x)
  }

  lemma FitsApplies(p: Prog, re: Re, base: nat, n: nat, v: seq<int>, x: State)
    requires Supported(p, re, base) && Fits(p, n, v, x)
    ensures Applies(p.env, re, base, x) && |x.caps| == p.captures && 0 <= x.pos <= p.env.Len()
    ensures Sane(p, v) && n <= 255
  {
  }

  /** Code that yields `ys` from `x`, described from the state it starts in. */
  ghost predicate Correct(p: Prog, re: Re, fwd: bool, base: nat, r: nat, pc: int, v: seq<int>, x: State)
    requires Applies(p.env, re, base, x)
  {
    Explores(p, Run(pc, x.pos, v, []), pc + Len(Code(p.env.canon, re, fwd, base, From(r))), v, base, Count(re), r,
             Match(p.env, re, fwd, base, x))
  }

  lemma {:induction false} CodeCorrect(p: Prog, re: Re, fwd: bool, base: nat, r: nat, pc: int, n: nat, v: seq<int>, x: State)
    requires Placed(p, re, fwd, base, r, pc, n) && Fits(p, n, v, x) && Applies(p.env, re, base, x)
    requires Clean(v, base, Count(re))
    ensures Correct(p, re, fwd, base, r, pc, v, x)
    decreases re, 1
  {
    hide Placed, Fits, Applies, Clean, Correct, Code, Match, RegistersBelow;
    match re
    case Group(_) => GroupCorrect(p, re, fwd, base, r, pc, n, v, x);
    case Look(_, _, _) => LookCorrect(p, re, fwd, base, r, pc, n, v, x);
    case Cat(_, _) => CatCorrect(p, re, fwd, base, r, pc, n, v, x);
    case Alt(_, _) => AltCorrect(p, re, fwd, base, r, pc, n, v, x);
    case Quant(_, _, _, _) => QuantCorrect(p, re, fwd, base, r, pc, n, v, x);
    case _ => AtomicCorrect(p, re, fwd, base, r, pc, n, v, x);
  }

  lemma AtomicCorrect(p: Prog, re: Re, fwd: bool, base: nat, r: nat, pc: int, n: nat, v: seq<int>, x: State)
    requires Placed(p, re, fwd, base, r, pc, n) && Fits(p, n, v, x) && Applies(p.env, re, base, x)
    requires IsLeaf(re)
    ensures Correct(p, re, fwd, base, r, pc, v, x)
  {
    hide Code, Match, Explores, Holds, Loaded, RegistersBelow, Rel;
    LeafCorrect(p, re, fwd, base, From(r), pc, v, x, r);
  }

  // ----- groups -----

  lemma OpenSlot(p: Prog, base: nat, n: nat, end: bool, v: seq<int>, x: State)
    requires Rel(p, v, x) && 0 <= x.pos <= p.env.Len() && 0 < n && base + n <= p.captures && Clean(v, base, n)
    ensures var v1 := v[2 * base + Bit(end) := x.pos]; Rel(p, v1, x) && Clean(v1, base + 1, n - 1)
  {
    var v1 := v[2 * base + Bit(end) := x.pos];
    forall k | 0 <= k < p.captures ensures Visible(v1, k) == x.caps[k] {
      assert Visible(v, k) == x.caps[k];
    }
  }

  lemma CloseSlot(p: Prog, base: nat, n: nat, r: nat, fwd: bool, v: seq<int>, from: int, t: Exit, y: State)
    requires Sane(p, v) && 0 < n && base + n <= p.captures && 0 <= from && 0 <= y.pos <= p.env.Len()
    requires Ends(p, v[2 * base + Bit(!fwd) := from], base + 1, n - 1, r, t, y)
    ensures 2 * base + 1 < |t.slots| && base < |y.caps|
    ensures Ends(p, v, base, n, r, Exit(t.pos, t.slots[2 * base + Bit(fwd) := t.pos]), Close(fwd, base, from, y))
  {
    var w := t.slots[2 * base + Bit(fwd) := t.pos];
    var z := Close(fwd, base, from, y);
    assert t.slots[2 * base + Bit(!fwd)] == from;
    forall k | 0 <= k < p.captures ensures Visible(w, k) == z.caps[k] {
      assert Visible(t.slots, k) == y.caps[k];
    }
  }

  lemma {:induction false} GroupCorrect(p: Prog, re: Re, fwd: bool, base: nat, r: nat, pc: int, n: nat, v: seq<int>, x: State)
    requires Placed(p, re, fwd, base, r, pc, n) && Fits(p, n, v, x) && Applies(p.env, re, base, x)
    requires Clean(v, base, Count(re)) && re.Group?
    ensures Correct(p, re, fwd, base, r, pc, v, x)
    decreases re, 0
  {
    hide Placed, Clean, Code, Match, RegistersBelow, Valid, Holds, Reaches, Rel, Ends, Yields, Len, Supported, Step;
    PlacedSupported(p, re, fwd, base, r, pc, n);
    FitsApplies(p, re, base, n, v, x);
    GroupPlaced(p, re, fwd, base, r, pc, n);
    var c := Run(pc, x.pos, v, []);
    var v1 := v[2 * base + Bit(!fwd) := x.pos];
    var d := Run(pc + 2, x.pos, v1, []);
    var mid := pc + 2 + Len(Code(p.env.canon, re.body, fwd, base + 1, From(r)));
    CapturesBounded(p, re, base);
    StepSave(p, pc, !fwd, base, x.pos, v, []);
    ReachesStep(p, c, d);
    OpenSlot(p, base, Count(re), !fwd, v, x);
    CodeCorrect(p, re.body, fwd, base + 1, r, pc + 2, n, v1, x);
    var ys := Match(p.env, re.body, fwd, base + 1, x);
    var ts: seq<Exit> :| Yields(p, d, mid, ts) && AllEnd(p, v1, base + 1, Count(re.body), r, ts, ys);
    YieldsAfter(p, c, d, mid, ts);
    var us := seq(|ts|, i requires 0 <= i < |ts| => CloseExit(ts[i], 2 * base + Bit(fwd)));
    MatchGroup(p.env, re, fwd, base, x);
    var zs := Match(p.env, re, fwd, base, x);
    forall i | 0 <= i < |ts|
      ensures Ends(p, v, base, Count(re), r, us[i], zs[i])
      ensures Reaches(p, Run(mid, ts[i].pos, ts[i].slots, []), Run(mid + 2, us[i].pos, us[i].slots, []))
    {
      assert Ends(p, v1, base + 1, Count(re) - 1, r, ts[i], ys[i]);
      assert Follows(p.env, fwd, x, ys[i]);
      PosInRange(p.env, ys[i]);
      CloseSlot(p, base, Count(re), r, fwd, v, x.pos, ts[i], ys[i]);
      EndsSlots(p, v1, base + 1, Count(re) - 1, r, ts[i], ys[i]);
      StepSave(p, mid, fwd, base, ts[i].pos, ts[i].slots, []);
      ReachesStep(p, Run(mid, ts[i].pos, ts[i].slots, []), Run(mid + 2, us[i].pos, us[i].slots, []));
    }
    YieldsNext(p, c, mid, mid + 2, ts, us);
    assert AllEnd(p, v, base, Count(re), r, us, zs);
  }

  function CloseExit(t: Exit, j: nat): Exit {
    if j < |t.slots| then Exit(t.pos, t.slots[j := t.pos]) else t
  }

  lemma EndsSlots(p: Prog, v: seq<int>, lo: nat, n: nat, r: nat, t: Exit, y: State)
    requires Ends(p, v, lo, n, r, t, y)
    ensures t.pos == y.pos && |t.slots| == |v| && Sane(p, t.slots) && |y.caps| == p.captures && Rel(p, t.slots, y)
    ensures Agrees(p, v, t.slots, lo, n, r)
  {
  }

  lemma CapturesBounded(p: Prog, re: Re, base: nat)
    requires Supported(p, re, base)
    ensures base + Count(re) <= p.captures <= 255
  {
  }

  // ----- lookaround -----

  lemma {:induction false} LookCorrect(p: Prog, re: Re, fwd: bool, base: nat, r: nat, pc: int, n: nat, v: seq<int>, x: State)
    requires Placed(p, re, fwd, base, r, pc, n) && Fits(p, n, v, x) && Applies(p.env, re, base, x)
    requires Clean(v, base, Count(re)) && re.Look?
    ensures Correct(p, re, fwd, base, r, pc, v, x)
    decreases re, 0
  {
    hide Placed, Clean, Code, Match, RegistersBelow, Valid, Holds, Reaches, Rel, Ends, Len, Supported, Step, Choices, Agrees;
    PlacedSupported(p, re, fwd, base, r, pc, n);
    FitsApplies(p, re, base, n, v, x);
    LookPlaced(p, re, fwd, base, r, pc, n);
    var len := Len(Code(p.env.canon, re.body, !re.behind, base, From(r)));
    var c := Run(pc, x.pos, v, []);
    var d := Run(pc + 5, x.pos, v, []);
    var mid := pc + 5 + len;
    var end := mid + 1;
    var f := Frame(if re.neg then NotAhead else Ahead, end, x.pos, v);
    StepLook(p, pc, re.neg, len + 1, x.pos, v, []);
    assert Push(f.kind, end, x.pos, v, []) == [f];
    ReachesStep(p, c, Run(pc + 5, x.pos, v, [f]));
    assert [] + [f] == [f];
    CodeCorrect(p, re.body, !re.behind, base, r, pc + 5, n, v, x);
    MatchLook(p.env, re, fwd, base, x);
    var ys := Match(p.env, re.body, !re.behind, base, x);
    var ts: seq<Exit> :| Yields(p, d, mid, ts) && AllEnd(p, v, base, Count(re), r, ts, ys);
    hide Explores;
    SelfAgrees(p, v, base, Count(re), r);
    if ts == [] {
      ReachesUnder(p, d, Back([]), [f]);
      ReachesThen(p, c, Under(d, [f]), Back([f]));
      LookFails(p, f);
      if re.neg {
        ReachesThen(p, c, Back([f]), Run(end, x.pos, v, []));
        ExploresOne(p, c, end, v, base, Count(re), r, v, x);
      } else {
        ReachesThen(p, c, Back([f]), Back([]));
        ExploresNone(p, c, end, v, base, Count(re), r);
      }
    } else {
      var stack :| Choices(stack) && Reaches(p, d, Run(mid, ts[0].pos, ts[0].slots, stack));
      assert Ends(p, v, base, Count(re), r, ts[0], ys[0]);
      EndsSlots(p, v, base, Count(re), r, ts[0], ys[0]);
      assert Follows(p.env, !re.behind, x, ys[0]);
      PosInRange(p.env, ys[0]);
      ReachesUnder(p, d, Run(mid, ts[0].pos, ts[0].slots, stack), [f]);
      var e := Run(mid, ts[0].pos, ts[0].slots, stack + [f]);
      ReachesThen(p, c, Under(d, [f]), e);
      assert [f] + [] == [f];
      StepLookMatch(p, mid, re.neg, ts[0].pos, ts[0].slots, stack, f, []);
      ReachesStep(p, e, Step(p, e));
      ReachesThen(p, c, e, Step(p, e));
      if re.neg {
        ExploresNone(p, c, end, v, base, Count(re), r);
      } else {
        RelMoves(p, ts[0].slots, ys[0], x.pos);
        ExploresOne(p, c, end, v, base, Count(re), r, ts[0].slots, ys[0].(pos := x.pos));
      }
    }
  }

  lemma LookFails(p: Prog, f: Frame)
    requires f.kind != Choice
    ensures Reaches(p, Back([f]), if f.kind == Ahead then Back([]) else Run(f.pc, f.pos, f.slots, []))
  {
    hide Reaches;
    assert [f][1..] == [];
    ReachesStep(p, Back([f]), Step(p, Back([f])));
  }

  lemma RelMoves(p: Prog, v: seq<int>, x: State, pos: int)
    requires Rel(p, v, x)
    ensures Rel(p, v, x.(pos := pos))
  {
  }

  lemma SelfAgrees(p: Prog, v: seq<int>, lo: nat, n: nat, r: nat)
    ensures Agrees(p, v, v, lo, n, r)
  {
  }

  // ----- concatenation and alternatives -----

  ghost function Continuations(env: Env, re: Re, fwd: bool, base: nat, x: State, xs: seq<State>): (zss: seq<seq<State>>)
    requires AllFollow(env, fwd, x, xs) && Applies(env, re, base, x)
    ensures |zss| == |xs|
    ensures forall i | 0 <= i < |xs| :: Applies(env, re, base, xs[i]) && zss[i] == Match(env, re, fwd, base, xs[i])
    ensures Flatten(zss) == MatchAll(env, re, fwd, base, x, xs)
  {
    if xs == [] then []
    else
      assert Follows(env, fwd, x, xs[0]);
      var rest := Continuations(env, re, fwd, base, x, xs[1..]);
      var zss := [Match(env, re, fwd, base, xs[0])] + rest;
      assert zss[1..] == rest;
      zss
  }

  lemma CleanApart(p: Prog, v: seq<int>, w: seq<int>, lo: nat, n: nat, r: nat, lo': nat, n': nat)
    requires Agrees(p, v, w, lo, n, r) && Sane(p, v) && lo' + n' <= p.captures && Clean(v, lo', n')
    requires lo + n <= lo' || lo' + n' <= lo
    ensures Clean(w, lo', n')
  {
  }

  lemma AgreesWiden(p: Prog, v: seq<int>, w: seq<int>, lo: nat, n: nat, r: nat, lo': nat, n': nat)
    requires Agrees(p, v, w, lo, n, r) && lo' <= lo && lo + n <= lo' + n'
    ensures Agrees(p, v, w, lo', n', r)
  {
  }

  lemma CleanPart(v: seq<int>, lo: nat, n: nat, lo': nat, n': nat)
    requires 2 * (lo + n) <= |v| && Clean(v, lo, n) && lo <= lo' && lo' + n' <= lo + n
    ensures Clean(v, lo', n')
  {
  }

  lemma {:induction false} ThenCorrect(p: Prog, re: Re, a: Re, ab: nat, b: Re, bb: nat, fwd: bool, base: nat, r: nat,
                                       pc: int, n: nat, v: seq<int>, x: State)
    requires re.Cat? && a < re && b < re
    requires Placed(p, a, fwd, ab, r, pc, n) && Fits(p, n, v, x) && Applies(p.env, a, ab, x) && Applies(p.env, b, bb, x)
    requires Placed(p, b, fwd, bb, r, pc + Len(Code(p.env.canon, a, fwd, ab, From(r))), n)
    requires base + Count(re) <= p.captures && Clean(v, base, Count(re))
    requires base <= ab && ab + Count(a) <= base + Count(re) && base <= bb && bb + Count(b) <= base + Count(re)
    requires ab + Count(a) <= bb || bb + Count(b) <= ab
    ensures Explores(p, Run(pc, x.pos, v, []),
                     pc + Len(Code(p.env.canon, a, fwd, ab, From(r))) + Len(Code(p.env.canon, b, fwd, bb, From(r))),
                     v, base, Count(re), r, MatchAll(p.env, b, fwd, bb, x, Match(p.env, a, fwd, ab, x)))
    decreases re, 0, 0
  {
    hide Placed, Clean, Code, Match, RegistersBelow, Valid, Holds, Reaches, Rel, AllEnd, Len, Supported, Agrees, Yields, MatchAll;
    FitsSlots(p, n, v, x);
    CleanPart(v, base, Count(re), ab, Count(a));
    var c := Run(pc, x.pos, v, []);
    var mid := pc + Len(Code(p.env.canon, a, fwd, ab, From(r)));
    CodeCorrect(p, a, fwd, ab, r, pc, n, v, x);
    var xs := Match(p.env, a, fwd, ab, x);
    var ts: seq<Exit> :| Yields(p, c, mid, ts) && AllEnd(p, v, ab, Count(a), r, ts, xs);
    ThenAll(p, c, ab, Count(a), b, bb, fwd, base, Count(re), r, mid, n, v, x, ts, xs);
  }

  /** `b` runs from every exit of what comes before it. */
  lemma {:induction false} ThenAll(p: Prog, c: Conf, ab: nat, an: nat, b: Re, bb: nat, fwd: bool, base: nat, count: nat, r: nat,
                                   pc: int, n: nat, v: seq<int>, x: State, ts: seq<Exit>, xs: seq<State>)
    requires Placed(p, b, fwd, bb, r, pc, n) && Sane(p, v) && |v| == 2 * p.captures + n
    requires Yields(p, c, pc, ts) && AllEnd(p, v, ab, an, r, ts, xs)
    requires AllFollow(p.env, fwd, x, xs) && Applies(p.env, b, bb, x)
    requires base + count <= p.captures && Clean(v, base, count)
    requires base <= ab && ab + an <= base + count && base <= bb && bb + Count(b) <= base + count
    requires ab + an <= bb || bb + Count(b) <= ab
    ensures Explores(p, c, pc + Len(Code(p.env.canon, b, fwd, bb, From(r))), v, base, count, r,
                     MatchAll(p.env, b, fwd, bb, x, xs))
    decreases b, 3
  {
    hide Placed, Clean, Code, Match, Valid, Ends, Len, Explores, Yields, MatchAll, Continuations, Flatten;
    var end := pc + Len(Code(p.env.canon, b, fwd, bb, From(r)));
    var zss := Continuations(p.env, b, fwd, bb, x, xs);
    forall i | 0 <= i < |ts|
      ensures Explores(p, Run(pc, ts[i].pos, ts[i].slots, []), end, v, base, count, r, zss[i])
    {
      assert Ends(p, v, ab, an, r, ts[i], xs[i]);
      assert Follows(p.env, fwd, x, xs[i]);
      ThenOne(p, ab, an, b, bb, fwd, base, count, r, pc, n, v, ts[i], xs[i]);
    }
    ExploresEach(p, c, pc, end, ts, v, base, count, r, zss);
  }

  lemma {:induction false} ThenOne(p: Prog, ab: nat, an: nat, b: Re, bb: nat, fwd: bool, base: nat, count: nat, r: nat,
                                   pc: int, n: nat, v: seq<int>, t: Exit, y: State)
    requires Placed(p, b, fwd, bb, r, pc, n) && Sane(p, v) && |v| == 2 * p.captures + n
    requires Ends(p, v, ab, an, r, t, y) && Valid(p.env, y) && Applies(p.env, b, bb, y)
    requires base + count <= p.captures && Clean(v, base, count)
    requires base <= ab && ab + an <= base + count && base <= bb && bb + Count(b) <= base + count
    requires ab + an <= bb || bb + Count(b) <= ab
    ensures Explores(p, Run(pc, t.pos, t.slots, []), pc + Len(Code(p.env.canon, b, fwd, bb, From(r))), v, base, count, r,
                     Match(p.env, b, fwd, bb, y))
    decreases b, 2
  {
    hide Placed, Clean, Code, Match, RegistersBelow, Valid, Rel, Ends, Len, Agrees, Explores;
    CleanPart(v, base, count, bb, Count(b));
    EndsSlots(p, v, ab, an, r, t, y);
    CleanApart(p, v, t.slots, ab, an, r, bb, Count(b));
    CodeCorrect(p, b, fwd, bb, r, pc, n, t.slots, y);
    AgreesWiden(p, v, t.slots, ab, an, r, base, count);
    ExploresSince(p, Run(pc, t.pos, t.slots, []), pc + Len(Code(p.env.canon, b, fwd, bb, From(r))), v, base, count, r,
                  t.slots, bb, Count(b), r, Match(p.env, b, fwd, bb, y));
  }

  lemma FitsSlots(p: Prog, n: nat, v: seq<int>, x: State)
    requires Fits(p, n, v, x)
    ensures Sane(p, v) && |v| == 2 * p.captures + n && |x.caps| == p.captures
  {
  }

  lemma {:induction false} CatCorrect(p: Prog, re: Re, fwd: bool, base: nat, r: nat, pc: int, n: nat, v: seq<int>, x: State)
    requires Placed(p, re, fwd, base, r, pc, n) && Fits(p, n, v, x) && Applies(p.env, re, base, x)
    requires Clean(v, base, Count(re)) && re.Cat?
    ensures Correct(p, re, fwd, base, r, pc, v, x)
    decreases re, 0, 1
  {
    hide Placed, Clean, Code, Match, RegistersBelow, Valid, Fits, Explores, Len, Supported, MatchAll;
    PlacedSupported(p, re, fwd, base, r, pc, n);
    CapturesBounded(p, re, base);
    CatPlaced(p, re, fwd, base, r, pc, n);
    MatchCat(p.env, re, fwd, base, x);
    var rb := base + Count(re.left);
    if fwd {
      ThenCorrect(p, re, re.left, base, re.right, rb, fwd, base, r, pc, n, v, x);
    } else {
      ThenCorrect(p, re, re.right, rb, re.left, base, fwd, base, r, pc, n, v, x);
    }
  }

  lemma {:induction false} AltCorrect(p: Prog, re: Re, fwd: bool, base: nat, r: nat, pc: int, n: nat, v: seq<int>, x: State)
    requires Placed(p, re, fwd, base, r, pc, n) && Fits(p, n, v, x) && Applies(p.env, re, base, x)
    requires Clean(v, base, Count(re)) && re.Alt?
    ensures Correct(p, re, fwd, base, r, pc, v, x)
    decreases re, 0
  {
    hide Placed, Clean, Code, Match, RegistersBelow, Valid, Holds, Reaches, Rel, Len, Supported, Agrees, Step, Explores;
    PlacedSupported(p, re, fwd, base, r, pc, n);
    FitsApplies(p, re, base, n, v, x);
    CapturesBounded(p, re, base);
    AltPlaced(p, re, fwd, base, r, pc, n);
    MatchAlt(p.env, re, fwd, base, x);
    var rb := base + Count(re.left);
    CleanPart(v, base, Count(re), base, Count(re.left));
    CleanPart(v, base, Count(re), rb, Count(re.right));
    var llen := Len(Code(p.env.canon, re.left, fwd, base, From(r)));
    var rlen := Len(Code(p.env.canon, re.right, fwd, rb, From(r)));
    var mid := pc + 5 + llen;
    var end := mid + 5 + rlen;
    var ys := Match(p.env, re.left, fwd, base, x);
    var zs := Match(p.env, re.right, fwd, rb, x);
    CodeCorrect(p, re.left, fwd, base, r, pc + 5, n, v, x);
    CodeCorrect(p, re.right, fwd, rb, r, mid + 5, n, v, x);
    SelfAgrees(p, v, base, Count(re), r);
    ExploresSince(p, Run(pc + 5, x.pos, v, []), mid, v, base, Count(re), r, v, base, Count(re.left), r, ys);
    ExploresSince(p, Run(mid + 5, x.pos, v, []), end, v, base, Count(re), r, v, rb, Count(re.right), r, zs);
    ExploresGoto(p, Run(pc + 5, x.pos, v, []), mid, rlen, v, base, Count(re), r, x, fwd, ys);
    StepSplit(p, pc, true, llen + 5, x.pos, v, []);
    ExploresBranch(p, Run(pc, x.pos, v, []), true, pc + 5, mid + 5, x.pos, v, end, v, base, Count(re), r, ys, zs);
  }

  /** Every exit at `mid` jumps on. */
  lemma ExploresGoto(p: Prog, c: Conf, mid: int, off: int, v: seq<int>, lo: nat, n: nat, r: nat, x: State, fwd: bool, ys: seq<State>)
    requires Explores(p, c, mid, v, lo, n, r, ys) && AllFollow(p.env, fwd, x, ys)
    requires Holds(p, mid, [IGoto(off)]) && Encodable(IGoto(off))
    ensures Explores(p, c, mid + 5 + off, v, lo, n, r, ys)
  {
    hide Holds, Reaches, Ends, Yields, Valid, Step;
    var ts: seq<Exit> :| Yields(p, c, mid, ts) && AllEnd(p, v, lo, n, r, ts, ys);
    forall i | 0 <= i < |ts|
      ensures Reaches(p, Run(mid, ts[i].pos, ts[i].slots, []), Run(mid + 5 + off, ts[i].pos, ts[i].slots, []))
    {
      assert Ends(p, v, lo, n, r, ts[i], ys[i]);
      EndsSlots(p, v, lo, n, r, ts[i], ys[i]);
      assert Follows(p.env, fwd, x, ys[i]);
      PosInRange(p.env, ys[i]);
      StepGoto(p, mid, off, ts[i].pos, ts[i].slots, []);
      ReachesStep(p, Run(mid, ts[i].pos, ts[i].slots, []), Run(mid + 5 + off, ts[i].pos, ts[i].slots, []));
    }
    YieldsNext(p, c, mid, mid + 5 + off, ts, ts);
  }

  // ----- one round of a loop -----

  /** Captures that a simple atom cannot set are never set. */
  predicate Quiet(body: Re, base: nat, v: seq<int>)
    requires 2 * (base + Count(body)) <= |v|
  {
    Simple(body) ==> forall k: nat | base <= k < base + Count(body) && !Sets(body, base, k) :: v[2 * k] == NULL && v[2 * k + 1] == NULL
  }

  predicate QuietExits(body: Re, base: nat, ts: seq<Exit>) {
    forall i | 0 <= i < |ts| :: 2 * (base + Count(body)) <= |ts[i].slots| && Quiet(body, base, ts[i].slots)
  }

  ghost predicate Rounds(p: Prog, c: Conf, end: int, v: seq<int>, body: Re, base: nat, r: nat, ys: seq<State>) {
    exists ts :: Yields(p, c, end, ts) && AllEnd(p, v, base, Count(body), r, ts, ys) && QuietExits(body, base, ts)
  }

  ghost predicate RoundPlaced(p: Prog, body: Re, fwd: bool, base: nat, r: nat, at: int, n: nat) {
    && Supported(p, body, base)
    && Holds(p, at, RoundCode(p.env.canon, body, fwd, base, From(r)))
    && RegistersBelow(RoundCode(p.env.canon, body, fwd, base, From(r)), n)
  }

  lemma ResetNothing(x: State, lo: nat)
    requires lo <= |x.caps|
    ensures Reset(x, lo, 0) == x
  {
    assert Reset(x, lo, 0).caps == x.caps;
  }

  lemma ResetApplies(env: Env, re: Re, base: nat, x: State)
    requires Applies(env, re, base, x)
    ensures Applies(env, re, base, Reset(x, base, Count(re)))
  {
  }

  lemma ResetSlotsRel(p: Prog, v: seq<int>, x: State, lo: nat, n: nat)
    requires Rel(p, v, x) && lo + n <= p.captures
    ensures var w := ResetSlots(v, lo, lo + n - 1);
            Rel(p, w, Reset(x, lo, n)) && Clean(w, lo, n) && forall r: nat :: Agrees(p, v, w, lo, n, r)
  {
    var w := ResetSlots(v, lo, lo + n - 1);
    forall k | 0 <= k < p.captures ensures Visible(w, k) == Reset(x, lo, n).caps[k] {
      assert Visible(v, k) == x.caps[k];
      assert 2 * k / 2 == k && (2 * k + 1) / 2 == k;
    }
  }

  lemma FinishedRel(p: Prog, body: Re, base: nat, v: seq<int>, w: seq<int>, x: State, y: State)
    requires Rel(p, v, x) && base + Count(body) <= p.captures && Simple(body) && Quiet(body, base, v)
    requires Finished(p, body, base, v, w, Reset(x, base, Count(body)), y)
    ensures Rel(p, w, y) && Quiet(body, base, w)
  {
    var x' := Reset(x, base, Count(body));
    forall k: nat | k < p.captures
      ensures Visible(w, k) == y.caps[k]
      ensures base <= k < base + Count(body) && !Sets(body, base, k) ==> w[2 * k] == NULL && w[2 * k + 1] == NULL
    {
      assert Settled(body, base, v, w, x', y, k);
      assert Visible(v, k) == x.caps[k];
      if Sets(body, base, k) {
        SetsInRange(body, base, k);
      }
    }
  }

  lemma {:induction false} RoundCorrect(p: Prog, body: Re, fwd: bool, base: nat, r: nat, at: int, n: nat, v: seq<int>, x: State)
    requires RoundPlaced(p, body, fwd, base, r, at, n) && Fits(p, n, v, x) && Applies(p.env, body, base, x)
    requires Quiet(body, base, v)
    ensures Rounds(p, Run(at, x.pos, v, []), at + Len(RoundCode(p.env.canon, body, fwd, base, From(r))), v, body, base, r,
                   Match(p.env, body, fwd, base, Reset(x, base, Count(body))))
    decreases body, 2
  {
    hide Fits, Applies, Code, Match, RegistersBelow, Holds, Len, Rounds, Quiet, Simple, Supported, Scan;
    SupportedShape(p, body, base);
    ScanFinds(p.env.canon, body, fwd, base, Unset);
    var code := Code(p.env.canon, body, fwd, base, From(r));
    if Count(body) == 0 {
      FitsApplies(p, body, base, n, v, x);
      CapturesBounded(p, body, base);
      assert RoundCode(p.env.canon, body, fwd, base, From(r)) == code;
      ResetNothing(x, base);
      PlainRound(p, body, fwd, base, r, at, n, v, x);
    } else if Simple(body) {
      assert RoundCode(p.env.canon, body, fwd, base, From(r)) == code;
      SimpleRound(p, body, fwd, base, r, at, n, v, x);
    } else {
      assert RoundCode(p.env.canon, body, fwd, base, From(r)) == [ResetOf(body, base)] + code;
      PartAt(p, at, [ResetOf(body, base)], code, n);
      ResetRound(p, body, fwd, base, r, at, n, v, x);
    }
  }

  lemma {:induction false} PlainRound(p: Prog, body: Re, fwd: bool, base: nat, r: nat, at: int, n: nat, v: seq<int>, x: State)
    requires Placed(p, body, fwd, base, r, at, n) && Fits(p, n, v, x) && Applies(p.env, body, base, x) && Count(body) == 0
    ensures Rounds(p, Run(at, x.pos, v, []), at + Len(Code(p.env.canon, body, fwd, base, From(r))), v, body, base, r,
                   Match(p.env, body, fwd, base, x))
    decreases body, 2, 0
  {
    hide Placed, Code, Match, Ends, Yields, Len;
    FitsSlots(p, n, v, x);
    CodeCorrect(p, body, fwd, base, r, at, n, v, x);
    var ts: seq<Exit> :| Yields(p, Run(at, x.pos, v, []), at + Len(Code(p.env.canon, body, fwd, base, From(r))), ts)
                         && AllEnd(p, v, base, Count(body), r, ts, Match(p.env, body, fwd, base, x));
    ExitsQuiet(p, body, base, v, r, ts, Match(p.env, body, fwd, base, x));
  }

  lemma ExitsQuiet(p: Prog, body: Re, base: nat, v: seq<int>, r: nat, ts: seq<Exit>, ys: seq<State>)
    requires AllEnd(p, v, base, Count(body), r, ts, ys) && base + Count(body) <= p.captures
    requires Count(body) == 0 || !Simple(body)
    ensures QuietExits(body, base, ts)
  {
    forall i | 0 <= i < |ts|
      ensures 2 * (base + Count(body)) <= |ts[i].slots| && Quiet(body, base, ts[i].slots)
    {
      assert Ends(p, v, base, Count(body), r, ts[i], ys[i]);
    }
  }

  lemma SimpleRound(p: Prog, body: Re, fwd: bool, base: nat, r: nat, at: int, n: nat, v: seq<int>, x: State)
    requires Placed(p, body, fwd, base, r, at, n) && Fits(p, n, v, x) && Applies(p.env, body, base, x)
    requires Simple(body) && Quiet(body, base, v)
    ensures Rounds(p, Run(at, x.pos, v, []), at + Len(Code(p.env.canon, body, fwd, base, From(r))), v, body, base, r,
                   Match(p.env, body, fwd, base, Reset(x, base, Count(body))))
  {
    hide Code, Match, Yields, Len, Reaches, Simple, Quiet, Sane, Finished, Placed, Ready, Valid;
    var x' := Reset(x, base, Count(body));
    ResetApplies(p.env, body, base, x);
    FitsSlots(p, n, v, x);
    PlacedReady(p, body, fwd, base, r, at, n, v, x');
    SimpleRuns(p, body, fwd, base, From(r), at, v, x');
    var c := Run(at, x.pos, v, []);
    var end := at + Len(Code(p.env.canon, body, fwd, base, From(r)));
    var ys := Match(p.env, body, fwd, base, x');
    if ys == [] {
      YieldsNone(p, c, end);
      assert AllEnd(p, v, base, Count(body), r, [], ys) && QuietExits(body, base, []);
    } else {
      var w :| Reaches(p, c, Run(end, ys[0].pos, w, [])) && Finished(p, body, base, v, w, x', ys[0]);
      YieldsOne(p, c, end, Exit(ys[0].pos, w));
      FinishedRel(p, body, base, v, w, x, ys[0]);
      FinishedAgrees(p, body, base, v, w, x', ys[0], r);
      var ts := [Exit(ys[0].pos, w)];
      assert AllEnd(p, v, base, Count(body), r, ts, ys) && QuietExits(body, base, ts);
    }
  }

  lemma PlacedReady(p: Prog, body: Re, fwd: bool, base: nat, r: nat, at: int, n: nat, v: seq<int>, x: State)
    requires Placed(p, body, fwd, base, r, at, n) && Sane(p, v) && Applies(p.env, body, base, x) && |x.caps| == p.captures
    ensures Ready(p, body, fwd, base, From(r), at, v, x)
  {
    hide Code, Holds, Loaded, RegistersBelow;
  }

  lemma FinishedAgrees(p: Prog, body: Re, base: nat, v: seq<int>, w: seq<int>, x: State, y: State, r: nat)
    requires Finished(p, body, base, v, w, x, y)
    ensures Agrees(p, v, w, base, Count(body), r) && 2 * p.captures <= |w|
  {
  }

  lemma YieldsNone(p: Prog, c: Conf, end: int)
    requires Reaches(p, c, Back([]))
    ensures Yields(p, c, end, [])
  {
  }

  lemma {:induction false} ResetRound(p: Prog, body: Re, fwd: bool, base: nat, r: nat, at: int, n: nat, v: seq<int>, x: State)
    requires Fits(p, n, v, x) && Applies(p.env, body, base, x) && Count(body) != 0 && !Simple(body)
    requires Holds(p, at, [ResetOf(body, base)])
    requires Placed(p, body, fwd, base, r, at + Len([ResetOf(body, base)]), n)
    ensures Rounds(p, Run(at, x.pos, v, []), at + Len([ResetOf(body, base)] + Code(p.env.canon, body, fwd, base, From(r))),
                   v, body, base, r, Match(p.env, body, fwd, base, Reset(x, base, Count(body))))
    decreases body, 2, 0
  {
    hide Code, Match, Ends, Yields, Len, Holds, Reaches, Loaded, RegistersBelow, Agrees, Rel, Clean, Step, Valid, Simple;
    FitsApplies(p, body, base, n, v, x);
    var reset := ResetOf(body, base);
    var code := Code(p.env.canon, body, fwd, base, From(r));
    LenOne(reset);
    LenAppend([reset], code);
    var x' := Reset(x, base, Count(body));
    ResetApplies(p.env, body, base, x);
    CapturesBounded(p, body, base);
    var c, w := Run(at, x.pos, v, []), ResetSlots(v, base, base + Count(body) - 1);
    StepReset(p, at, base, base + Count(body) - 1, x.pos, v, []);
    ReachesStep(p, c, Run(at + 3, x.pos, w, []));
    ResetSlotsRel(p, v, x, base, Count(body));
    CodeCorrect(p, body, fwd, base, r, at + 3, n, w, x');
    var ys := Match(p.env, body, fwd, base, x');
    assert Agrees(p, v, w, base, Count(body), r);
    ExploresSince(p, Run(at + 3, x.pos, w, []), at + 3 + Len(code), v, base, Count(body), r, w, base, Count(body), r, ys);
    ExploresAfter(p, c, Run(at + 3, x.pos, w, []), at + 3 + Len(code), v, base, Count(body), r, ys);
    var ts: seq<Exit> :| Yields(p, c, at + 3 + Len(code), ts) && AllEnd(p, v, base, Count(body), r, ts, ys);
    ExitsQuiet(p, body, base, v, r, ts, ys);
  }

  // ----- loops -----

  /** How far a loop is: `min` and `max` are what RepeatMatcher has left before the next round. */
  predicate Phase(p: Prog, re: Re, check: bool, r: nat, v: seq<int>, min: nat, max: Bound)
    requires re.Quant? && re.min <= re.max
  {
    if Optional(re) then min == 0 && max == if re.max == INFINITE then Infinite else Finite(1)
    else if !Counted(re.min, re.max, check) then min <= 1 && max == Infinite
    else
      && max.Finite? && 1 <= max.n <= re.max
      && 2 * p.captures + r < |v| && v[2 * p.captures + r] == max.n
      && min == if max.n > re.max - re.min then max.n - (re.max - re.min) else 0
  }

  ghost predicate InLoop(p: Prog, re: Re, fwd: bool, base: nat, r: nat, pc: int, n: nat, v: seq<int>, x: State) {
    Looping(p, re, fwd, base, r, pc, n) && re.max != 0 && Fits(p, n, v, x) && Quiet(re.body, base, v)
  }

  /** The code at `at` explores `ys` up to the end of the loop. */
  ghost predicate Leaves(p: Prog, re: Re, fwd: bool, base: nat, r: nat, pc: int, at: int, v: seq<int>, x: State, ys: seq<State>)
    requires WellFormed(re) && re.Quant?
  {
    Explores(p, Run(at, x.pos, v, []), LoopEnds(p, re, fwd, base, r, pc), v, base, Count(re), r, ys)
  }

  lemma LoopApplies(p: Prog, re: Re, fwd: bool, base: nat, r: nat, pc: int, n: nat, v: seq<int>, x: State)
    requires InLoop(p, re, fwd, base, r, pc, n, v, x)
    ensures Applies(p.env, re.body, base, x) && |x.caps| == p.captures && 0 <= x.pos <= p.env.Len()
    ensures Sane(p, v) && |v| == 2 * p.captures + n && Rel(p, v, x) && n <= 255 && Loaded(p) && Valid(p.env, x)
    ensures re.Quant? && WellFormed(re) && Supported(p, re.body, base) && base + Count(re.body) <= p.captures
    ensures re.min <= re.max <= INFINITE && Count(re) == Count(re.body)
  {
  }

  /** Writing a register changes nothing that stands for the state of the matcher. */
  lemma WriteRegister(p: Prog, body: Re, base: nat, n: nat, v: seq<int>, x: State, j: nat, val: int)
    requires Fits(p, n, v, x) && j < n && base + Count(body) <= p.captures && Quiet(body, base, v)
    ensures var w := v[2 * p.captures + j := val];
            Fits(p, n, w, x) && Quiet(body, base, w) && forall lo: nat, k: nat, r: nat | r <= j :: Agrees(p, v, w, lo, k, r)
  {
    var w := v[2 * p.captures + j := val];
    forall k | 0 <= k < p.captures ensures Visible(w, k) == x.caps[k] {
      assert Visible(v, k) == x.caps[k];
    }
  }

  lemma ExitLoop(p: Prog, re: Re, fwd: bool, base: nat, r: nat, pc: int, n: nat, v: seq<int>, x: State)
    requires WellFormed(re) && re.Quant? && Fits(p, n, v, x)
    ensures Leaves(p, re, fwd, base, r, pc, LoopEnds(p, re, fwd, base, r, pc), v, x, [x])
  {
    hide LoopEnds, Explores, Reaches, Rel, Valid;
    var end := LoopEnds(p, re, fwd, base, r, pc);
    ReachesSelf(p, Run(end, x.pos, v, []));
    SelfAgrees(p, v, base, Count(re), r);
    ExploresOne(p, Run(end, x.pos, v, []), end, v, base, Count(re), r, v, x);
  }

  lemma RecordPosition(p: Prog, re: Re, fwd: bool, base: nat, r: nat, pc: int, n: nat, min: nat, max: Bound,
                       v: seq<int>, x: State) returns (w: seq<int>)
    requires InLoop(p, re, fwd, base, r, pc, n, v, x)
    requires WellFormed(re) && Phase(p, re, Check(p, re, fwd, base), r, v, min, max)
    ensures InLoop(p, re, fwd, base, r, pc, n, w, x) && Phase(p, re, Check(p, re, fwd, base), r, w, min, max)
    ensures Agrees(p, v, w, base, Count(re), r)
    ensures Check(p, re, fwd, base) ==> PosReg(re, r) < n && w[2 * p.captures + PosReg(re, r)] == x.pos
    ensures Reaches(p, Run(pc + Head(re, Check(p, re, fwd, base)), x.pos, v, []), Run(RoundAt(p, re, fwd, base, pc), x.pos, w, []))
  {
    hide Looping, Fits, Quiet, Reaches, Agrees, Step, HasCheck, Holds, RoundOf, Len, Before, Behind;
    LoopApplies(p, re, fwd, base, r, pc, n, v, x);
    LoopPlaced(p, re, fwd, base, r, pc, n);
    var head := pc + Head(re, Check(p, re, fwd, base));
    if Check(p, re, fwd, base) {
      var j := PosReg(re, r);
      w := v[2 * p.captures + j := x.pos];
      StepSetPos(p, head, j, x.pos, v, []);
      ReachesStep(p, Run(head, x.pos, v, []), Run(head + 2, x.pos, w, []));
      WriteRegister(p, re.body, base, n, v, x, j, x.pos);
      assert Agrees(p, v, w, base, Count(re), r);
    } else {
      w := v;
      ReachesSelf(p, Run(head, x.pos, v, []));
      SelfAgrees(p, v, base, Count(re), r);
    }
  }

  /** The atom of the loop, run once. */
  lemma {:induction false} RunRound(p: Prog, re: Re, fwd: bool, base: nat, r: nat, pc: int, n: nat, v: seq<int>, x: State)
    returns (ts: seq<Exit>)
    requires InLoop(p, re, fwd, base, r, pc, n, v, x)
    requires WellFormed(re) && Applies(p.env, re.body, base, x)
    ensures Yields(p, Run(RoundAt(p, re, fwd, base, pc), x.pos, v, []), TailAt(p, re, fwd, base, r, pc), ts)
    ensures AllEnd(p, v, base, Count(re.body), Inner(p, re, fwd, base, r), ts,
                   Match(p.env, re.body, fwd, base, Reset(x, base, Count(re.body))))
    ensures QuietExits(re.body, base, ts)
    decreases re.body, 3
  {
    hide Looping, Fits, Quiet, HasCheck, Holds, Len, Before, Behind, Match, Yields, AllEnd, QuietExits, Head, RegistersBelow,
      RoundCode, Supported, Live;
    LoopApplies(p, re, fwd, base, r, pc, n, v, x);
    LoopPlaced(p, re, fwd, base, r, pc, n);
    var at := RoundAt(p, re, fwd, base, pc);
    var inner := Inner(p, re, fwd, base, r);
    RoundCorrect(p, re.body, fwd, base, inner, at, n, v, x);
    ts :| Yields(p, Run(at, x.pos, v, []), TailAt(p, re, fwd, base, r, pc), ts)
          && AllEnd(p, v, base, Count(re.body), inner, ts, Match(p.env, re.body, fwd, base, Reset(x, base, Count(re.body))))
          && QuietExits(re.body, base, ts);
  }

  /** The state in which a round that started in `x` has ended in `y`. */
  ghost predicate RoundDone(p: Prog, re: Re, fwd: bool, base: nat, r: nat, pc: int, n: nat, min: nat, max: Bound,
                            x: State, v: seq<int>, y: State)
  {
    && InLoop(p, re, fwd, base, r, pc, n, v, y) && WellFormed(re) && Applies(p.env, re.body, base, y)
    && Phase(p, re, Check(p, re, fwd, base), r, v, min, max)
    && Valid(p.env, x) && Follows(p.env, fwd, x, y)
    && (Check(p, re, fwd, base) ==> PosReg(re, r) < n && v[2 * p.captures + PosReg(re, r)] == x.pos)
    && (min == 0 && !Check(p, re, fwd, base) ==> y.pos != x.pos)
  }

  lemma PhaseMax(p: Prog, re: Re, check: bool, r: nat, v: seq<int>, min: nat, max: Bound)
    requires re.Quant? && re.min <= re.max && Phase(p, re, check, r, v, min, max)
    ensures max != Finite(0)
  {
  }

  /** An unchecked optional round always moves: the scan has seen to that. */
  lemma UncheckedMoves(p: Prog, re: Re, fwd: bool, base: nat, r: nat, v: seq<int>, min: nat, max: Bound, x: State)
    requires re.Quant? && WellFormed(re) && Applies(p.env, re.body, base, x)
    requires Phase(p, re, Check(p, re, fwd, base), r, v, min, max)
    requires min == 0 && !Check(p, re, fwd, base)
    ensures AllMoved(x.pos, Match(p.env, re.body, fwd, base, Reset(x, base, Count(re.body))))
  {
    hide Match, HasCheck, Advances;
    CheckShape(p, re, fwd, base);
    ResetApplies(p.env, re.body, base, x);
    AdvancesMoves(p.env, re.body, fwd, base, Reset(x, base, Count(re.body)));
  }

  lemma RoundEnded(p: Prog, re: Re, fwd: bool, base: nat, r: nat, pc: int, n: nat, min: nat, max: Bound,
                   x: State, v: seq<int>, t: Exit, y: State)
    requires InLoop(p, re, fwd, base, r, pc, n, v, x)
    requires WellFormed(re) && Phase(p, re, Check(p, re, fwd, base), r, v, min, max)
    requires Check(p, re, fwd, base) ==> PosReg(re, r) < n && v[2 * p.captures + PosReg(re, r)] == x.pos
    requires Ends(p, v, base, Count(re.body), Inner(p, re, fwd, base, r), t, y) && Follows(p.env, fwd, x, y)
    requires Quiet(re.body, base, t.slots)
    requires min == 0 && !Check(p, re, fwd, base) ==> y.pos != x.pos
    ensures RoundDone(p, re, fwd, base, r, pc, n, min, max, x, t.slots, y)
    ensures Agrees(p, v, t.slots, base, Count(re), r)
  {
    hide Looping, Quiet, HasCheck, Visible;
    LoopApplies(p, re, fwd, base, r, pc, n, v, x);
  }

  /** The start of a round: record the position if it is checked, run the atom, go on from each exit. */
  lemma {:induction false} Enter(p: Prog, re: Re, fwd: bool, base: nat, r: nat, pc: int, n: nat, min: nat, max: Bound,
                                 v: seq<int>, x: State)
    requires InLoop(p, re, fwd, base, r, pc, n, v, x) && Valid(p.env, x) && Applies(p.env, re.body, base, x)
    requires WellFormed(re) && Phase(p, re, Check(p, re, fwd, base), r, v, min, max)
    ensures max != Finite(0)
    ensures Leaves(p, re, fwd, base, r, pc, pc + Head(re, Check(p, re, fwd, base)), v, x,
                   Round(p.env, re.body, fwd, base, min, max, re.greedy, x))
    decreases re.body, 4, min, Distance(p.env, fwd, x), 3
  {
    hide InLoop, Check, Head, RoundAt, TailAt, LoopEnds, Explores, Match, Reaches, Agrees, Round, AllEnd, Yields, QuietExits, Phase;
    LoopApplies(p, re, fwd, base, r, pc, n, v, x);
    PhaseMax(p, re, Check(p, re, fwd, base), r, v, min, max);
    var w := RecordPosition(p, re, fwd, base, r, pc, n, min, max, v, x);
    LoopApplies(p, re, fwd, base, r, pc, n, w, x);
    var ts := RunRound(p, re, fwd, base, r, pc, n, w, x);
    var c := Run(RoundAt(p, re, fwd, base, pc), x.pos, w, []);
    var ys := Match(p.env, re.body, fwd, base, Reset(x, base, Count(re.body)));
    RoundIsTails(p.env, re.body, fwd, base, min, max, re.greedy, x);
    EnterAll(p, re, fwd, base, r, pc, n, min, max, w, x, c, ts, ys);
    var end := LoopEnds(p, re, fwd, base, r, pc);
    var zs := Round(p.env, re.body, fwd, base, min, max, re.greedy, x);
    ExploresSince(p, c, end, v, base, Count(re), r, w, base, Count(re), r, zs);
    ExploresAfter(p, Run(pc + Head(re, Check(p, re, fwd, base)), x.pos, v, []), c, end, v, base, Count(re), r, zs);
  }

  lemma {:induction false} EnterAll(p: Prog, re: Re, fwd: bool, base: nat, r: nat, pc: int, n: nat, min: nat, max: Bound,
                                    w: seq<int>, x: State, c: Conf, ts: seq<Exit>, ys: seq<State>)
    requires InLoop(p, re, fwd, base, r, pc, n, w, x) && Valid(p.env, x) && Applies(p.env, re.body, base, x)
    requires WellFormed(re) && Phase(p, re, Check(p, re, fwd, base), r, w, min, max) && max != Finite(0)
    requires Check(p, re, fwd, base) ==> PosReg(re, r) < n && 2 * p.captures + n == |w| && w[2 * p.captures + PosReg(re, r)] == x.pos
    requires Yields(p, c, TailAt(p, re, fwd, base, r, pc), ts) && QuietExits(re.body, base, ts)
    requires ys == Match(p.env, re.body, fwd, base, Reset(x, base, Count(re.body))) && AllFollow(p.env, fwd, x, ys)
    requires AllEnd(p, w, base, Count(re.body), Inner(p, re, fwd, base, r), ts, ys)
    ensures Explores(p, c, LoopEnds(p, re, fwd, base, r, pc), w, base, Count(re), r,
                     Flatten(Tails(p.env, re.body, fwd, base, min, max, re.greedy, x, ys)))
    decreases re.body, 4, min, Distance(p.env, fwd, x), 2
  {
    hide InLoop, Check, TailAt, LoopEnds, Explores, Match, Agrees, Yields, Phase, Ends, Tail, Tails, Flatten, Quiet, RoundDone, Inner;
    LoopApplies(p, re, fwd, base, r, pc, n, w, x);
    var zss := Tails(p.env, re.body, fwd, base, min, max, re.greedy, x, ys);
    var tail, end := TailAt(p, re, fwd, base, r, pc), LoopEnds(p, re, fwd, base, r, pc);
    if min == 0 && !Check(p, re, fwd, base) {
      UncheckedMoves(p, re, fwd, base, r, w, min, max, x);
    }
    forall i | 0 <= i < |ts|
      ensures Explores(p, Run(tail, ts[i].pos, ts[i].slots, []), end, w, base, Count(re), r, zss[i])
    {
      assert Ends(p, w, base, Count(re.body), Inner(p, re, fwd, base, r), ts[i], ys[i]);
      assert Follows(p.env, fwd, x, ys[i]);
      EndsSlots(p, w, base, Count(re.body), Inner(p, re, fwd, base, r), ts[i], ys[i]);
      RoundEnded(p, re, fwd, base, r, pc, n, min, max, x, w, ts[i], ys[i]);
      AfterRound(p, re, fwd, base, r, pc, n, min, max, x, ts[i].slots, ys[i]);
      ExploresSince(p, Run(tail, ts[i].pos, ts[i].slots, []), end, w, base, Count(re), r, ts[i].slots, base, Count(re), r, zss[i]);
    }
    ExploresEach(p, c, tail, end, ts, w, base, Count(re), r, zss);
  }

  lemma {:induction false} AfterRound(p: Prog, re: Re, fwd: bool, base: nat, r: nat, pc: int, n: nat, min: nat, max: Bound,
                                      x: State, v: seq<int>, y: State)
    requires RoundDone(p, re, fwd, base, r, pc, n, min, max, x, v, y) && max != Finite(0)
    ensures Leaves(p, re, fwd, base, r, pc, TailAt(p, re, fwd, base, r, pc), v, y,
                   Tail(p.env, re.body, fwd, base, min, max, re.greedy, x, y))
    decreases re.body, 4, min, Distance(p.env, fwd, x), 1
  {
    hide InLoop, Check, TailAt, Leaves, Phase, Tail, Follows, Valid;
    LoopApplies(p, re, fwd, base, r, pc, n, v, y);
    if Optional(re) {
      AfterOptional(p, re, fwd, base, r, pc, n, min, max, x, v, y);
    } else if !Counted(re.min, re.max, Check(p, re, fwd, base)) {
      AfterPlus(p, re, fwd, base, r, pc, n, min, max, x, v, y);
    } else {
      AfterCounted(p, re, fwd, base, r, pc, n, min, max, x, v, y);
    }
  }

  lemma RepeatIs(env: Env, body: Re, fwd: bool, base: nat, min: nat, max: Bound, greedy: bool, x: State)
    requires Applies(env, body, base, x)
    ensures var again := if max == Finite(0) then [] else Round(env, body, fwd, base, min, max, greedy, x);
            Repeat(env, body, fwd, base, min, max, greedy, x) ==
            if max == Finite(0) then [x] else if min != 0 then again else if greedy then again + [x] else [x] + again
  {
    hide Round;
  }

  lemma LeavesAfter(p: Prog, re: Re, fwd: bool, base: nat, r: nat, pc: int, at: int, v: seq<int>, at': int, w: seq<int>,
                    x: State, ys: seq<State>)
    requires WellFormed(re) && re.Quant?
    requires Reaches(p, Run(at, x.pos, v, []), Run(at', x.pos, w, [])) && Agrees(p, v, w, base, Count(re), r)
    requires Leaves(p, re, fwd, base, r, pc, at', w, x, ys)
    ensures Leaves(p, re, fwd, base, r, pc, at, v, x, ys)
  {
    hide Explores, Reaches, Agrees, LoopEnds;
    var end := LoopEnds(p, re, fwd, base, r, pc);
    ExploresSince(p, Run(at', x.pos, w, []), end, v, base, Count(re), r, w, base, Count(re), r, ys);
    ExploresAfter(p, Run(at, x.pos, v, []), Run(at', x.pos, w, []), end, v, base, Count(re), r, ys);
  }

  lemma LeavesBranch(p: Prog, re: Re, fwd: bool, base: nat, r: nat, pc: int, at: int, v: seq<int>,
                     nextFirst: bool, next: int, target: int, w: seq<int>, x: State, ys: seq<State>, zs: seq<State>)
    requires WellFormed(re) && re.Quant?
    requires Step(p, Run(at, x.pos, v, [])) == Branch(nextFirst, next, target, x.pos, w, [])
    requires Agrees(p, v, w, base, Count(re), r)
    requires Leaves(p, re, fwd, base, r, pc, next, w, x, ys) && Leaves(p, re, fwd, base, r, pc, target, w, x, zs)
    ensures Leaves(p, re, fwd, base, r, pc, at, v, x, if nextFirst then ys + zs else zs + ys)
  {
    hide Explores, Agrees, LoopEnds, Step, Branch;
    var end := LoopEnds(p, re, fwd, base, r, pc);
    ExploresSince(p, Run(next, x.pos, w, []), end, v, base, Count(re), r, w, base, Count(re), r, ys);
    ExploresSince(p, Run(target, x.pos, w, []), end, v, base, Count(re), r, w, base, Count(re), r, zs);
    ExploresBranch(p, Run(at, x.pos, v, []), nextFirst, next, target, x.pos, w, end, v, base, Count(re), r, ys, zs);
  }

  lemma LeavesNone(p: Prog, re: Re, fwd: bool, base: nat, r: nat, pc: int, at: int, v: seq<int>, x: State)
    requires WellFormed(re) && re.Quant? && Step(p, Run(at, x.pos, v, [])) == Back([])
    ensures Leaves(p, re, fwd, base, r, pc, at, v, x, [])
  {
    hide Explores, Step, LoopEnds;
    ReachesStep(p, Run(at, x.pos, v, []), Back([]));
    ExploresNone(p, Run(at, x.pos, v, []), LoopEnds(p, re, fwd, base, r, pc), v, base, Count(re), r);
  }

  /** `?` and `*`: the choice before each round. */
  lemma {:induction false} OptionalHead(p: Prog, re: Re, fwd: bool, base: nat, r: nat, pc: int, n: nat, v: seq<int>, x: State)
    requires InLoop(p, re, fwd, base, r, pc, n, v, x) && Valid(p.env, x) && Applies(p.env, re.body, base, x)
    requires WellFormed(re) && re.Quant? && Optional(re)
    ensures var max := if re.max == INFINITE then Infinite else Finite(1);
            Leaves(p, re, fwd, base, r, pc, pc, v, x, Repeat(p.env, re.body, fwd, base, 0, max, re.greedy, x))
    decreases re.body, 4, 0, Distance(p.env, fwd, x), 4
  {
    hide InLoop, HasCheck, Leaves, Repeat, Round, Step, Holds, Len, RoundOf, Behind, LoopEnds, Agrees, Branch, RegistersBelow, Valid;
    LoopApplies(p, re, fwd, base, r, pc, n, v, x);
    InLoopLooping(p, re, fwd, base, r, pc, n, v, x);
    LoopPlaced(p, re, fwd, base, r, pc, n);
    var check := Check(p, re, fwd, base);
    var max := if re.max == INFINITE then Infinite else Finite(1);
    var len := Len(RoundOf(p, re, fwd, base, r));
    LenFacts(re, check, r, len);
    var end := LoopEnds(p, re, fwd, base, r, pc);
    Enter(p, re, fwd, base, r, pc, n, 0, max, v, x);
    ExitLoop(p, re, fwd, base, r, pc, n, v, x);
    StepSplit(p, pc, re.greedy, len + 5 * Bit(re.max == INFINITE) + 4 * Bit(check), x.pos, v, []);
    SelfAgrees(p, v, base, Count(re), r);
    LeavesBranch(p, re, fwd, base, r, pc, pc, v, re.greedy, pc + 5, end, v, x,
                 Round(p.env, re.body, fwd, base, 0, max, re.greedy, x), [x]);
    RepeatIs(p.env, re.body, fwd, base, 0, max, re.greedy, x);
  }

  lemma InLoopLooping(p: Prog, re: Re, fwd: bool, base: nat, r: nat, pc: int, n: nat, v: seq<int>, x: State)
    requires InLoop(p, re, fwd, base, r, pc, n, v, x)
    ensures Looping(p, re, fwd, base, r, pc, n) && re.max != 0 && Fits(p, n, v, x)
    ensures base + Count(re.body) <= p.captures && 2 * p.captures <= |v| && Quiet(re.body, base, v)
    ensures |p.code| <= CODE_MAX
  {
  }

  lemma {:induction false} AfterOptional(p: Prog, re: Re, fwd: bool, base: nat, r: nat, pc: int, n: nat, min: nat, max: Bound,
                                         x: State, v: seq<int>, y: State)
    requires RoundDone(p, re, fwd, base, r, pc, n, min, max, x, v, y) && max != Finite(0) && Optional(re)
    ensures Leaves(p, re, fwd, base, r, pc, TailAt(p, re, fwd, base, r, pc), v, y,
                   Tail(p.env, re.body, fwd, base, min, max, re.greedy, x, y))
    decreases re.body, 4, min, Distance(p.env, fwd, x), 0
  {
    hide InLoop, HasCheck, Leaves, Repeat, Round, Step, Holds, Len, RoundOf, Before, LoopEnds, Agrees, RegistersBelow, Valid, Reaches;
    LoopApplies(p, re, fwd, base, r, pc, n, v, y);
    InLoopLooping(p, re, fwd, base, r, pc, n, v, y);
    LoopPlaced(p, re, fwd, base, r, pc, n);
    var check := Check(p, re, fwd, base);
    var again := re.max == INFINITE;
    var len := Len(RoundOf(p, re, fwd, base, r));
    var off := -(5 + 2 * Bit(check) + len + 2 * Bit(check) + 5);
    LenFacts(re, check, r, len);
    LenIf(check, ICheckAdvance(r));
    var tail := TailAt(p, re, fwd, base, r, pc);
    var tail' := tail + 2 * Bit(check);
    PartAt(p, tail, If(check, ICheckAdvance(r)), If(again, IGoto(off)), n);
    SelfAgrees(p, v, base, Count(re), r);
    if check {
      OneAt(p, tail, ICheckAdvance(r), n);
      StepCheckAdvance(p, tail, r, y.pos, v, []);
    }
    if y.pos == x.pos {
      LeavesNone(p, re, fwd, base, r, pc, tail, v, y);
    } else {
      AfterAdvance(p, re, fwd, base, r, pc, n, v, y, tail', x);
      if check {
        ReachesStep(p, Run(tail, y.pos, v, []), Run(tail', y.pos, v, []));
        LeavesAfter(p, re, fwd, base, r, pc, tail, v, tail', v, y,
                    Repeat(p.env, re.body, fwd, base, 0, if again then Infinite else Finite(0), re.greedy, y));
      }
    }
  }

  /** After an optional round that moved: back to the choice, or out. */
  lemma {:induction false} AfterAdvance(p: Prog, re: Re, fwd: bool, base: nat, r: nat, pc: int, n: nat,
                                        v: seq<int>, y: State, at: int, x: State)
    requires InLoop(p, re, fwd, base, r, pc, n, v, y) && WellFormed(re) && Applies(p.env, re.body, base, y) && Optional(re)
    requires at == TailAt(p, re, fwd, base, r, pc) + 2 * Bit(Check(p, re, fwd, base))
    requires var len := Len(RoundOf(p, re, fwd, base, r));
             var check := 2 * Bit(Check(p, re, fwd, base));
             Holds(p, at, If(re.max == INFINITE, IGoto(-(5 + check + len + check + 5))))
             && LoopEnds(p, re, fwd, base, r, pc) == at + 5 * Bit(re.max == INFINITE)
    requires Valid(p.env, x) && Follows(p.env, fwd, x, y) && y.pos != x.pos
    ensures Leaves(p, re, fwd, base, r, pc, at, v, y,
                   Repeat(p.env, re.body, fwd, base, 0, if re.max == INFINITE then Infinite else Finite(0), re.greedy, y))
    decreases re.body, 4, 0, Distance(p.env, fwd, y), 5
  {
    hide InLoop, HasCheck, Leaves, Repeat, Round, Step, Holds, Len, RoundOf, LoopEnds, Agrees, Valid, Reaches;
    LoopApplies(p, re, fwd, base, r, pc, n, v, y);
    InLoopLooping(p, re, fwd, base, r, pc, n, v, y);
    if re.max == INFINITE {
      LoopPlaced(p, re, fwd, base, r, pc, n);
      var off := pc - (at + 5);
      StepGoto(p, at, off, y.pos, v, []);
      ReachesStep(p, Run(at, y.pos, v, []), Run(pc, y.pos, v, []));
      OptionalHead(p, re, fwd, base, r, pc, n, v, y);
      SelfAgrees(p, v, base, Count(re), r);
      LeavesAfter(p, re, fwd, base, r, pc, at, v, pc, v, y, Repeat(p.env, re.body, fwd, base, 0, Infinite, re.greedy, y));
    } else {
      RepeatIs(p.env, re.body, fwd, base, 0, Finite(0), re.greedy, y);
      ExitLoop(p, re, fwd, base, r, pc, n, v, y);
    }
  }

  /** `+` with an atom that always moves. */
  lemma {:induction false} AfterPlus(p: Prog, re: Re, fwd: bool, base: nat, r: nat, pc: int, n: nat, min: nat, max: Bound,
                                     x: State, v: seq<int>, y: State)
    requires RoundDone(p, re, fwd, base, r, pc, n, min, max, x, v, y) && max != Finite(0)
    requires !Optional(re) && !Counted(re.min, re.max, Check(p, re, fwd, base))
    ensures Leaves(p, re, fwd, base, r, pc, TailAt(p, re, fwd, base, r, pc), v, y,
                   Tail(p.env, re.body, fwd, base, min, max, re.greedy, x, y))
    decreases re.body, 4, min, Distance(p.env, fwd, x), 0
  {
    hide InLoop, HasCheck, Leaves, Repeat, Round, Step, Holds, Len, RoundOf, Before, LoopEnds, Agrees, RegistersBelow, Reaches, Branch;
    LoopApplies(p, re, fwd, base, r, pc, n, v, y);
    InLoopLooping(p, re, fwd, base, r, pc, n, v, y);
    LoopPlaced(p, re, fwd, base, r, pc, n);
    var len: int := Len(RoundOf(p, re, fwd, base, r));
    LenFacts(re, false, r, len);
    var tail, end := TailAt(p, re, fwd, base, r, pc), LoopEnds(p, re, fwd, base, r, pc);
    StepSplit(p, tail, !re.greedy, -(len + 5), y.pos, v, []);
    Enter(p, re, fwd, base, r, pc, n, 0, Infinite, v, y);
    ExitLoop(p, re, fwd, base, r, pc, n, v, y);
    SelfAgrees(p, v, base, Count(re), r);
    LeavesBranch(p, re, fwd, base, r, pc, tail, v, !re.greedy, end, pc, v, y, [y],
                 Round(p.env, re.body, fwd, base, 0, Infinite, re.greedy, y));
    RepeatIs(p.env, re.body, fwd, base, 0, Infinite, re.greedy, y);
  }

  /** The counter after one more round. */
  lemma CountDown(p: Prog, re: Re, fwd: bool, base: nat, r: nat, pc: int, n: nat, min: nat, max: Bound,
                  x: State, v: seq<int>, y: State) returns (w: seq<int>)
    requires RoundDone(p, re, fwd, base, r, pc, n, min, max, x, v, y)
    requires !Optional(re) && Counted(re.min, re.max, Check(p, re, fwd, base))
    ensures max.Finite? && 1 <= max.n <= INFINITE && 2 * p.captures + r < |v| == 2 * p.captures + n && v[2 * p.captures + r] == max.n
    ensures w == v[2 * p.captures + r := max.n - 1]
    ensures InLoop(p, re, fwd, base, r, pc, n, w, y) && Agrees(p, v, w, base, Count(re), r)
    ensures max.n > 1 ==> Phase(p, re, Check(p, re, fwd, base), r, w, if min == 0 then 0 else min - 1, Finite(max.n - 1))
  {
    hide Looping, Fits, Quiet, HasCheck, Agrees, Follows, Valid;
    LoopApplies(p, re, fwd, base, r, pc, n, v, y);
    w := v[2 * p.captures + r := max.n - 1];
    WriteRegister(p, re.body, base, n, v, y, r, max.n - 1);
    assert Agrees(p, v, w, base, Count(re), r);
  }

  lemma {:induction false} AfterCounted(p: Prog, re: Re, fwd: bool, base: nat, r: nat, pc: int, n: nat, min: nat, max: Bound,
                                        x: State, v: seq<int>, y: State)
    requires RoundDone(p, re, fwd, base, r, pc, n, min, max, x, v, y) && max != Finite(0)
    requires !Optional(re) && Counted(re.min, re.max, Check(p, re, fwd, base))
    ensures Leaves(p, re, fwd, base, r, pc, TailAt(p, re, fwd, base, r, pc), v, y,
                   Tail(p.env, re.body, fwd, base, min, max, re.greedy, x, y))
    decreases re.body, 4, min, Distance(p.env, fwd, x), 0
  {
    hide InLoop, HasCheck, Leaves, Repeat, Round, Step, Holds, Len, RoundOf, Before, LoopEnds, Agrees, RegistersBelow, Reaches, Branch,
      Behind, Valid;
    LoopApplies(p, re, fwd, base, r, pc, n, v, y);
    var w := CountDown(p, re, fwd, base, r, pc, n, min, max, x, v, y);
    LoopApplies(p, re, fwd, base, r, pc, n, w, y);
    InLoopLooping(p, re, fwd, base, r, pc, n, w, y);
    var min', max' := if min == 0 then 0 else min - 1, Finite(max.n - 1);
    ExitLoop(p, re, fwd, base, r, pc, n, w, y);
    if max.n > 1 && (min != 0 || y.pos != x.pos) {
      Enter(p, re, fwd, base, r, pc, n, min', max', w, y);
    }
    if min != 0 || y.pos != x.pos {
      RepeatIs(p.env, re.body, fwd, base, min', max', re.greedy, y);
    }
    if re.min == re.max {
      LoopBack(p, re, fwd, base, r, pc, n, min, max, x, v, w, y);
    } else {
      LoopSplitBack(p, re, fwd, base, r, pc, n, min, max, x, v, w, y);
    }
  }

  lemma LoopBack(p: Prog, re: Re, fwd: bool, base: nat, r: nat, pc: int, n: nat, min: nat, max: Bound,
                 x: State, v: seq<int>, w: seq<int>, y: State)
    requires RoundDone(p, re, fwd, base, r, pc, n, min, max, x, v, y)
    requires !Optional(re) && Counted(re.min, re.max, Check(p, re, fwd, base)) && re.min == re.max
    requires max.Finite? && 1 <= max.n <= INFINITE && 2 * p.captures + r < |v| && v[2 * p.captures + r] == max.n
    requires w == v[2 * p.captures + r := max.n - 1] && Agrees(p, v, w, base, Count(re), r)
    requires Leaves(p, re, fwd, base, r, pc, LoopEnds(p, re, fwd, base, r, pc), w, y, [y])
    requires max.n > 1 ==> Leaves(p, re, fwd, base, r, pc, pc + Head(re, Check(p, re, fwd, base)), w, y,
                                  Round(p.env, re.body, fwd, base, max.n - 1, Finite(max.n - 1), re.greedy, y))
    ensures Leaves(p, re, fwd, base, r, pc, TailAt(p, re, fwd, base, r, pc), v, y,
                   Tail(p.env, re.body, fwd, base, min, max, re.greedy, x, y))
  {
    hide InLoop, HasCheck, Leaves, Repeat, Round, Step, Holds, Len, RoundOf, Before, LoopEnds, Agrees, RegistersBelow, Reaches, Valid;
    LoopApplies(p, re, fwd, base, r, pc, n, v, y);
    InLoopLooping(p, re, fwd, base, r, pc, n, v, y);
    LoopPlaced(p, re, fwd, base, r, pc, n);
    var len: int := Len(RoundOf(p, re, fwd, base, r));
    LenFacts(re, false, r, len);
    var tail, end := TailAt(p, re, fwd, base, r, pc), LoopEnds(p, re, fwd, base, r, pc);
    RepeatIs(p.env, re.body, fwd, base, max.n - 1, Finite(max.n - 1), re.greedy, y);
    StepLoop(p, tail, r, -(len + 6), y.pos, v, []);
    var next := if max.n > 1 then pc + 6 else end;
    ReachesStep(p, Run(tail, y.pos, v, []), Run(next, y.pos, w, []));
    LeavesAfter(p, re, fwd, base, r, pc, tail, v, next, w, y,
                if max.n > 1 then Round(p.env, re.body, fwd, base, max.n - 1, Finite(max.n - 1), re.greedy, y) else [y]);
  }

  lemma LoopSplitBack(p: Prog, re: Re, fwd: bool, base: nat, r: nat, pc: int, n: nat, min: nat, max: Bound,
                      x: State, v: seq<int>, w: seq<int>, y: State)
    requires RoundDone(p, re, fwd, base, r, pc, n, min, max, x, v, y)
    requires !Optional(re) && Counted(re.min, re.max, Check(p, re, fwd, base)) && re.min != re.max
    requires max.Finite? && 1 <= max.n <= INFINITE && 2 * p.captures + r < |v| && v[2 * p.captures + r] == max.n
    requires w == v[2 * p.captures + r := max.n - 1] && Agrees(p, v, w, base, Count(re), r)
    requires Leaves(p, re, fwd, base, r, pc, LoopEnds(p, re, fwd, base, r, pc), w, y, [y])
    requires max.n > 1 && (min != 0 || y.pos != x.pos) ==>
               Leaves(p, re, fwd, base, r, pc, pc + Head(re, Check(p, re, fwd, base)), w, y,
                      Round(p.env, re.body, fwd, base, if min == 0 then 0 else min - 1, Finite(max.n - 1), re.greedy, y))
    ensures Leaves(p, re, fwd, base, r, pc, TailAt(p, re, fwd, base, r, pc), v, y,
                   Tail(p.env, re.body, fwd, base, min, max, re.greedy, x, y))
  {
    hide InLoop, HasCheck, Leaves, Repeat, Round, Step, Holds, Len, RoundOf, Before, LoopEnds, Agrees, RegistersBelow, Reaches, Valid, Branch;
    LoopApplies(p, re, fwd, base, r, pc, n, v, y);
    InLoopLooping(p, re, fwd, base, r, pc, n, v, y);
    LoopPlaced(p, re, fwd, base, r, pc, n);
    var check := Check(p, re, fwd, base);
    var len: int := Len(RoundOf(p, re, fwd, base, r));
    LenFacts(re, check, r, len);
    var tail, end := TailAt(p, re, fwd, base, r, pc), LoopEnds(p, re, fwd, base, r, pc);
    var limit := re.max - re.min;
    OneAt(p, tail, ILoopSplit(check, !re.greedy, r, limit, -(2 * Bit(check) + len + 10)), n);
    StepLoopSplit(p, tail, check, !re.greedy, r, limit, -(2 * Bit(check) + len + 10), y.pos, v, []);
    var head := pc + Head(re, check);
    if min == 0 && y.pos == x.pos {
      LeavesNone(p, re, fwd, base, r, pc, tail, v, y);
    } else {
      var min', max' := if min == 0 then 0 else min - 1, Finite(max.n - 1);
      RepeatIs(p.env, re.body, fwd, base, min', max', re.greedy, y);
      if max.n == 1 {
        ReachesStep(p, Run(tail, y.pos, v, []), Run(end, y.pos, w, []));
        LeavesAfter(p, re, fwd, base, r, pc, tail, v, end, w, y, [y]);
      } else if max.n - 1 > limit {
        var again := Round(p.env, re.body, fwd, base, min', max', re.greedy, y);
        ReachesStep(p, Run(tail, y.pos, v, []), Run(head, y.pos, w, []));
        LeavesAfter(p, re, fwd, base, r, pc, tail, v, head, w, y, again);
      } else {
        var again := Round(p.env, re.body, fwd, base, min', max', re.greedy, y);
        LeavesBranch(p, re, fwd, base, r, pc, tail, v, !re.greedy, end, head, w, y, [y], again);
      }
    }
  }

  /** A counted loop from its first instruction: set the counter, with a choice first if no
      round is mandatory. */
  lemma {:induction false} CountedHead(p: Prog, re: Re, fwd: bool, base: nat, r: nat, pc: int, n: nat, v: seq<int>, x: State)
    requires InLoop(p, re, fwd, base, r, pc, n, v, x) && Valid(p.env, x) && Applies(p.env, re.body, base, x)
    requires WellFormed(re) && !Optional(re) && Counted(re.min, re.max, Check(p, re, fwd, base))
    ensures Leaves(p, re, fwd, base, r, pc, pc, v, x,
                   Repeat(p.env, re.body, fwd, base, re.min, Finite(re.max), re.greedy, x))
    decreases re, 0, 0
  {
    hide InLoop, HasCheck, Leaves, Repeat, Round, Step, Holds, Len, RoundOf, LoopEnds, Agrees, RegistersBelow, Reaches, Valid, Branch,
      Behind;
    LoopApplies(p, re, fwd, base, r, pc, n, v, x);
    InLoopLooping(p, re, fwd, base, r, pc, n, v, x);
    LoopPlaced(p, re, fwd, base, r, pc, n);
    var check := Check(p, re, fwd, base);
    var len: int := Len(RoundOf(p, re, fwd, base, r));
    LenFacts(re, check, r, len);
    var split := ISplit(re.greedy, 6 + 2 * Bit(check) + len + 10);
    LenIf(re.min == 0, split);
    PartAt(p, pc, If(re.min == 0, split), [ISetCounter(r, re.max)], n);
    var at := pc + 5 * Bit(re.min == 0);
    OneAt(p, at, ISetCounter(r, re.max), n);
    var w := v[2 * p.captures + r := re.max];
    var max := Finite(re.max);
    WriteRegister(p, re.body, base, n, v, x, r, re.max);
    assert InLoop(p, re, fwd, base, r, pc, n, w, x) by { InLoopAgain(p, re, fwd, base, r, pc, n, v, w, x); }
    Enter(p, re, fwd, base, r, pc, n, re.min, max, w, x);
    StepSetCounter(p, at, r, re.max, x.pos, v, []);
    ReachesStep(p, Run(at, x.pos, v, []), Run(at + 6, x.pos, w, []));
    assert Agrees(p, v, w, base, Count(re), r);
    var again := Round(p.env, re.body, fwd, base, re.min, max, re.greedy, x);
    LeavesAfter(p, re, fwd, base, r, pc, at, v, at + 6, w, x, again);
    RepeatIs(p.env, re.body, fwd, base, re.min, max, re.greedy, x);
    if re.min == 0 {
      StepSplit(p, pc, re.greedy, split.off, x.pos, v, []);
      ExitLoop(p, re, fwd, base, r, pc, n, v, x);
      SelfAgrees(p, v, base, Count(re), r);
      LeavesBranch(p, re, fwd, base, r, pc, pc, v, re.greedy, at, LoopEnds(p, re, fwd, base, r, pc), v, x, again, [x]);
    }
  }

  lemma InLoopAgain(p: Prog, re: Re, fwd: bool, base: nat, r: nat, pc: int, n: nat, v: seq<int>, w: seq<int>, x: State)
    requires InLoop(p, re, fwd, base, r, pc, n, v, x) && Fits(p, n, w, x)
    requires base + Count(re.body) <= p.captures && 2 * p.captures <= |w| && Quiet(re.body, base, w)
    ensures InLoop(p, re, fwd, base, r, pc, n, w, x)
  {
    hide Looping, Fits, Quiet;
  }

  lemma {:induction false} LoopCorrect(p: Prog, re: Re, fwd: bool, base: nat, r: nat, pc: int, n: nat, v: seq<int>, x: State)
    requires Looping(p, re, fwd, base, r, pc, n) && Fits(p, n, v, x) && Valid(p.env, x) && Applies(p.env, re, base, x)
    requires re.Quant? && WellFormed(re) && base + Count(re.body) <= p.captures && 2 * p.captures <= |v| && Quiet(re.body, base, v)
    ensures Leaves(p, re, fwd, base, r, pc, pc, v, x,
                   Repeat(p.env, re.body, fwd, base, re.min, Upper(re.max), re.greedy, x))
    decreases re, 0, 1
  {
    hide Looping, HasCheck, Leaves, Repeat, Round, Valid, Fits, Quiet, LoopEnds;
    if re.max == 0 {
      NoRoundsEnds(p, re, fwd, base, r, pc);
      ExitLoop(p, re, fwd, base, r, pc, n, v, x);
      RepeatIs(p.env, re.body, fwd, base, re.min, Finite(0), re.greedy, x);
    } else if Optional(re) {
      OptionalHead(p, re, fwd, base, r, pc, n, v, x);
    } else if !Counted(re.min, re.max, Check(p, re, fwd, base)) {
      Enter(p, re, fwd, base, r, pc, n, 1, Infinite, v, x);
      RepeatIs(p.env, re.body, fwd, base, 1, Infinite, re.greedy, x);
    } else {
      CountedHead(p, re, fwd, base, r, pc, n, v, x);
      if re.max == INFINITE {
        DistanceBound(p, re, fwd, base, r, pc, n, x);
        FiniteSuffices(p.env, re.body, fwd, base, re.min, INFINITE, re.greedy, x);
      }
    }
  }

  lemma NoRoundsEnds(p: Prog, re: Re, fwd: bool, base: nat, r: nat, pc: int)
    requires WellFormed(re) && re.Quant? && re.max == 0
    ensures LoopEnds(p, re, fwd, base, r, pc) == pc
  {
    hide HasCheck, RoundOf;
  }

  lemma DistanceBound(p: Prog, re: Re, fwd: bool, base: nat, r: nat, pc: int, n: nat, x: State)
    requires Looping(p, re, fwd, base, r, pc, n) && Valid(p.env, x) && re.max == INFINITE
    ensures re.min + Distance(p.env, fwd, x) <= INFINITE
  {
  }

  lemma {:induction false} QuantCorrect(p: Prog, re: Re, fwd: bool, base: nat, r: nat, pc: int, n: nat, v: seq<int>, x: State)
    requires Placed(p, re, fwd, base, r, pc, n) && Fits(p, n, v, x) && Applies(p.env, re, base, x)
    requires Clean(v, base, Count(re)) && re.Quant?
    ensures Correct(p, re, fwd, base, r, pc, v, x)
    decreases re, 0
  {
    hide Loop, Code, Found, Holds, RegistersBelow, Leaves, Repeat, Match, Explores, Len, Valid, Reaches, Step, RoundCode, Clean, Agrees;
    hide Supported;
    PlacedSupported(p, re, fwd, base, r, pc, n);
    FitsApplies(p, re, base, n, v, x);
    CapturesBounded(p, re, base);
    CodeQuant(p.env.canon, re, fwd, base, From(r));
    var pre := ResetBefore(p.env.canon, re, fwd, base);
    PartAt(p, pc, pre, LoopCode(p, re, fwd, base, r), n);
    CleanQuiet(re.body, base, v);
    var at := pc + Len(pre);
    LoopCorrect(p, re, fwd, base, r, at, n, v, x);
    MatchQuant(p.env, re, fwd, base, x);
    LenIf(pre != [], ResetOf(re.body, base));
    if pre == [] {
      ReachesSelf(p, Run(pc, x.pos, v, []));
    } else {
      StepReset(p, pc, base, base + Count(re.body) - 1, x.pos, v, []);
      ResetClean(v, base, Count(re.body));
      ReachesStep(p, Run(pc, x.pos, v, []), Run(at, x.pos, v, []));
    }
    LeavesIsExplores(p, re, fwd, base, r, pc, at, v, x);
  }

  lemma LeavesIsExplores(p: Prog, re: Re, fwd: bool, base: nat, r: nat, pc: int, at: int, v: seq<int>, x: State)
    requires WellFormed(re) && re.Quant? && Applies(p.env, re.body, base, x)
    requires Reaches(p, Run(pc, x.pos, v, []), Run(at, x.pos, v, []))
    requires Leaves(p, re, fwd, base, r, at, at, v, x, Repeat(p.env, re.body, fwd, base, re.min, Upper(re.max), re.greedy, x))
    ensures Explores(p, Run(pc, x.pos, v, []), LoopEnds(p, re, fwd, base, r, at), v, base, Count(re), r,
                     Repeat(p.env, re.body, fwd, base, re.min, Upper(re.max), re.greedy, x))
  {
    hide Explores, Reaches, LoopEnds, Repeat;
    ExploresAfter(p, Run(pc, x.pos, v, []), Run(at, x.pos, v, []), LoopEnds(p, re, fwd, base, r, at), v, base, Count(re), r,
                  Repeat(p.env, re.body, fwd, base, re.min, Upper(re.max), re.greedy, x));
  }

  lemma CleanQuiet(body: Re, base: nat, v: seq<int>)
    requires 2 * (base + Count(body)) <= |v| && Clean(v, base, Count(body))
    ensures Quiet(body, base, v)
  {
  }

  lemma ResetClean(v: seq<int>, lo: nat, n: nat)
    requires 2 * (lo + n) <= |v| && Clean(v, lo, n)
    ensures ResetSlots(v, lo, lo + n - 1) == v
  {
  }
}
