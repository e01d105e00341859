/** Atoms, assertions and back references: one straight run each. */
module RegexpLeaves {
  import opened RegexpInput
  import opened RegexpSyntax
  import opened RegexpMatcher
  import opened RegexpBytecode
  import opened RegexpCompiler
  import opened RegexpMachine
  import opened RegexpTraces
  import opened RegexpRelation
  import opened RegexpClasses

  predicate IsLeaf(re: Re) {
    IsAtom(re) || re.Empty? || re.LineStart? || re.LineEnd? || re.WordBoundary? || re.BackRef?
  }

  lemma CharIsCodePoint(env: Env, p: int)
    requires Units16(env) && 0 <= p < env.Len()
    ensures 0 <= CharAt(env, p, env.Len()) <= CODE_POINT_MAX
  {
  }

  /** The test of the machine is the test of the matcher. */
  lemma TestIsAccepts(env: Env, re: Re, c: int)
    requires IsAtom(re) && WellFormed(re) && FoldsChars(env.canon) && 0 <= c <= CODE_POINT_MAX
    ensures var i := AtomInstr(env.canon, re);
            Reads(i) && (Test(env, i, c) <==> Accepts(env, re, c))
  {
    hide RangeAccepts, Ordered;
    if re.Class? {
      if re.points != [] {
        ClassExact(re.points, re.icase, env.Fold(re.icase, c));
      } else {
        assert !InClass(re.points, env.Fold(re.icase, c));
      }
    }
  }

  lemma AtomCode(canon: int -> int, re: Re, fwd: bool, base: nat, regs: Regs)
    requires IsAtom(re) && WellFormed(re) && RangesFit(re) && FoldsChars(canon)
    ensures Code(canon, re, fwd, base, regs) == Around(fwd, AtomInstr(canon, re))
    ensures Encodable(AtomInstr(canon, re))
  {
    if re.Class? {
      ClassEncodable(re.points, re.icase);
    }
  }

  /** One character, read forward. */
  lemma ReadRuns(p: Prog, re: Re, pc: int, v: seq<int>, pos: int)
    requires Loaded(p) && IsAtom(re) && WellFormed(re) && RangesFit(re)
    requires Holds(p, pc, [AtomInstr(p.env.canon, re)]) && 0 <= pos <= p.env.Len() && 2 * p.captures <= |v|
    ensures Step(p, Run(pc, pos, v, [])) ==
            if pos < p.env.Len() && Accepts(p.env, re, CharAt(p.env, pos, p.env.Len()))
            then Run(pc + Size(AtomInstr(p.env.canon, re)), Next(p.env, pos, p.env.Len()), v, [])
            else Back([])
  {
    hide Holds, Step, Perform, Encodable, Accepts, Normalised, Test, Code;
    var i := AtomInstr(p.env.canon, re);
    AtomCode(p.env.canon, re, true, 0, Unset);
    if pos < p.env.Len() {
      CharIsCodePoint(p.env, pos);
      TestIsAccepts(p.env, re, CharAt(p.env, pos, p.env.Len()));
    } else {
      TestIsAccepts(p.env, re, 0);
    }
    StepRead(p, pc, i, pos, v, []);
  }

  /** A reading instruction between two steps back. */
  lemma BracketRuns(p: Prog, i: Instr, pc: int, v: seq<int>, pos: int, ok: bool)
    requires Holds(p, pc, [IPrev] + ([i] + [IPrev])) && 0 <= pos <= p.env.Len() && 2 * p.captures <= |v|
    requires 0 < pos && Holds(p, pc + 1, [i]) ==>
               Step(p, Run(pc + 1, Prev(p.env, pos, 0), v, [])) == if ok then Run(pc + 1 + Size(i), pos, v, []) else Back([])
    ensures Reaches(p, Run(pc, pos, v, []),
                    if 0 < pos && ok then Run(pc + 2 + Size(i), Prev(p.env, pos, 0), v, []) else Back([]))
  {
    hide Holds, Step, Perform, Reaches, Len, Prev;
    LenOne(IPrev);
    LenOne(i);
    HoldsSplit(p, pc, [IPrev], [i] + [IPrev]);
    HoldsSplit(p, pc + 1, [i], [IPrev]);
    var c := Run(pc, pos, v, []);
    StepPrev(p, pc, pos, v, []);
    ReachesStep(p, c, Step(p, c));
    if 0 < pos {
      var d := Run(pc + 1, Prev(p.env, pos, 0), v, []);
      ReachesStep(p, d, Step(p, d));
      ReachesThen(p, c, d, Step(p, d));
      if ok {
        var e := Run(pc + 1 + Size(i), pos, v, []);
        StepPrev(p, pc + 1 + Size(i), pos, v, []);
        ReachesStep(p, e, Step(p, e));
        ReachesThen(p, c, e, Step(p, e));
      }
    }
  }

  /** The same character, read backward. */
  lemma ReadBackRuns(p: Prog, re: Re, pc: int, v: seq<int>, pos: int)
    requires Loaded(p) && IsAtom(re) && WellFormed(re) && RangesFit(re)
    requires Holds(p, pc, [IPrev] + ([AtomInstr(p.env.canon, re)] + [IPrev])) && Boundary(p.env, pos) && 2 * p.captures <= |v|
    ensures Reaches(p, Run(pc, pos, v, []),
                    if 0 < pos && Accepts(p.env, re, CharBefore(p.env, pos, 0))
                    then Run(pc + 2 + Size(AtomInstr(p.env.canon, re)), Prev(p.env, pos, 0), v, [])
                    else Back([]))
  {
    hide Holds, Step, Perform, Accepts, Normalised, Reaches, AtomInstr, Loaded, Size;
    var i := AtomInstr(p.env.canon, re);
    if 0 < pos {
      PrevIsBoundary(p.env, pos, 0);
      if Holds(p, pc + 1, [i]) {
        ReadRuns(p, re, pc + 1, v, Prev(p.env, pos, 0));
      }
    }
    BracketRuns(p, i, pc, v, pos, 0 < pos && Accepts(p.env, re, CharBefore(p.env, pos, 0)));
  }

  lemma AtomRuns(p: Prog, re: Re, fwd: bool, base: nat, regs: Regs, pc: int, v: seq<int>, x: State)
    requires Loaded(p) && IsAtom(re) && WellFormed(re) && RangesFit(re) && Valid(p.env, x)
    requires Holds(p, pc, Code(p.env.canon, re, fwd, base, regs)) && 2 * p.captures <= |v|
    ensures Runs(p, Run(pc, x.pos, v, []), pc + Len(Code(p.env.canon, re, fwd, base, regs)), v, x, OneChar(p.env, re, fwd, x))
  {
    hide Holds, Step, Accepts, Normalised, Code, Reaches, AtomInstr;
    var i := AtomInstr(p.env.canon, re);
    AtomCode(p.env.canon, re, fwd, base, regs);
    LenOne(i);
    LenOne(IPrev);
    if fwd {
      ReadRuns(p, re, pc, v, x.pos);
      ReachesStep(p, Run(pc, x.pos, v, []), Step(p, Run(pc, x.pos, v, [])));
    } else {
      assert Around(fwd, i) == [IPrev] + ([i] + [IPrev]);
      LenAppend([IPrev], [i] + [IPrev]);
      LenAppend([i], [IPrev]);
      ReadBackRuns(p, re, pc, v, x.pos);
    }
  }

  /** The run from `c` fails, or arrives at `end` with the one state of `ys`; no slot changes. */
  ghost predicate Runs(p: Prog, c: Conf, end: int, v: seq<int>, x: State, ys: seq<State>) {
    || (ys == [] && Reaches(p, c, Back([])))
    || (|ys| == 1 && ys[0].caps == x.caps && Reaches(p, c, Run(end, ys[0].pos, v, [])))
  }

  lemma {:induction false} ReferIsBackReference(p: Prog, fwd: bool, refs: seq<nat>, icase: bool, v: seq<int>, x: State)
    requires Rel(p, v, x) && Valid(p.env, x) && forall i | 0 <= i < |refs| :: refs[i] < |x.caps|
    ensures var q := Refer(p, !fwd, icase, refs, x.pos, v);
            BackReference(p.env, fwd, refs, icase, x) == if q.Some? then [x.(pos := q.value)] else []
  {
    if refs != [] {
      assert Visible(v, refs[0]) == x.caps[refs[0]];
      assert ValidCapture(p.env, x.caps[refs[0]]);
      if x.caps[refs[0]].Undefined? {
        ReferIsBackReference(p, fwd, refs[1..], icase, v, x);
      }
    }
  }

  lemma AssertionRuns(p: Prog, re: Re, fwd: bool, base: nat, regs: Regs, pc: int, v: seq<int>, x: State)
    requires Loaded(p) && Applies(p.env, re, base, x) && (re.LineStart? || re.LineEnd? || re.WordBoundary?)
    requires Holds(p, pc, Code(p.env.canon, re, fwd, base, regs)) && 2 * p.captures <= |v|
    ensures Runs(p, Run(pc, x.pos, v, []), pc + Len(Code(p.env.canon, re, fwd, base, regs)), v, x,
                 Match(p.env, re, fwd, base, x))
  {
    hide Holds, Step, Reaches, AtLineStart, AtLineEnd, AtWordBoundary, Code, Match;
    var i := AssertionInstr(re);
    AssertionCode(p.env, re, fwd, base, regs, x);
    LenOne(i);
    StepAt(p, pc, i, x.pos, v, []);
    ReachesStep(p, Run(pc, x.pos, v, []), Step(p, Run(pc, x.pos, v, [])));
  }

  function AssertionInstr(re: Re): Instr
    requires re.LineStart? || re.LineEnd? || re.WordBoundary?
  {
    match re
    case LineStart(multi) => ILineStart(multi)
    case LineEnd(multi) => ILineEnd(multi)
    case WordBoundary(neg, icase) => IWordBoundary(neg, icase)
  }

  predicate AssertionHolds(env: Env, re: Re, p: int)
    requires (re.LineStart? || re.LineEnd? || re.WordBoundary?) && 0 <= p <= env.Len()
  {
    match re
    case LineStart(multi) => AtLineStart(env, multi, p)
    case LineEnd(multi) => AtLineEnd(env, multi, p)
    case WordBoundary(neg, icase) => AtWordBoundary(env, icase, p) != neg
  }

  lemma AssertionCode(env: Env, re: Re, fwd: bool, base: nat, regs: Regs, x: State)
    requires Applies(env, re, base, x) && (re.LineStart? || re.LineEnd? || re.WordBoundary?)
    ensures Code(env.canon, re, fwd, base, regs) == [AssertionInstr(re)]
    ensures Match(env, re, fwd, base, x) == if AssertionHolds(env, re, x.pos) then [x] else []
  {
    hide AtLineStart, AtLineEnd, AtWordBoundary;
  }

  lemma BackRefRuns(p: Prog, re: Re, fwd: bool, base: nat, regs: Regs, pc: int, v: seq<int>, x: State)
    requires Loaded(p) && Applies(p.env, re, base, x) && re.BackRef? && Rel(p, v, x)
    requires Holds(p, pc, Code(p.env.canon, re, fwd, base, regs))
    ensures Runs(p, Run(pc, x.pos, v, []), pc + Len(Code(p.env.canon, re, fwd, base, regs)), v, x,
                 Match(p.env, re, fwd, base, x))
  {
    hide Holds, Step, Perform, Reaches, Refer, BackReference, Code, Match;
    var i := IBackRef(!fwd, re.icase, re.refs);
    BackRefCode(p.env, re, fwd, base, regs, x);
    ReferIsBackReference(p, fwd, re.refs, re.icase, v, x);
    LenOne(i);
    StepBackRef(p, pc, i, x.pos, v, []);
    ReachesStep(p, Run(pc, x.pos, v, []), Step(p, Run(pc, x.pos, v, [])));
  }

  lemma BackRefCode(env: Env, re: Re, fwd: bool, base: nat, regs: Regs, x: State)
    requires Applies(env, re, base, x) && re.BackRef?
    ensures Code(env.canon, re, fwd, base, regs) == [IBackRef(!fwd, re.icase, re.refs)]
    ensures Match(env, re, fwd, base, x) == BackReference(env, fwd, re.refs, re.icase, x)
  {
    hide BackReference;
  }

  lemma AtomMatch(env: Env, re: Re, fwd: bool, base: nat, x: State)
    requires IsAtom(re) && Applies(env, re, base, x)
    ensures Match(env, re, fwd, base, x) == OneChar(env, re, fwd, x)
  {
    hide OneChar, Normalised;
  }

  /** Every leaf: its code runs as the matcher says, and changes no slot. */
  lemma LeafRuns(p: Prog, re: Re, fwd: bool, base: nat, regs: Regs, pc: int, v: seq<int>, x: State)
    requires Loaded(p) && IsLeaf(re) && RangesFit(re) && Applies(p.env, re, base, x)
    requires Holds(p, pc, Code(p.env.canon, re, fwd, base, regs)) && 2 * p.captures <= |v|
    requires re.BackRef? ==> Rel(p, v, x)
    ensures Runs(p, Run(pc, x.pos, v, []), pc + Len(Code(p.env.canon, re, fwd, base, regs)), v, x,
                 Match(p.env, re, fwd, base, x))
  {
    hide Code, Holds, Runs, Match, Normalised, Loaded, Rel;
    if IsAtom(re) {
      AtomMatch(p.env, re, fwd, base, x);
      AtomRuns(p, re, fwd, base, regs, pc, v, x);
    } else if re.Empty? {
      EmptyRuns(p, re, fwd, base, regs, pc, v, x);
    } else if re.BackRef? {
      BackRefRuns(p, re, fwd, base, regs, pc, v, x);
    } else {
      AssertionRuns(p, re, fwd, base, regs, pc, v, x);
    }
  }

  lemma EmptyRuns(p: Prog, re: Re, fwd: bool, base: nat, regs: Regs, pc: int, v: seq<int>, x: State)
    requires re.Empty? && Applies(p.env, re, base, x)
    ensures Runs(p, Run(pc, x.pos, v, []), pc + Len(Code(p.env.canon, re, fwd, base, regs)), v, x,
                 Match(p.env, re, fwd, base, x))
  {
    hide Reaches;
    ReachesSelf(p, Run(pc, x.pos, v, []));
  }

  lemma LeafCorrect(p: Prog, re: Re, fwd: bool, base: nat, regs: Regs, pc: int, v: seq<int>, x: State, r: nat)
    requires Loaded(p) && IsLeaf(re) && RangesFit(re) && Applies(p.env, re, base, x)
    requires Holds(p, pc, Code(p.env.canon, re, fwd, base, regs)) && Rel(p, v, x)
    ensures Explores(p, Run(pc, x.pos, v, []), pc + Len(Code(p.env.canon, re, fwd, base, regs)), v, base, 0, r,
                     Match(p.env, re, fwd, base, x))
  {
    hide Code, Holds, Reaches, Explores, Match, Normalised, Loaded;
    LeafRuns(p, re, fwd, base, regs, pc, v, x);
    var c := Run(pc, x.pos, v, []);
    var ys := Match(p.env, re, fwd, base, x);
    var end := pc + Len(Code(p.env.canon, re, fwd, base, regs));
    if ys == [] {
      ExploresNone(p, c, end, v, base, 0, r);
    } else {
      assert ys == [ys[0]];
      ExploresOne(p, c, end, v, base, 0, r, v, ys[0]);
    }
  }
}
