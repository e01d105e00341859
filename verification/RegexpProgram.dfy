/** Whole programs: the search loop, the overall match as capture 0, and the final `match`. */
module RegexpProgram {
  import opened RegexpInput
  import opened RegexpSyntax
  import opened RegexpMatcher
  import opened RegexpRepetition
  import opened RegexpBytecode
  import opened RegexpCompiler
  import opened RegexpMachine
  import opened RegexpTraces
  import opened RegexpRelation
  import opened RegexpLayout
  import opened RegexpCorrectness

  /** Any number of characters, as few as possible. */
  const SKIP := Quant(Dot(true), 0, INFINITE, false)

  /** What `lre_compile` wraps around the pattern: the overall match is capture 0, and unless the
      sticky flag is set the match may start later. */
  function Whole(re: Re, sticky: bool): (whole: Re)
    ensures Count(whole) == 1 + Count(re)
    ensures WellFormed(re) ==> WellFormed(whole)
  {
    if sticky then Group(re) else Cat(SKIP, Group(re))
  }

  /** The program of a wrapped pattern. */
  function Program(canon: int -> int, whole: Re, regs: Regs): seq<Instr>
    requires WellFormed(whole)
  {
    Code(canon, whole, true, 0, regs) + [IMatch]
  }

  /** The captures before a match. */
  function Fresh(n: nat): seq<Capture> {
    seq(n, _ => Undefined)
  }

  /** The ways to match at `pos`, with the overall match as capture 0. */
  ghost function MatchesAt(env: Env, re: Re, pos: int): (ys: seq<State>)
    requires WellFormed(re) && RefersBelow(re, 1 + Count(re)) && Boundary(env, pos)
  {
    CloseAll(true, 0, pos, Match(env, re, true, 1, State(pos, Fresh(1 + Count(re)))))
  }

  /** RegExpBuiltinExec: the ways to match at `pos`, then those at the positions after it. */
  ghost function Search(env: Env, re: Re, pos: int): (ys: seq<State>)
    requires WellFormed(re) && RefersBelow(re, 1 + Count(re)) && Boundary(env, pos)
    decreases env.Len() - pos
  {
    if pos == env.Len() then MatchesAt(env, re, pos)
    else
      NextIsBoundary(env, pos, env.Len());
      MatchesAt(env, re, pos) + Search(env, re, Next(env, pos, env.Len()))
  }

  /** The states the matcher may end in, best first. */
  ghost function Meaning(env: Env, re: Re, sticky: bool, pos: int): seq<State>
    requires WellFormed(re) && RefersBelow(re, 1 + Count(re)) && Boundary(env, pos)
  {
    if sticky then MatchesAt(env, re, pos) else Search(env, re, pos)
  }

  /** The states that SKIP can stop in. */
  ghost function Starts(env: Env, x: State): (xs: seq<State>)
    requires Valid(env, x)
    ensures AllFollow(env, true, x, xs)
    decreases env.Len() - x.pos
  {
    if x.pos == env.Len() then [x]
    else
      NextIsBoundary(env, x.pos, env.Len());
      [x] + Starts(env, x.(pos := Next(env, x.pos, env.Len())))
  }

  lemma {:induction false} SkipStarts(env: Env, x: State)
    requires Valid(env, x)
    ensures Repeat(env, Dot(true), true, 0, 0, Infinite, false, x) == Starts(env, x)
    decreases env.Len() - x.pos
  {
    var x' := Reset(x, 0, 0);
    ResetNothing(x, 0);
    var ys := Match(env, Dot(true), true, 0, x);
    assert ys == OneChar(env, Dot(true), true, x);
    if x.pos == env.Len() {
      assert ys == [] && Moved(ys, x.pos) == [];
      NoMore(env, Dot(true), true, 0, false, x);
    } else {
      var y := x.(pos := Next(env, x.pos, env.Len()));
      NextIsBoundary(env, x.pos, env.Len());
      assert ys == [y];
      assert Moved(ys, x.pos) == [y] + Moved(ys[1..], x.pos);
      assert Moved(ys, x.pos) == [y];
      SkipStarts(env, y);
      OneMore(env, x, y);
    }
  }

  lemma OneMore(env: Env, x: State, y: State)
    requires Valid(env, x) && Follows(env, true, x, y) && Distance(env, true, y) < Distance(env, true, x)
    ensures RepeatAll(env, Dot(true), true, 0, 0, Infinite, false, x, Distance(env, true, x), [y])
            == Repeat(env, Dot(true), true, 0, 0, Infinite, false, y)
  {
    hide Repeat;
    assert [y][1..] == [];
    assert RepeatAll(env, Dot(true), true, 0, 0, Infinite, false, x, Distance(env, true, x), []) == [];
  }

  lemma {:induction false} MatchStarts(env: Env, g: Re, x0: State, x: State)
    requires g.Group? && WellFormed(g) && RefersBelow(g, Count(g))
    requires Valid(env, x0) && Follows(env, true, x0, x) && x.caps == Fresh(Count(g))
    requires AllFollow(env, true, x0, Starts(env, x)) && Applies(env, g, 0, x0)
    ensures MatchAll(env, g, true, 0, x0, Starts(env, x)) == Search(env, g.body, x.pos)
    decreases env.Len() - x.pos
  {
    hide Match, WellFormed, RefersBelow, Valid, CloseAll;
    PosInRange(env, x);
    assert x == State(x.pos, Fresh(1 + Count(g.body)));
    GroupShape(g);
    MatchGroup(env, g, true, 0, x);
    if x.pos == env.Len() {
      assert Starts(env, x) == [x] && [x][1..] == [];
      assert MatchAll(env, g, true, 0, x0, []) == [];
    } else {
      var y := x.(pos := Next(env, x.pos, env.Len()));
      ValidBoundary(env, x);
      NextIsBoundary(env, x.pos, env.Len());
      ValidMoved(env, x, y.pos);
      var rest := Starts(env, y);
      assert Starts(env, x) == [x] + rest;
      assert ([x] + rest)[1..] == rest;
      forall i | 0 <= i < |rest| ensures Follows(env, true, x0, rest[i]) {
        assert rest[i] == Starts(env, x)[i + 1];
      }
      MatchStarts(env, g, x0, y);
    }
  }

  lemma ValidBoundary(env: Env, x: State)
    requires Valid(env, x)
    ensures Boundary(env, x.pos)
  {
  }

  lemma ValidMoved(env: Env, x: State, pos: int)
    requires Valid(env, x) && Boundary(env, pos)
    ensures Valid(env, x.(pos := pos))
  {
  }

  lemma GroupShape(g: Re)
    requires g.Group? && WellFormed(g) && RefersBelow(g, Count(g))
    ensures WellFormed(g.body) && RefersBelow(g.body, 1 + Count(g.body))
  {
  }

  lemma WholeShape(re: Re, sticky: bool, n: nat)
    requires WellFormed(re) && RefersBelow(re, n)
    ensures WellFormed(Whole(re, sticky)) && RefersBelow(Whole(re, sticky), n) && Count(Whole(re, sticky)) == 1 + Count(re)
    ensures RangesFit(re) ==> RangesFit(Whole(re, sticky))
    ensures forall len: nat :: len <= INFINITE && CountersSuffice(re, len) ==> CountersSuffice(Whole(re, sticky), len)
  {
    assert forall len: nat :: CountersSuffice(Dot(true), len);
    assert forall len: nat :: len <= INFINITE ==> CountersSuffice(SKIP, len);
    assert forall len: nat :: CountersSuffice(re, len) ==> CountersSuffice(Group(re), len);
  }

  /** Matching the wrapped pattern is searching for the pattern. */
  lemma WholeMeans(env: Env, re: Re, sticky: bool, x: State)
    requires WellFormed(re) && RefersBelow(re, 1 + Count(re)) && Boundary(env, x.pos) && x.caps == Fresh(1 + Count(re))
    ensures Applies(env, Whole(re, sticky), 0, x)
    ensures Match(env, Whole(re, sticky), true, 0, x) == Meaning(env, re, sticky, x.pos)
  {
    hide Match, Search, MatchAll, Repeat, Starts, WellFormed, RefersBelow, CloseAll;
    WholeShape(re, sticky, 1 + Count(re));
    if sticky {
      GroupMeans(env, Whole(re, sticky), x);
    } else {
      SearchMeans(env, Whole(re, sticky), x);
    }
  }

  lemma GroupMeans(env: Env, g: Re, x: State)
    requires g.Group? && WellFormed(g.body) && RefersBelow(g.body, 1 + Count(g.body))
    requires Applies(env, g, 0, x) && x.caps == Fresh(1 + Count(g.body))
    ensures Match(env, g, true, 0, x) == MatchesAt(env, g.body, x.pos)
  {
    hide Match, WellFormed, RefersBelow, CloseAll;
    assert x == State(x.pos, Fresh(1 + Count(g.body)));
    MatchGroup(env, g, true, 0, x);
  }

  lemma SearchMeans(env: Env, whole: Re, x: State)
    requires whole.Cat? && whole.left == SKIP && whole.right.Group?
    requires Applies(env, whole, 0, x) && x.caps == Fresh(Count(whole.right))
    requires RefersBelow(whole.right, Count(whole.right)) && WellFormed(whole.right)
    ensures WellFormed(whole.right.body) && RefersBelow(whole.right.body, 1 + Count(whole.right.body))
    ensures Match(env, whole, true, 0, x) == Search(env, whole.right.body, x.pos)
  {
    hide Match, Search, MatchAll, Repeat, Starts, WellFormed, RefersBelow, CloseAll;
    CatShape(whole, |x.caps|);
    GroupShape(whole.right);
    MatchCat(env, whole, true, 0, x);
    MatchQuant(env, whole.left, true, 0, x);
    SkipStarts(env, x);
    MatchStarts(env, whole.right, x, x);
  }

  lemma CatShape(re: Re, n: nat)
    requires re.Cat? && WellFormed(re) && RefersBelow(re, n)
    ensures WellFormed(re.left) && WellFormed(re.right) && RefersBelow(re.left, n) && RefersBelow(re.right, n)
  {
  }

  // ----- runs of a program -----

  /** The run from `c` halts, with the captures of the first state of `ys` or with a failure. */
  ghost predicate Answers(p: Prog, c: Conf, ys: seq<State>) {
    if ys == [] then Reaches(p, c, Done(false, []))
    else exists w :: Reaches(p, c, Done(true, w)) && Rel(p, w, ys[0])
  }

  /** The program of `whole` lies at address 0 and uses `n` registers. */
  ghost predicate Compiled(p: Prog, whole: Re, n: nat) {
    && Loaded(p) && WellFormed(whole) && RangesFit(whole) && CountersSuffice(whole, p.env.Len())
    && p.captures == Count(whole) && RefersBelow(whole, p.captures) && n <= 255
    && Holds(p, 0, Program(p.env.canon, whole, From(0)))
    && RegistersBelow(Program(p.env.canon, whole, From(0)), n)
  }

  /** The state in which `lre_exec` starts: no capture is set, registers hold anything. */
  predicate Initial(p: Prog, n: nat, v: seq<int>) {
    |v| == 2 * p.captures + n && forall j | 0 <= j < 2 * p.captures :: v[j] == NULL
  }

  lemma InitialRel(p: Prog, n: nat, v: seq<int>, pos: int)
    requires Initial(p, n, v) && n <= 255
    ensures Rel(p, v, State(pos, Fresh(p.captures))) && Clean(v, 0, p.captures)
  {
    forall k | 0 <= k < p.captures ensures Visible(v, k) == Undefined {
    }
  }

  lemma FreshApplies(env: Env, whole: Re, pos: int)
    requires WellFormed(whole) && RefersBelow(whole, Count(whole)) && Boundary(env, pos)
    ensures Applies(env, whole, 0, State(pos, Fresh(Count(whole))))
  {
  }

  /** Every run of a compiled pattern halts, and answers with the first way to match that
      section 22.2.2 of ECMA-262 prescribes. */
  lemma RunsAnswer(p: Prog, whole: Re, n: nat, v: seq<int>, pos: int)
    requires Compiled(p, whole, n) && Initial(p, n, v) && Boundary(p.env, pos)
    ensures Applies(p.env, whole, 0, State(pos, Fresh(Count(whole))))
    ensures Answers(p, Run(0, pos, v, []), Match(p.env, whole, true, 0, State(pos, Fresh(Count(whole)))))
  {
    hide Loaded, WellFormed, RangesFit, RefersBelow, CountersSuffice, Holds, RegistersBelow, Code, Match, Rel, Clean,
      Len, Reaches, Step, Yields, Ends, Applies;
    var code := Code(p.env.canon, whole, true, 0, From(0));
    PartAt(p, 0, code, [IMatch], n);
    InitialRel(p, n, v, pos);
    FreshApplies(p.env, whole, pos);
    var x := State(pos, Fresh(Count(whole)));
    CodeCorrect(p, whole, true, 0, 0, 0, n, v, x);
    var c := Run(0, pos, v, []);
    var ys := Match(p.env, whole, true, 0, x);
    var ts: seq<Exit> :| Yields(p, c, Len(code), ts) && AllEnd(p, v, 0, Count(whole), 0, ts, ys);
    FirstExit(p, c, Len(code), v, Count(whole), ts, ys, x);
  }

  lemma FirstExit(p: Prog, c: Conf, end: int, v: seq<int>, n: nat, ts: seq<Exit>, ys: seq<State>, x: State)
    requires Yields(p, c, end, ts) && AllEnd(p, v, 0, n, 0, ts, ys) && AllFollow(p.env, true, x, ys) && Holds(p, end, [IMatch])
    ensures Answers(p, c, ys)
  {
    hide Holds, Reaches, Step, Ends, Rel, Choices, Valid;
    if ts == [] {
      GivesUp(p);
      ReachesThen(p, c, Back([]), Done(false, []));
    } else {
      var stack :| Choices(stack) && Reaches(p, c, Run(end, ts[0].pos, ts[0].slots, stack));
      assert Ends(p, v, 0, n, 0, ts[0], ys[0]);
      EndsSlots(p, v, 0, n, 0, ts[0], ys[0]);
      assert Follows(p.env, true, x, ys[0]);
      PosInRange(p.env, ys[0]);
      StepMatch(p, end, ts[0].pos, ts[0].slots, stack);
      ReachesStep(p, Run(end, ts[0].pos, ts[0].slots, stack), Done(true, ts[0].slots));
      ReachesThen(p, c, Run(end, ts[0].pos, ts[0].slots, stack), Done(true, ts[0].slots));
    }
  }

  lemma GivesUp(p: Prog)
    ensures Reaches(p, Back([]), Done(false, []))
  {
    hide Reaches;
    ReachesStep(p, Back([]), Done(false, []));
  }

  lemma StepMatch(p: Prog, pc: int, pos: int, v: seq<int>, stack: seq<Frame>)
    requires CanStep(p, pc, IMatch, pos, v)
    ensures Step(p, Run(pc, pos, v, stack)) == Done(true, v)
  {
    hide Step, Holds;
    StepAt(p, pc, IMatch, pos, v, stack);
  }
}
