/** Runs of the copying machine: they do not depend on what lies below their part of the
    stack, and a piece of code can be described by the list of states it exits with. */
module RegexpTraces {
  import opened Options
  import opened RegexpBytecode
  import opened RegexpMachine

  ghost predicate Reaches(p: Prog, c: Conf, d: Conf) {
    exists n: nat :: Iterate(p, c, n) == d
  }

  lemma {:induction false} IteratePlus(p: Prog, c: Conf, m: nat, n: nat)
    ensures Iterate(p, c, m + n) == Iterate(p, Iterate(p, c, m), n)
    decreases m
  {
    hide Step;
    if m != 0 {
      IteratePlus(p, Step(p, c), m - 1, n);
    }
  }

  lemma ReachesStep(p: Prog, c: Conf, d: Conf)
    requires Step(p, c) == d
    ensures Reaches(p, c, d)
  {
    hide Step;
    assert Iterate(p, d, 0) == d;
    assert Iterate(p, c, 1) == d;
  }

  lemma ReachesSelf(p: Prog, c: Conf)
    ensures Reaches(p, c, c)
  {
    assert Iterate(p, c, 0) == c;
  }

  lemma ReachesThen(p: Prog, c: Conf, d: Conf, e: Conf)
    requires Reaches(p, c, d) && Reaches(p, d, e)
    ensures Reaches(p, c, e)
  {
    hide Iterate;
    var m: nat :| Iterate(p, c, m) == d;
    var n: nat :| Iterate(p, d, n) == e;
    IteratePlus(p, c, m, n);
  }

  /** The same configuration with `below` under its stack. */
  function Under(c: Conf, below: seq<Frame>): Conf {
    match c
    case Run(pc, pos, v, stack) => Run(pc, pos, v, stack + below)
    case Back(stack) => Back(stack + below)
    case _ => c
  }

  predicate Running(c: Conf) { c.Run? || c.Back? }

  lemma {:induction false} CutUnder(stack: seq<Frame>, kind: Kind, below: seq<Frame>)
    requires Cut(stack, kind).Some?
    ensures Cut(stack + below, kind) == Some((Cut(stack, kind).value.0, Cut(stack, kind).value.1 + below))
  {
    if stack[0].kind == kind {
      assert (stack + below)[1..] == stack[1..] + below;
    } else {
      assert (stack + below)[1..] == stack[1..] + below;
      CutUnder(stack[1..], kind, below);
    }
  }

  lemma PerformUnder(p: Prog, i: Instr, next: int, pos: int, v: seq<int>, stack: seq<Frame>, below: seq<Frame>)
    requires 0 <= pos <= p.env.Len() && 2 * p.captures <= |v|
    requires Running(Perform(p, i, next, pos, v, stack))
    ensures Perform(p, i, next, pos, v, stack + below) == Under(Perform(p, i, next, pos, v, stack), below)
  {
    forall kind, q, x, w
      ensures Push(kind, q, x, w, stack + below) == Push(kind, q, x, w, stack) + below
    {
    }
    if i.ILookMatch? {
      CutUnder(stack, if i.neg then NotAhead else Ahead, below);
    }
  }

  lemma StepUnder(p: Prog, c: Conf, below: seq<Frame>)
    requires Running(c) && c != Back([]) && Running(Step(p, c))
    ensures Step(p, Under(c, below)) == Under(Step(p, c), below)
  {
    hide Perform, Decode, Size;
    match c
    case Run(pc, pos, v, stack) =>
      var i := Decode(p.code, pc);
      PerformUnder(p, i.value, pc + Size(i.value), pos, v, stack, below);
    case Back(stack) =>
      assert (stack + below)[1..] == stack[1..] + below;
  }

  lemma {:induction false} HaltedStays(p: Prog, c: Conf, n: nat)
    requires !Running(c) || c == Back([])
    ensures !Running(Iterate(p, c, n)) || n == 0
    decreases n
  {
    if n != 0 {
      HaltedStays(p, Step(p, c), n - 1);
    }
  }

  lemma {:induction false} IterateUnder(p: Prog, c: Conf, n: nat, below: seq<Frame>)
    requires Running(Iterate(p, c, n))
    ensures Iterate(p, Under(c, below), n) == Under(Iterate(p, c, n), below)
    decreases n
  {
    hide Step;
    if n != 0 {
      if !Running(c) || c == Back([]) {
        HaltedStays(p, c, n);
      } else if !Running(Step(p, c)) {
        HaltedStays(p, Step(p, c), n - 1);
      } else {
        StepUnder(p, c, below);
        IterateUnder(p, Step(p, c), n - 1, below);
      }
    }
  }

  lemma ReachesUnder(p: Prog, c: Conf, d: Conf, below: seq<Frame>)
    requires Reaches(p, c, d) && Running(d)
    ensures Reaches(p, Under(c, below), Under(d, below))
  {
    hide Iterate, Under;
    var n: nat :| Iterate(p, c, n) == d;
    IterateUnder(p, c, n, below);
  }

  // ----- exits -----

  datatype Exit = Exit(pos: int, slots: seq<int>)

  predicate Choices(stack: seq<Frame>) {
    forall i | 0 <= i < |stack| :: stack[i].kind == Choice
  }

  /** Running `c` arrives at address `end` with the states `ts`, one after the other, each time
      the run is sent back; after the last one it fails. */
  ghost predicate Yields(p: Prog, c: Conf, end: int, ts: seq<Exit>)
    decreases |ts|
  {
    if ts == [] then Reaches(p, c, Back([]))
    else exists stack ::
        && Choices(stack)
        && Reaches(p, c, Run(end, ts[0].pos, ts[0].slots, stack))
        && Yields(p, Back(stack), end, ts[1..])
  }

  lemma YieldsAfter(p: Prog, c: Conf, d: Conf, end: int, ts: seq<Exit>)
    requires Reaches(p, c, d) && Yields(p, d, end, ts)
    ensures Yields(p, c, end, ts)
  {
    hide Reaches;
    if ts == [] {
      ReachesThen(p, c, d, Back([]));
    } else {
      var stack :| Choices(stack) && Reaches(p, d, Run(end, ts[0].pos, ts[0].slots, stack))
                   && Yields(p, Back(stack), end, ts[1..]);
      ReachesThen(p, c, d, Run(end, ts[0].pos, ts[0].slots, stack));
    }
  }

  /** What `c` exits with, then what the frames under it exit with. */
  lemma {:induction false} YieldsAbove(p: Prog, c: Conf, below: seq<Frame>, end: int, ts: seq<Exit>, us: seq<Exit>)
    requires Yields(p, c, end, ts)
    requires Choices(below) && Yields(p, Back(below), end, us)
    ensures Yields(p, Under(c, below), end, ts + us)
    decreases |ts|
  {
    hide Reaches;
    if ts == [] {
      ReachesUnder(p, c, Back([]), below);
      assert [] + below == below && ts + us == us;
      YieldsAfter(p, Under(c, below), Back(below), end, us);
    } else {
      var t := ts[0];
      var stack :| Choices(stack) && Reaches(p, c, Run(end, t.pos, t.slots, stack))
                   && Yields(p, Back(stack), end, ts[1..]);
      ReachesUnder(p, c, Run(end, t.pos, t.slots, stack), below);
      YieldsAbove(p, Back(stack), below, end, ts[1..], us);
      assert (ts + us)[1..] == ts[1..] + us;
      assert Choices(stack + below);
    }
  }

  lemma YieldsOne(p: Prog, c: Conf, end: int, t: Exit)
    requires Reaches(p, c, Run(end, t.pos, t.slots, []))
    ensures Yields(p, c, end, [t])
  {
    hide Reaches;
    ReachesSelf(p, Back([]));
    assert [t][1..] == [];
    assert Yields(p, Back([]), end, []);
    assert Choices([]);
  }
}
