/** How the slots of the machine stand for the captures of the matcher, and what it means for
    a piece of code to explore the list of states the matcher returns. */
module RegexpRelation {
  import opened RegexpInput
  import opened RegexpSyntax
  import opened RegexpMatcher
  import opened RegexpBytecode
  import opened RegexpMachine
  import opened RegexpTraces
  import opened RegexpRepetition

  /** The byte code is never longer than this (`lre_bytecode_realloc`). */
  const CODE_MAX: nat := INFINITE / 2

  predicate Units16(env: Env) {
    forall i | 0 <= i < env.Len() :: 0 <= env.units[i] <= 0xFFFF
  }

  ghost predicate FoldsChars(canon: int -> int) {
    forall c | 0 <= c <= CODE_POINT_MAX :: 0 <= canon(c) <= CODE_POINT_MAX
  }

  ghost predicate Loaded(p: Prog) {
    Units16(p.env) && FoldsChars(p.env.canon) && p.captures <= 255 && |p.code| <= CODE_MAX
  }

  // ----- code in memory -----

  predicate Holds(p: Prog, pc: int, code: seq<Instr>) {
    At(p.code, pc, EncodeAll(code))
  }

  lemma HoldsSplit(p: Prog, pc: int, x: seq<Instr>, y: seq<Instr>)
    requires Holds(p, pc, x + y)
    ensures Holds(p, pc, x) && Holds(p, pc + Len(x), y) && Len(x + y) == Len(x) + Len(y)
  {
    hide EncodeAll, At, Len;
    EncodeAppend(x, y);
    LenAppend(x, y);
    AtSplit(p.code, pc, EncodeAll(x), EncodeAll(y));
  }

  lemma LenOne(i: Instr)
    ensures Len([i]) == Size(i)
  {
    hide Size;
    assert [i][1..] == [];
  }

  lemma StepAt(p: Prog, pc: int, i: Instr, pos: int, v: seq<int>, stack: seq<Frame>)
    requires Holds(p, pc, [i]) && Encodable(i)
    requires 0 <= pos <= p.env.Len() && 2 * p.captures <= |v|
    ensures Step(p, Run(pc, pos, v, stack)) == Perform(p, i, pc + Size(i), pos, v, stack)
  {
    hide Perform, Decode, Size, Encode, Encodable;
    assert [i][1..] == [];
    assert EncodeAll([i]) == Encode(i) + EncodeAll([]);
    assert EncodeAll([i]) == Encode(i);
    DecodeEncode(p.code, pc, i);
  }

  // ----- one step, instruction by instruction -----

  predicate CanStep(p: Prog, pc: int, i: Instr, pos: int, v: seq<int>) {
    Holds(p, pc, [i]) && Encodable(i) && 0 <= pos <= p.env.Len() && 2 * p.captures <= |v|
  }

  lemma StepPrev(p: Prog, pc: int, pos: int, v: seq<int>, stack: seq<Frame>)
    requires CanStep(p, pc, IPrev, pos, v)
    ensures Step(p, Run(pc, pos, v, stack)) == if pos == 0 then Back(stack) else Run(pc + 1, Prev(p.env, pos, 0), v, stack)
  {
    hide Step, Holds;
    StepAt(p, pc, IPrev, pos, v, stack);
  }

  lemma StepBackRef(p: Prog, pc: int, i: Instr, pos: int, v: seq<int>, stack: seq<Frame>)
    requires CanStep(p, pc, i, pos, v) && i.IBackRef? && Sane(p, v)
    ensures var q := Refer(p, i.backward, i.icase, i.refs, pos, v);
            Step(p, Run(pc, pos, v, stack)) == if q.Some? then Run(pc + Size(i), q.value, v, stack) else Back(stack)
  {
    hide Step, Holds, Refer, Size;
    StepAt(p, pc, i, pos, v, stack);
  }

  lemma StepSave(p: Prog, pc: int, end: bool, k: nat, pos: int, v: seq<int>, stack: seq<Frame>)
    requires CanStep(p, pc, ISave(end, k), pos, v) && k < p.captures
    ensures Step(p, Run(pc, pos, v, stack)) == Run(pc + 2, pos, v[2 * k + Bit(end) := pos], stack)
  {
    hide Step, Holds;
    StepAt(p, pc, ISave(end, k), pos, v, stack);
  }

  lemma StepReset(p: Prog, pc: int, lo: nat, hi: int, pos: int, v: seq<int>, stack: seq<Frame>)
    requires CanStep(p, pc, IReset(lo, hi), pos, v) && hi < p.captures
    ensures Step(p, Run(pc, pos, v, stack)) == Run(pc + 3, pos, ResetSlots(v, lo, hi), stack)
  {
    hide Step, Holds, ResetSlots;
    StepAt(p, pc, IReset(lo, hi), pos, v, stack);
  }

  lemma StepGoto(p: Prog, pc: int, off: int, pos: int, v: seq<int>, stack: seq<Frame>)
    requires CanStep(p, pc, IGoto(off), pos, v)
    ensures Step(p, Run(pc, pos, v, stack)) == Run(pc + 5 + off, pos, v, stack)
  {
    hide Step, Holds;
    StepAt(p, pc, IGoto(off), pos, v, stack);
  }

  lemma StepSplit(p: Prog, pc: int, nextFirst: bool, off: int, pos: int, v: seq<int>, stack: seq<Frame>)
    requires CanStep(p, pc, ISplit(nextFirst, off), pos, v)
    ensures Step(p, Run(pc, pos, v, stack)) == Branch(nextFirst, pc + 5, pc + 5 + off, pos, v, stack)
  {
    hide Step, Holds, Branch;
    StepAt(p, pc, ISplit(nextFirst, off), pos, v, stack);
  }

  lemma StepLook(p: Prog, pc: int, neg: bool, off: int, pos: int, v: seq<int>, stack: seq<Frame>)
    requires CanStep(p, pc, ILook(neg, off), pos, v)
    ensures Step(p, Run(pc, pos, v, stack)) ==
            Run(pc + 5, pos, v, Push(if neg then NotAhead else Ahead, pc + 5 + off, pos, v, stack))
  {
    hide Step, Holds, Push;
    StepAt(p, pc, ILook(neg, off), pos, v, stack);
  }

  /** A finished lookaround drops the choice points of its body and its own frame. */
  lemma StepLookMatch(p: Prog, pc: int, neg: bool, pos: int, v: seq<int>, stack: seq<Frame>, f: Frame, below: seq<Frame>)
    requires CanStep(p, pc, ILookMatch(neg), pos, v)
    requires Choices(stack) && f.kind == if neg then NotAhead else Ahead
    ensures Step(p, Run(pc, pos, v, stack + ([f] + below))) == if neg then Back(below) else Run(f.pc, f.pos, v, below)
  {
    hide Step, Holds;
    StepAt(p, pc, ILookMatch(neg), pos, v, stack + ([f] + below));
    CutChoices(stack, f, below);
  }

  lemma {:induction false} CutChoices(stack: seq<Frame>, f: Frame, below: seq<Frame>)
    requires Choices(stack) && f.kind != Choice
    ensures Cut(stack + ([f] + below), f.kind) == Options.Some((f, below))
  {
    if stack == [] {
      assert stack + ([f] + below) == [f] + below;
    } else {
      assert (stack + ([f] + below))[1..] == stack[1..] + ([f] + below);
      CutChoices(stack[1..], f, below);
    }
  }

  lemma StepSetCounter(p: Prog, pc: int, r: nat, val: nat, pos: int, v: seq<int>, stack: seq<Frame>)
    requires CanStep(p, pc, ISetCounter(r, val), pos, v) && 2 * p.captures + r < |v|
    ensures Step(p, Run(pc, pos, v, stack)) == Run(pc + 6, pos, v[2 * p.captures + r := val], stack)
  {
    hide Step, Holds;
    StepAt(p, pc, ISetCounter(r, val), pos, v, stack);
  }

  lemma StepSetPos(p: Prog, pc: int, r: nat, pos: int, v: seq<int>, stack: seq<Frame>)
    requires CanStep(p, pc, ISetPos(r), pos, v) && 2 * p.captures + r < |v|
    ensures Step(p, Run(pc, pos, v, stack)) == Run(pc + 2, pos, v[2 * p.captures + r := pos], stack)
  {
    hide Step, Holds;
    StepAt(p, pc, ISetPos(r), pos, v, stack);
  }

  lemma StepCheckAdvance(p: Prog, pc: int, r: nat, pos: int, v: seq<int>, stack: seq<Frame>)
    requires CanStep(p, pc, ICheckAdvance(r), pos, v) && 2 * p.captures + r < |v|
    ensures Step(p, Run(pc, pos, v, stack)) ==
            if v[2 * p.captures + r] == pos then Back(stack) else Run(pc + 2, pos, v, stack)
  {
    hide Step, Holds;
    StepAt(p, pc, ICheckAdvance(r), pos, v, stack);
  }

  lemma StepLoop(p: Prog, pc: int, r: nat, off: int, pos: int, v: seq<int>, stack: seq<Frame>)
    requires CanStep(p, pc, ILoop(r, off), pos, v) && 2 * p.captures + r < |v|
    requires 0 < v[2 * p.captures + r] < 0x1_0000_0000
    ensures var n := v[2 * p.captures + r] - 1;
            Step(p, Run(pc, pos, v, stack)) ==
            Run(if n != 0 then pc + 6 + off else pc + 6, pos, v[2 * p.captures + r := n], stack)
  {
    hide Step, Holds, Encodable;
    StepAt(p, pc, ILoop(r, off), pos, v, stack);
    assert Decrement(v[2 * p.captures + r]) == v[2 * p.captures + r] - 1;
    hide Decrement;
  }

  lemma StepLoopSplit(p: Prog, pc: int, check: bool, nextFirst: bool, r: nat, limit: nat, off: int,
                      pos: int, v: seq<int>, stack: seq<Frame>)
    requires CanStep(p, pc, ILoopSplit(check, nextFirst, r, limit, off), pos, v)
    requires 2 * p.captures + r + Bit(check) < |v| && 0 < v[2 * p.captures + r] < 0x1_0000_0000
    ensures var n := v[2 * p.captures + r] - 1;
            var w := v[2 * p.captures + r := n];
            Step(p, Run(pc, pos, v, stack)) ==
            if n > limit then Run(pc + 10 + off, pos, w, stack)
            else if check && v[2 * p.captures + r + 1] == pos && n != limit then Back(stack)
            else if n != 0 then Branch(nextFirst, pc + 10, pc + 10 + off, pos, w, stack)
            else Run(pc + 10, pos, w, stack)
  {
    hide Step, Holds, Branch, Encodable;
    StepAt(p, pc, ILoopSplit(check, nextFirst, r, limit, off), pos, v, stack);
    assert Decrement(v[2 * p.captures + r]) == v[2 * p.captures + r] - 1;
    hide Decrement;
  }

  lemma StepRead(p: Prog, pc: int, i: Instr, pos: int, v: seq<int>, stack: seq<Frame>)
    requires CanStep(p, pc, i, pos, v) && Reads(i)
    ensures Step(p, Run(pc, pos, v, stack)) ==
            if pos < p.env.Len() && Test(p.env, i, CharAt(p.env, pos, p.env.Len()))
            then Run(pc + Size(i), Next(p.env, pos, p.env.Len()), v, stack) else Back(stack)
  {
    hide Step, Holds, Size, Test;
    StepAt(p, pc, i, pos, v, stack);
  }

  /** The register operands of `code` are below `n`. */
  predicate RegisterBelow(i: Instr, n: int) {
    match i
    case ISetCounter(r, _) => r < n
    case ISetPos(r) => r < n
    case ICheckAdvance(r) => r < n
    case ILoop(r, _) => r < n
    case ILoopSplit(check, _, r, _, _) => r + Bit(check) < n
    case _ => true
  }

  predicate RegistersBelow(code: seq<Instr>, n: int) {
    forall j | 0 <= j < |code| :: RegisterBelow(code[j], n)
  }

  // ----- slots and captures -----

  /** What the back-reference instructions see of capture `k`. */
  function Visible(v: seq<int>, k: nat): Capture
    requires 2 * k + 1 < |v|
  {
    if v[2 * k] == NULL || v[2 * k + 1] == NULL then Undefined else Span(v[2 * k], v[2 * k + 1])
  }

  predicate Sane(p: Prog, v: seq<int>) {
    && 2 * p.captures <= |v| <= 2 * p.captures + 255
    && forall j | 0 <= j < 2 * p.captures :: NULL <= v[j] <= p.env.Len()
  }

  predicate Rel(p: Prog, v: seq<int>, x: State) {
    && Sane(p, v)
    && |x.caps| == p.captures
    && forall k | 0 <= k < p.captures :: Visible(v, k) == x.caps[k]
  }

  /** The captures lo .. lo + n - 1 are untouched. */
  predicate Clean(v: seq<int>, lo: nat, n: nat)
    requires 2 * (lo + n) <= |v|
  {
    forall j | 2 * lo <= j < 2 * (lo + n) :: v[j] == NULL
  }

  /** `w` differs from `v` at most in the captures lo .. lo + n - 1 and the registers from `r` on. */
  predicate Agrees(p: Prog, v: seq<int>, w: seq<int>, lo: nat, n: nat, r: nat) {
    && |w| == |v|
    && (forall j | 0 <= j < |v| && j < 2 * p.captures && !(2 * lo <= j < 2 * (lo + n)) :: w[j] == v[j])
    && forall j | 2 * p.captures <= j < |v| && j < 2 * p.captures + r :: w[j] == v[j]
  }

  predicate Ends(p: Prog, v: seq<int>, lo: nat, n: nat, r: nat, t: Exit, y: State) {
    t.pos == y.pos && Agrees(p, v, t.slots, lo, n, r) && Rel(p, t.slots, y)
  }

  predicate AllEnd(p: Prog, v: seq<int>, lo: nat, n: nat, r: nat, ts: seq<Exit>, ys: seq<State>) {
    |ts| == |ys| && forall i | 0 <= i < |ts| :: Ends(p, v, lo, n, r, ts[i], ys[i])
  }

  /** Running `c` arrives at `end` with exactly the states `ys`, in order. */
  ghost predicate Explores(p: Prog, c: Conf, end: int, v: seq<int>, lo: nat, n: nat, r: nat, ys: seq<State>) {
    exists ts :: Yields(p, c, end, ts) && AllEnd(p, v, lo, n, r, ts, ys)
  }

  lemma ExploresNone(p: Prog, c: Conf, end: int, v: seq<int>, lo: nat, n: nat, r: nat)
    requires Reaches(p, c, Back([]))
    ensures Explores(p, c, end, v, lo, n, r, [])
  {
    hide Reaches;
    assert Yields(p, c, end, []);
    assert AllEnd(p, v, lo, n, r, [], []);
  }

  lemma ExploresOne(p: Prog, c: Conf, end: int, v: seq<int>, lo: nat, n: nat, r: nat, w: seq<int>, y: State)
    requires Reaches(p, c, Run(end, y.pos, w, [])) && Agrees(p, v, w, lo, n, r) && Rel(p, w, y)
    ensures Explores(p, c, end, v, lo, n, r, [y])
  {
    hide Reaches, Yields, Agrees, Rel;
    YieldsOne(p, c, end, Exit(y.pos, w));
    assert AllEnd(p, v, lo, n, r, [Exit(y.pos, w)], [y]);
  }

  lemma ExploresAfter(p: Prog, c: Conf, d: Conf, end: int, v: seq<int>, lo: nat, n: nat, r: nat, ys: seq<State>)
    requires Reaches(p, c, d) && Explores(p, d, end, v, lo, n, r, ys)
    ensures Explores(p, c, end, v, lo, n, r, ys)
  {
    hide Reaches, Yields, AllEnd;
    var ts :| Yields(p, d, end, ts) && AllEnd(p, v, lo, n, r, ts, ys);
    YieldsAfter(p, c, d, end, ts);
  }

  lemma AgreesThen(p: Prog, u: seq<int>, v: seq<int>, w: seq<int>, lo: nat, n: nat, r: nat, lo': nat, n': nat, r': nat)
    requires Agrees(p, u, v, lo, n, r) && Agrees(p, v, w, lo', n', r')
    requires lo <= lo' && lo' + n' <= lo + n && r <= r'
    ensures Agrees(p, u, w, lo, n, r)
  {
  }

  /** The same exploration seen from an earlier state `u`. */
  lemma ExploresSince(p: Prog, c: Conf, end: int, u: seq<int>, lo: nat, n: nat, r: nat,
                      v: seq<int>, lo': nat, n': nat, r': nat, ys: seq<State>)
    requires Explores(p, c, end, v, lo', n', r', ys) && Agrees(p, u, v, lo, n, r)
    requires lo <= lo' && lo' + n' <= lo + n && r <= r'
    ensures Explores(p, c, end, u, lo, n, r, ys)
  {
    hide Yields, Agrees, Rel;
    var ts: seq<Exit> :| Yields(p, c, end, ts) && AllEnd(p, v, lo', n', r', ts, ys);
    forall i | 0 <= i < |ts|
      ensures Ends(p, u, lo, n, r, ts[i], ys[i])
    {
      assert Ends(p, v, lo', n', r', ts[i], ys[i]);
      AgreesThen(p, u, v, ts[i].slots, lo, n, r, lo', n', r');
    }
    assert AllEnd(p, u, lo, n, r, ts, ys);
  }

  lemma ExploresAbove(p: Prog, c: Conf, below: seq<Frame>, end: int, v: seq<int>, lo: nat, n: nat, r: nat,
                      ys: seq<State>, zs: seq<State>)
    requires Explores(p, c, end, v, lo, n, r, ys)
    requires Choices(below) && Explores(p, Back(below), end, v, lo, n, r, zs)
    ensures Explores(p, Under(c, below), end, v, lo, n, r, ys + zs)
  {
    hide Yields, Ends, Choices;
    var ts :| Yields(p, c, end, ts) && AllEnd(p, v, lo, n, r, ts, ys);
    var us :| Yields(p, Back(below), end, us) && AllEnd(p, v, lo, n, r, us, zs);
    YieldsAbove(p, c, below, end, ts, us);
    assert AllEnd(p, v, lo, n, r, ts + us, ys + zs);
  }

  /** A choice point explores its first branch, then the other one. */
  lemma ExploresBranch(p: Prog, c: Conf, nextFirst: bool, next: int, target: int, pos: int, w: seq<int>,
                       end: int, v: seq<int>, lo: nat, n: nat, r: nat, ys: seq<State>, zs: seq<State>)
    requires Step(p, c) == Branch(nextFirst, next, target, pos, w, [])
    requires Explores(p, Run(next, pos, w, []), end, v, lo, n, r, ys)
    requires Explores(p, Run(target, pos, w, []), end, v, lo, n, r, zs)
    ensures Explores(p, c, end, v, lo, n, r, if nextFirst then ys + zs else zs + ys)
  {
    hide Explores, Reaches;
    var (first, second) := if nextFirst then (next, target) else (target, next);
    var frame := [Frame(Choice, second, pos, w)];
    assert Push(Choice, second, pos, w, []) == frame;
    ReachesStep(p, c, Step(p, c));
    assert Step(p, Back(frame)) == Run(second, pos, w, []);
    hide Step;
    ReachesStep(p, Back(frame), Run(second, pos, w, []));
    ExploresAfter(p, Back(frame), Run(second, pos, w, []), end, v, lo, n, r, if nextFirst then zs else ys);
    ExploresAbove(p, Run(first, pos, w, []), frame, end, v, lo, n, r,
                  if nextFirst then ys else zs, if nextFirst then zs else ys);
    assert [] + frame == frame;
    ExploresAfter(p, c, Run(first, pos, w, frame), end, v, lo, n, r, if nextFirst then ys + zs else zs + ys);
  }

  /** A deterministic continuation of every exit. */
  lemma {:induction false} YieldsNext(p: Prog, c: Conf, mid: int, end: int, ts: seq<Exit>, us: seq<Exit>)
    requires Yields(p, c, mid, ts) && |us| == |ts|
    requires forall i | 0 <= i < |ts| ::
               Reaches(p, Run(mid, ts[i].pos, ts[i].slots, []), Run(end, us[i].pos, us[i].slots, []))
    ensures Yields(p, c, end, us)
    decreases |ts|
  {
    hide Reaches;
    if ts != [] {
      var stack :| Choices(stack) && Reaches(p, c, Run(mid, ts[0].pos, ts[0].slots, stack))
                   && Yields(p, Back(stack), mid, ts[1..]);
      YieldsNext(p, Back(stack), mid, end, ts[1..], us[1..]);
      ReachesUnder(p, Run(mid, ts[0].pos, ts[0].slots, []), Run(end, us[0].pos, us[0].slots, []), stack);
      assert [] + stack == stack;
      ReachesThen(p, c, Run(mid, ts[0].pos, ts[0].slots, stack), Run(end, us[0].pos, us[0].slots, stack));
    }
  }

  /** Exploring from every exit in turn: `zss[i]` is what follows the i-th one. */
  lemma {:induction false} ExploresEach(p: Prog, c: Conf, mid: int, end: int, ts: seq<Exit>,
                                        v: seq<int>, lo: nat, n: nat, r: nat, zss: seq<seq<State>>)
    requires Yields(p, c, mid, ts) && |zss| == |ts|
    requires forall i | 0 <= i < |ts| ::
               Explores(p, Run(mid, ts[i].pos, ts[i].slots, []), end, v, lo, n, r, zss[i])
    ensures Explores(p, c, end, v, lo, n, r, Flatten(zss))
    decreases |ts|
  {
    hide Reaches, Explores, Choices;
    if ts == [] {
      ExploresNone(p, c, end, v, lo, n, r);
    } else {
      var stack :| Choices(stack) && Reaches(p, c, Run(mid, ts[0].pos, ts[0].slots, stack))
                   && Yields(p, Back(stack), mid, ts[1..]);
      ExploresEach(p, Back(stack), mid, end, ts[1..], v, lo, n, r, zss[1..]);
      ExploresAbove(p, Run(mid, ts[0].pos, ts[0].slots, []), stack, end, v, lo, n, r, zss[0], Flatten(zss[1..]));
      assert [] + stack == stack;
      ExploresAfter(p, c, Run(mid, ts[0].pos, ts[0].slots, stack), end, v, lo, n, r, Flatten(zss));
    }
  }

}
