/** The executor as a machine that copies its whole state at every choice point. */
module RegexpMachine {
  import opened Options
  import opened RegexpInput
  import opened RegexpBytecode
  import M = RegexpMatcher

  /** A null pointer in `capture[]`. */
  const NULL := -1

  datatype Kind = Choice | Ahead | NotAhead

  /** A choice point with the state to resume from. */
  datatype Frame = Frame(kind: Kind, pc: int, pos: int, slots: seq<int>)

  /** `slots` is `capture[]`: two entries per capture, then the registers.
      The top of `stack` is its first element.  `Stuck` stands for every execution that
      libregexp.c leaves undefined or answers with LRE_RET_BYTECODE_ERROR. */
  datatype Conf =
    | Run(pc: int, pos: int, slots: seq<int>, stack: seq<Frame>)
    | Back(stack: seq<Frame>)
    | Done(matched: bool, slots: seq<int>)
    | Stuck

  /** `captures` is the number of captures of the compiled pattern. */
  datatype Prog = Prog(code: seq<Byte>, env: Env, captures: nat)

  /** The binary search of `range` and `range32` between the intervals lo .. hi. */
  predicate Search(bounds: seq<int>, c: int, lo: int, hi: int)
    requires |bounds| % 2 == 0 && 0 <= lo && hi < |bounds| / 2
    decreases hi - lo + 1
  {
    if lo > hi then false
    else
      var mid := (lo + hi) / 2;
      if c < bounds[2 * mid] then Search(bounds, c, lo, mid - 1)
      else if c > bounds[2 * mid + 1] then Search(bounds, c, mid + 1, hi)
      else true
  }

  predicate RangeAccepts(wide: bool, bounds: seq<int>, c: int)
    requires |bounds| % 2 == 0 && bounds != []
  {
    var high := bounds[|bounds| - 1];
    if c < bounds[0] then false
    else if !wide && c >= 0xFFFF && high == 0xFFFF then true
    else if c > high then false
    else Search(bounds, c, 0, |bounds| / 2 - 1)
  }

  /** The test of an instruction that reads one character. */
  predicate Reads(i: Instr) {
    || i.IChar? || i.IDot? || i.ISpace?
    || (i.IRange? && |i.bounds| % 2 == 0 && i.bounds != [])
  }

  predicate Test(env: Env, i: Instr, c: int)
    requires Reads(i)
  {
    match i
    case IChar(d, icase) => env.Fold(icase, c) == d
    case IDot(all) => all || !IsLineTerminator(c)
    case ISpace(neg) => IsSpace(c) != neg
    case IRange(wide, icase, bounds) => RangeAccepts(wide, bounds, env.Fold(icase, c))
  }

  function ResetSlots(v: seq<int>, lo: nat, hi: int): (w: seq<int>)
    ensures |w| == |v|
  {
    seq(|v|, j requires 0 <= j < |v| => if lo <= j / 2 <= hi then NULL else v[j])
  }

  /** The position after a back reference; None is a failure. */
  function Refer(p: Prog, backward: bool, icase: bool, refs: seq<nat>, pos: int, v: seq<int>): Option<int>
    requires 0 <= pos <= p.env.Len() && 2 * p.captures <= |v|
    requires forall j | 0 <= j < 2 * p.captures :: NULL <= v[j] <= p.env.Len()
  {
    if refs == [] then Some(pos)
    else if refs[0] >= p.captures then None
    else
      var s, e := v[2 * refs[0]], v[2 * refs[0] + 1];
      if s == NULL || e == NULL then Refer(p, backward, icase, refs[1..], pos, v)
      else if backward then M.RepeatBackward(p.env, icase, s, e, pos)
      else M.RepeatForward(p.env, icase, s, e, pos)
  }

  /** The frames below the topmost one of the given kind, and that frame. */
  function Cut(stack: seq<Frame>, kind: Kind): Option<(Frame, seq<Frame>)> {
    if stack == [] then None
    else if stack[0].kind == kind then Some((stack[0], stack[1..]))
    else Cut(stack[1..], kind)
  }

  function Push(kind: Kind, pc: int, pos: int, v: seq<int>, stack: seq<Frame>): seq<Frame> {
    [Frame(kind, pc, pos, v)] + stack
  }

  function Branch(nextFirst: bool, next: int, target: int, pos: int, v: seq<int>, stack: seq<Frame>): Conf {
    if nextFirst then Run(next, pos, v, Push(Choice, target, pos, v, stack))
    else Run(target, pos, v, Push(Choice, next, pos, v, stack))
  }

  /** `val2`: the counter after one more round, in 32 bits. */
  function Decrement(x: int): int { (x - 1) % 0x1_0000_0000 }

  /** The effect of one instruction; `next` is the address of the one that follows it. */
  function Perform(p: Prog, i: Instr, next: int, pos: int, v: seq<int>, stack: seq<Frame>): Conf
    requires 0 <= pos <= p.env.Len() && 2 * p.captures <= |v|
  {
    var len := p.env.Len();
    var regs := 2 * p.captures;
    match i
    case IGoto(off) => Run(next + off, pos, v, stack)
    case ISplit(nextFirst, off) => Branch(nextFirst, next, next + off, pos, v, stack)
    case IMatch => Done(true, v)
    case ILook(neg, off) => Run(next, pos, v, Push(if neg then NotAhead else Ahead, next + off, pos, v, stack))
    case ILookMatch(neg) =>
      (match Cut(stack, if neg then NotAhead else Ahead)
       case None => Stuck
       case Some((f, below)) => if neg then Back(below) else Run(f.pc, f.pos, v, below))
    case ISave(end, k) =>
      if k < p.captures then Run(next, pos, v[2 * k + Bit(end) := pos], stack) else Stuck
    case IReset(lo, hi) =>
      if hi < p.captures then Run(next, pos, ResetSlots(v, lo, hi), stack) else Stuck
    case ISetCounter(r, val) =>
      if regs + r < |v| then Run(next, pos, v[regs + r := val], stack) else Stuck
    case ISetPos(r) =>
      if regs + r < |v| then Run(next, pos, v[regs + r := pos], stack) else Stuck
    case ICheckAdvance(r) =>
      if regs + r < |v| then if v[regs + r] == pos then Back(stack) else Run(next, pos, v, stack) else Stuck
    case ILoop(r, off) =>
      if regs + r < |v| then
        var n := Decrement(v[regs + r]);
        Run(if n != 0 then next + off else next, pos, v[regs + r := n], stack)
      else Stuck
    case ILoopSplit(check, nextFirst, r, limit, off) =>
      if regs + r + Bit(check) < |v| then
        var n := Decrement(v[regs + r]);
        var w := v[regs + r := n];
        if n > limit then Run(next + off, pos, w, stack)
        else if check && w[regs + r + 1] == pos && n != limit then Back(stack)
        else if n != 0 then Branch(nextFirst, next, next + off, pos, w, stack)
        else Run(next, pos, w, stack)
      else Stuck
    case ILineStart(multi) => if M.AtLineStart(p.env, multi, pos) then Run(next, pos, v, stack) else Back(stack)
    case ILineEnd(multi) => if M.AtLineEnd(p.env, multi, pos) then Run(next, pos, v, stack) else Back(stack)
    case IWordBoundary(neg, icase) =>
      if M.AtWordBoundary(p.env, icase, pos) != neg then Run(next, pos, v, stack) else Back(stack)
    case IBackRef(backward, icase, refs) =>
      if forall j | 0 <= j < regs :: NULL <= v[j] <= len then
        var q := Refer(p, backward, icase, refs, pos, v);
        if q.Some? then Run(next, q.value, v, stack) else Back(stack)
      else Stuck
    case IPrev => if pos == 0 then Back(stack) else Run(next, Prev(p.env, pos, 0), v, stack)
    case _ =>
      if !Reads(i) then Stuck
      else if pos == len || !Test(p.env, i, CharAt(p.env, pos, len)) then Back(stack)
      else Run(next, Next(p.env, pos, len), v, stack)
  }

  function Step(p: Prog, c: Conf): Conf {
    match c
    case Run(pc, pos, v, stack) =>
      var i := Decode(p.code, pc);
      if i.Some? && 0 <= pos <= p.env.Len() && 2 * p.captures <= |v| then
        Perform(p, i.value, pc + Size(i.value), pos, v, stack)
      else Stuck
    case Back(stack) =>
      if stack == [] then Done(false, [])
      else if stack[0].kind == Ahead then Back(stack[1..])
      else Run(stack[0].pc, stack[0].pos, stack[0].slots, stack[1..])
    case _ => c
  }

  function Iterate(p: Prog, c: Conf, n: nat): Conf
    decreases n
  {
    if n == 0 then c else Iterate(p, Step(p, c), n - 1)
  }
}
