/** `lre_exec_backtrack`: the executor with one array of slots and one flat stack, proved to
    take the steps of the machine that copies its whole state at every choice point. */
module RegexpBacktracker {
  import opened Options
  import opened RegexpInput
  import opened RegexpBytecode
  import opened RegexpMachine
  import opened RegexpTraces
  import opened RegexpUndoLog
  import M = RegexpMatcher
  import T = RegexpText

  class Backtracker {
    const prog: Prog
    const capture: array<int>
    var stack: array<Elem>
    var sp: nat
    var bp: nat
    var pc: int
    var pos: int

    ghost predicate Valid()
      reads this, capture, stack
    {
      && StackOk(stack[..], sp, bp, capture.Length)
      && 2 * prog.captures <= capture.Length
    }

    /** The choice points, with the slots each of them will restore. */
    ghost function Frames(): seq<Frame>
      requires Valid()
      reads this, capture, stack
    {
      Unwind(capture[..], stack[..], sp, bp)
    }

    /** The configuration of the copying machine that this state stands for. */
    ghost function Abs(): Conf
      requires Valid()
      reads this, capture, stack
    {
      Run(pc, pos, capture[..], Frames())
    }

    constructor (p: Prog, slots: array<int>, start: int)
      requires 2 * p.captures <= slots.Length
      ensures Valid() && fresh(stack) && prog == p && capture == slots
      ensures Abs() == Run(0, start, slots[..], [])
    {
      prog, capture := p, slots;
      stack := new Elem[32](_ => Ptr(NULL));
      sp, bp, pc, pos := 0, 0, 0, start;
    }

    /** `CHECK_STACK_SPACE`. */
    method Reserve(n: nat)
      requires Valid()
      modifies this`stack
      ensures Valid() && Frames() == old(Frames())
      ensures sp + n <= stack.Length
      ensures stack == old(stack) || fresh(stack)
      ensures stack[..sp] == old(stack[..sp])
    {
      if stack.Length - sp < n {
        var size := stack.Length * 3 / 2;
        if size < sp + n {
          size := sp + n;
        }
        var bigger := new Elem[size](i requires 0 <= i < size reads this, stack => if i < stack.Length then stack[i] else Ptr(NULL));
        StackSame(capture[..], stack[..], bigger[..], sp, bp);
        assert bigger[..sp] == stack[..sp];
        stack := bigger;
      }
    }

    /** `SAVE_CAPTURE`. */
    method SaveCapture(idx: nat, val: int)
      requires Valid() && idx < capture.Length
      modifies this`sp, this`stack, stack, capture
      ensures Valid() && Frames() == old(Frames())
      ensures capture[..] == old(capture[..])[idx := val]
      ensures stack == old(stack) || fresh(stack)
    {
      hide Unwind, Undo, StackOk;
      Reserve(2);
      ghost var v, st := capture[..], stack[..];
      stack[sp] := Val(idx);
      stack[sp + 1] := Ptr(capture[idx]);
      capture[idx] := val;
      assert stack[..][..sp] == st[..sp];
      Save(v, st, stack[..], sp, bp, idx, val);
      sp := sp + 2;
    }

    /** `SAVE_CAPTURE_CHECK`: no new entry if the log above `bp` already has one for that slot. */
    method SaveCaptureCheck(idx: nat, val: int)
      requires Valid() && idx < capture.Length
      modifies this`sp, this`stack, stack, capture
      ensures Valid() && Frames() == old(Frames())
      ensures capture[..] == old(capture[..])[idx := val]
      ensures stack == old(stack) || fresh(stack)
    {
      var sp1 := sp;
      while sp1 > bp && !(stack[sp1 - 2].Val? && stack[sp1 - 2].i == idx)
        invariant bp <= sp1 <= sp && LogOk(stack[..], sp1, bp, capture.Length)
        invariant Logged(stack[..], sp1, bp, idx) ==> Logged(stack[..], sp, bp, idx)
        decreases sp1
      {
        sp1 := sp1 - 2;
      }
      if sp1 > bp {
        SaveSkipped(capture[..], stack[..], sp, bp, idx, val);
        capture[idx] := val;
      } else {
        SaveCapture(idx, val);
      }
    }

    /** Pushes a choice point. */
    method PushChoice(kind: Kind, target: int)
      requires Valid()
      modifies this`sp, this`bp, this`stack, stack
      ensures Valid() && Frames() == Push(kind, target, pos, capture[..], old(Frames()))
      ensures stack == old(stack) || fresh(stack)
    {
      hide Unwind, Undo, StackOk;
      Reserve(3);
      ghost var st := stack[..];
      stack[sp] := Ptr(target);
      stack[sp + 1] := Ptr(pos);
      stack[sp + 2] := Bp(bp, kind);
      assert stack[..][..sp] == st[..sp];
      PushFrame(capture[..], st, stack[..], sp, bp, kind, target, pos);
      sp := sp + 3;
      bp := sp;
    }

    /** Undoes the log of the topmost frame and pops it. */
    method Pop() returns (kind: Kind)
      requires Valid() && bp != 0
      modifies this`sp, this`bp, this`pc, this`pos, capture
      ensures Valid()
      ensures var f := old(Frames())[0]; f == Frame(kind, pc, pos, capture[..])
      ensures Frames() == old(Frames())[1..]
      ensures bp < old(bp)
    {
      ghost var v, st, top := capture[..], stack[..], sp;
      UnwindOnce(v, st, top, bp);
      while sp > bp
        invariant bp == old(bp) && stack[..] == st
        invariant LogOk(st, sp, bp, |v|) && LogOk(st, top, bp, |v|)
        invariant Undo(capture[..], st, sp, bp) == Undo(v, st, top, bp)
        decreases sp
      {
        ghost var w := capture[..];
        capture[stack[sp - 2].i] := stack[sp - 1].p;
        assert capture[..] == w[st[sp - 2].i := st[sp - 1].p];
        sp := sp - 2;
      }
      pc := stack[sp - 3].p;
      pos := stack[sp - 2].p;
      kind := stack[sp - 1].kind;
      bp := stack[sp - 1].val;
      sp := sp - 3;
    }

    /** `no_match`: back to the topmost choice point that is not a lookahead. */
    method NoMatch() returns (found: bool, ghost k: nat)
      requires Valid()
      modifies this`sp, this`bp, this`pc, this`pos, capture
      ensures Valid() && k > 0
      ensures found ==> Iterate(prog, Back(old(Frames())), k) == Abs()
      ensures !found ==> Iterate(prog, Back(old(Frames())), k) == Done(false, [])
    {
      ghost var c := Back(Frames());
      k := 0;
      while true
        invariant Valid() && Iterate(prog, c, k) == Back(Frames())
        decreases bp
      {
        IterateMore(prog, c, k);
        BackStep(prog, Frames());
        k := k + 1;
        if bp == 0 {
          return false, k;
        }
        var kind := Pop();
        if kind != Ahead {
          return true, k;
        }
      }
    }

    /** `negative_lookahead_match`: pop everything down to the start of the lookahead. */
    method PopNegative()
      requires Valid() && Cut(Frames(), NotAhead).Some?
      modifies this`sp, this`bp, this`pc, this`pos, capture
      ensures Valid() && Frames() == Cut(old(Frames()), NotAhead).value.1
    {
      while true
        invariant Valid() && Cut(Frames(), NotAhead) == Cut(old(Frames()), NotAhead)
        decreases bp
      {
        assert bp != 0;
        var kind := Pop();
        if kind == NotAhead {
          return;
        }
      }
    }

    /** `lookahead_match`: drop the frames down to the start of the lookahead, and move the logs
        between them together so that the captures it set can still be undone. */
    method PopAhead()
      requires Valid() && Cut(Frames(), Ahead).Some?
      modifies this`sp, this`bp, this`pc, this`pos, stack
      ensures Valid()
      ensures var (f, below) := Cut(old(Frames()), Ahead).value; pc == f.pc && pos == f.pos && Frames() == below
    {
      hide StackOk, Unwind, Looks, Cut, Compacted, Collect, Linked, Base;
      ghost var st, v, bp0 := stack[..], capture[..], bp;
      LooksCut(v, st, sp, bp, Ahead);
      StackParts(st, sp, bp, |v|);
      Compact(v, st, sp, bp);
      var top := sp;
      UnlinkFrames();
      ghost var result := Compacted(st, top, bp0);
      if sp != 0 {
        MoveLogs(top, result);
        assert stack[..][..sp] == result && result[..sp] == result;
        StackSame(v, result, stack[..], sp, bp);
      } else {
        EmptyStack(v, result, stack[..]);
      }
    }

    /** First pass: walk down to the lookahead frame, leaving in each frame where its log ends. */
    method UnlinkFrames()
      requires Looks(stack[..], bp, Ahead) && bp <= sp <= stack.Length
      modifies this`sp, this`bp, this`pc, this`pos, stack
      ensures sp == Base(old(stack[..]), old(bp)) && sp <= old(sp) <= stack.Length
      ensures Linked(stack[..], sp, old(sp))
      ensures stack[..sp] + Collect(stack[..], sp, old(sp)) == Compacted(old(stack[..]), old(sp), old(bp))
      ensures var st := old(stack[..]); pc == st[sp].p && pos == st[sp + 1].p && bp == st[sp + 2].val
    {
      hide Looks, Collect, Linked, Base, Compacted;
      ghost var st, bp0 := stack[..], bp;
      var top := sp;
      Unlinked(st, top, bp0);
      while true
        invariant Unlinking(st, top, bp0, stack[..], sp, bp)
        decreases bp
      {
        UnlinkingFrame(st, top, bp0, stack[..], sp, bp);
        UnlinkStep(st, top, bp0, stack[..], sp, bp);
        var sp1 := sp;
        sp := bp;
        pc := stack[sp - 3].p;
        pos := stack[sp - 2].p;
        var kind := stack[sp - 1].kind;
        bp := stack[sp - 1].val;
        ghost var before := stack[..];
        stack[sp - 1] := Ptr(sp1);
        assert stack[..] == before[sp - 1 := Ptr(sp1)];
        sp := sp - 3;
        if kind == Ahead {
          return;
        }
      }
    }

    /** Second pass: copy the logs down, one after the other. */
    method MoveLogs(top: nat, ghost result: seq<Elem>)
      requires sp <= top <= stack.Length && Linked(stack[..], sp, top)
      requires stack[..sp] + Collect(stack[..], sp, top) == result
      modifies this`sp, stack
      ensures sp <= stack.Length && stack[..sp] == result
    {
      hide Linked, Collect;
      var sp1 := sp;
      CollectOnce(stack[..], sp1, top);
      while sp1 < top
        invariant sp <= sp1 <= top && Linked(stack[..], sp1, top)
        invariant stack[..sp] + Collect(stack[..], sp1, top) == result
        decreases top - sp1
      {
        CollectOnce(stack[..], sp1, top);
        var next := stack[sp1 + 2].p;
        ghost var before := stack[..];
        ghost var head := stack[..sp];
        CopyDown(sp1 + 3, next);
        CollectSame(before, stack[..], next, top);
        assert head + (before[sp1 + 3..next] + Collect(before, next, top)) == stack[..sp] + Collect(before, next, top);
        sp1 := next;
      }
      CollectOnce(stack[..], sp1, top);
    }

    /** Appends the elements from .. end - 1 at the stack pointer. */
    method CopyDown(from: nat, end: nat)
      requires sp < from <= end <= stack.Length
      modifies this`sp, stack
      ensures sp == old(sp) + end - from && stack[..sp] == old(stack[..sp]) + old(stack[from..end])
      ensures stack[..][end..] == old(stack[..][end..])
    {
      var sp1 := from;
      while sp1 < end
        invariant from <= sp1 <= end && sp - old(sp) == sp1 - from
        invariant stack[..sp] == old(stack[..])[..old(sp)] + old(stack[..])[from..sp1]
        invariant stack[..][sp1..] == old(stack[..])[sp1..]
      {
        ghost var before := stack[..];
        assert stack[sp1] == stack[..][sp1..][0] == old(stack[..])[sp1];
        stack[sp] := stack[sp1];
        assert stack[..sp + 1] == before[..sp] + [before[sp1]];
        assert stack[..][sp1 + 1..] == before[sp1..][1..];
        sp, sp1 := sp + 1, sp1 + 1;
      }
    }

    // ----- single instructions -----

    /** `save_reset`. */
    method ResetCaptures(lo: nat, hi: int)
      requires Valid() && 2 * hi + 1 < capture.Length
      modifies this`sp, this`stack, stack, capture
      ensures Valid() && Frames() == old(Frames())
      ensures capture[..] == ResetSlots(old(capture[..]), lo, hi)
      ensures stack == old(stack) || fresh(stack)
    {
      var k := lo;
      while k <= hi
        invariant lo <= k && (k <= hi + 1 || k == lo)
        invariant Valid() && Frames() == old(Frames()) && (stack == old(stack) || fresh(stack))
        invariant capture[..] == ResetSlots(old(capture[..]), lo, k - 1)
        decreases hi + 1 - k
      {
        SaveCapture(2 * k, NULL);
        SaveCapture(2 * k + 1, NULL);
        ResetMore(old(capture[..]), lo, k);
        k := k + 1;
      }
      ResetMoot(old(capture[..]), lo, k - 1, hi);
    }

    /** `range` and `range32`: a binary search over the stored intervals. */
    method RangeTest(wide: bool, bounds: seq<int>, c: int) returns (b: bool)
      requires |bounds| % 2 == 0 && bounds != []
      ensures b == RangeAccepts(wide, bounds, c)
    {
      var n := |bounds| / 2;
      if c < bounds[0] {
        return false;
      }
      if !wide && c >= 0xFFFF && bounds[2 * n - 1] == 0xFFFF {
        return true;
      }
      if c > bounds[2 * n - 1] {
        return false;
      }
      b := Find(bounds, c);
    }

    method Find(bounds: seq<int>, c: int) returns (b: bool)
      requires |bounds| % 2 == 0
      ensures b == Search(bounds, c, 0, |bounds| / 2 - 1)
    {
      hide Search;
      var lo, hi := 0, |bounds| / 2 - 1;
      while lo <= hi
        invariant 0 <= lo && hi < |bounds| / 2
        invariant Search(bounds, c, lo, hi) == Search(bounds, c, 0, |bounds| / 2 - 1)
        decreases hi - lo + 1
      {
        SearchOnce(bounds, c, lo, hi);
        var mid := (lo + hi) / 2;
        if c < bounds[2 * mid] {
          hi := mid - 1;
        } else if c > bounds[2 * mid + 1] {
          lo := mid + 1;
        } else {
          return true;
        }
      }
      SearchOnce(bounds, c, lo, hi);
      return false;
    }

    /** Reads one character and tests it. */
    method CharTest(i: Instr) returns (b: bool)
      requires Reads(i) && 0 <= pos < prog.env.Len()
      ensures b == Test(prog.env, i, CharAt(prog.env, pos, prog.env.Len()))
    {
      var c := CharAt(prog.env, pos, prog.env.Len());
      if i.IRange? {
        b := RangeTest(i.wide, i.bounds, prog.env.Fold(i.icase, c));
      } else {
        b := Test(prog.env, i, c);
      }
    }

    /** Compares the text of a capture with what follows, or precedes, the position. */
    method Compare(backward: bool, icase: bool, s: int, e: int) returns (q: Option<int>)
      requires 0 <= s && e <= prog.env.Len() && 0 <= pos <= prog.env.Len()
      ensures q == if backward then M.RepeatBackward(prog.env, icase, s, e, pos) else M.RepeatForward(prog.env, icase, s, e, pos)
      ensures Boundary(prog.env, s) && Boundary(prog.env, e) && Boundary(prog.env, pos) && s <= e ==>
                forall r :: q == Some(r) <==>
                  if backward then T.Repeats(prog.env, icase, s, e, r, pos) else T.Repeats(prog.env, icase, s, e, pos, r)
    {
      hide T.Repeats;
      CompareMeans(backward, icase, s, e);
      var env, len := prog.env, prog.env.Len();
      var p := pos;
      if !backward {
        var s1 := s;
        while s1 < e
          invariant 0 <= s1 && 0 <= p <= len
          invariant M.RepeatForward(env, icase, s1, e, p) == M.RepeatForward(env, icase, s, e, pos)
          decreases e - s1
        {
          if p == len || env.Fold(icase, CharAt(env, s1, e)) != env.Fold(icase, CharAt(env, p, len)) {
            return None;
          }
          s1, p := Next(env, s1, e), Next(env, p, len);
        }
      } else {
        var e1 := e;
        while s < e1
          invariant e1 <= e && 0 <= p <= len
          invariant M.RepeatBackward(env, icase, s, e1, p) == M.RepeatBackward(env, icase, s, e, pos)
          decreases e1 - s
        {
          if p == 0 || env.Fold(icase, CharBefore(env, e1, s)) != env.Fold(icase, CharBefore(env, p, 0)) {
            return None;
          }
          e1, p := Prev(env, e1, s), Prev(env, p, 0);
        }
      }
      return Some(p);
    }

    lemma CompareMeans(backward: bool, icase: bool, s: int, e: int)
      requires 0 <= s && e <= prog.env.Len() && 0 <= pos <= prog.env.Len()
      ensures Boundary(prog.env, s) && Boundary(prog.env, e) && Boundary(prog.env, pos) && s <= e ==>
                forall r ::
                  if backward then M.RepeatBackward(prog.env, icase, s, e, pos) == Some(r) <==> T.Repeats(prog.env, icase, s, e, r, pos)
                  else M.RepeatForward(prog.env, icase, s, e, pos) == Some(r) <==> T.Repeats(prog.env, icase, s, e, pos, r)
    {
      hide T.Repeats, M.RepeatForward, M.RepeatBackward, Boundary;
      if Boundary(prog.env, s) && Boundary(prog.env, e) && Boundary(prog.env, pos) && s <= e {
        forall r
          ensures if backward then M.RepeatBackward(prog.env, icase, s, e, pos) == Some(r) <==> T.Repeats(prog.env, icase, s, e, r, pos)
                  else M.RepeatForward(prog.env, icase, s, e, pos) == Some(r) <==> T.Repeats(prog.env, icase, s, e, pos, r)
        {
          T.RepeatForwardIs(prog.env, icase, s, e, pos, r);
          T.RepeatBackwardIs(prog.env, icase, s, e, pos, r);
        }
      }
    }

    /** The back-reference instructions: the first capture of the list that is set. */
    method Reference(backward: bool, icase: bool, refs: seq<nat>) returns (q: Option<int>)
      requires Valid() && 0 <= pos <= prog.env.Len()
      requires forall j | 0 <= j < 2 * prog.captures :: NULL <= capture[j] <= prog.env.Len()
      ensures q == Refer(prog, backward, icase, refs, pos, capture[..])
    {
      var i := 0;
      while i < |refs|
        invariant 0 <= i <= |refs|
        invariant Refer(prog, backward, icase, refs[i..], pos, capture[..]) == Refer(prog, backward, icase, refs, pos, capture[..])
      {
        var k := refs[i];
        assert refs[i..][1..] == refs[i + 1..];
        if k >= prog.captures {
          return None;
        }
        var s, e := capture[2 * k], capture[2 * k + 1];
        if s != NULL && e != NULL {
          q := Compare(backward, icase, s, e);
          return;
        }
        i := i + 1;
      }
      return Some(pos);
    }

    // Each of the following carries out one instruction at `next`'s predecessor.  `ok` is false
    // where the source jumps to `no_match`.

    ghost predicate Does(i: Instr, next: int, v: seq<int>, at: int, frames: seq<Frame>, ok: bool)
      requires Valid() && 0 <= at <= prog.env.Len() && 2 * prog.captures <= |v|
      reads this, capture, stack
    {
      if ok then Perform(prog, i, next, at, v, frames) == Abs() else Perform(prog, i, next, at, v, frames) == Back(Frames())
    }

    method Jump(i: Instr, next: int)
      requires Valid() && 0 <= pos <= prog.env.Len()
      requires i.IGoto? || i.ISplit? || i.ILook?
      modifies this, stack
      ensures Valid() && (stack == old(stack) || fresh(stack)) && Does(i, next, old(capture[..]), old(pos), old(Frames()), true)
    {
      match i
      case IGoto(off) =>
        pc := next + off;
      case ISplit(nextFirst, off) =>
        PushChoice(Choice, if nextFirst then next + off else next);
        pc := if nextFirst then next else next + off;
      case ILook(neg, off) =>
        PushChoice(if neg then NotAhead else Ahead, next + off);
        pc := next;
    }

    method FinishLook(neg: bool, next: int) returns (ok: bool)
      requires Valid() && 0 <= pos <= prog.env.Len()
      requires Cut(Frames(), if neg then NotAhead else Ahead).Some?
      modifies this, stack, capture
      ensures Valid() && stack == old(stack) && Does(ILookMatch(neg), next, old(capture[..]), old(pos), old(Frames()), ok)
    {
      if neg {
        PopNegative();
        ok := false;
      } else {
        PopAhead();
        ok := true;
      }
    }

    method Record(i: Instr, next: int)
      requires Valid() && 0 <= pos <= prog.env.Len()
      requires i.ISave? || i.IReset? || i.ISetCounter? || i.ISetPos?
      requires !Perform(prog, i, next, pos, capture[..], Frames()).Stuck?
      modifies this, stack, capture
      ensures Valid() && (stack == old(stack) || fresh(stack)) && Does(i, next, old(capture[..]), old(pos), old(Frames()), true)
    {
      match i
      case ISave(end, k) => SaveCapture(2 * k + Bit(end), pos); pc := next;
      case IReset(lo, hi) => ResetCaptures(lo, hi); pc := next;
      case ISetCounter(r, val) => SaveCaptureCheck(2 * prog.captures + r, val); pc := next;
      case ISetPos(r) => SaveCaptureCheck(2 * prog.captures + r, pos); pc := next;
    }

    method LoopBack(r: nat, off: int, next: int)
      requires Valid() && 0 <= pos <= prog.env.Len()
      requires !Perform(prog, ILoop(r, off), next, pos, capture[..], Frames()).Stuck?
      modifies this, stack, capture
      ensures Valid() && (stack == old(stack) || fresh(stack)) && Does(ILoop(r, off), next, old(capture[..]), old(pos), old(Frames()), true)
    {
      var idx := 2 * prog.captures + r;
      var n := Decrement(capture[idx]);
      SaveCaptureCheck(idx, n);
      pc := if n != 0 then next + off else next;
    }

    method LoopOrSplit(i: Instr, next: int) returns (ok: bool)
      requires Valid() && 0 <= pos <= prog.env.Len() && i.ILoopSplit?
      requires !Perform(prog, i, next, pos, capture[..], Frames()).Stuck?
      modifies this, stack, capture
      ensures Valid() && (stack == old(stack) || fresh(stack)) && Does(i, next, old(capture[..]), old(pos), old(Frames()), ok)
    {
      var idx := 2 * prog.captures + i.reg;
      var n := Decrement(capture[idx]);
      SaveCaptureCheck(idx, n);
      ok := true;
      if n > i.limit {
        pc := next + i.off;
      } else if i.check && capture[idx + 1] == pos && n != i.limit {
        ok := false;
      } else if n != 0 {
        PushChoice(Choice, if i.nextFirst then next + i.off else next);
        pc := if i.nextFirst then next else next + i.off;
      } else {
        pc := next;
      }
    }

    method Examine(i: Instr, next: int) returns (ok: bool)
      requires Valid() && 0 <= pos <= prog.env.Len()
      requires i.ICheckAdvance? || i.ILineStart? || i.ILineEnd? || i.IWordBoundary? || i.IBackRef? || i.IPrev?
               || i.IChar? || i.IDot? || i.ISpace? || i.IRange?
      requires !Perform(prog, i, next, pos, capture[..], Frames()).Stuck?
      modifies this`pc, this`pos
      ensures Valid() && Does(i, next, old(capture[..]), old(pos), old(Frames()), ok)
    {
      ok := true;
      pc := next;
      if i.ICheckAdvance? {
        ok := capture[2 * prog.captures + i.reg] != pos;
      } else if i.ILineStart? {
        ok := M.AtLineStart(prog.env, i.multi, pos);
      } else if i.ILineEnd? {
        ok := M.AtLineEnd(prog.env, i.multi, pos);
      } else if i.IWordBoundary? {
        ok := M.AtWordBoundary(prog.env, i.icase, pos) != i.neg;
      } else if i.IBackRef? {
        var q := Reference(i.backward, i.icase, i.refs);
        ok := q.Some?;
        if ok {
          pos := q.value;
        }
      } else if i.IPrev? {
        ok := pos != 0;
        if ok {
          pos := Prev(prog.env, pos, 0);
        }
      } else if pos == prog.env.Len() {
        ok := false;
      } else {
        ok := CharTest(i);
        if ok {
          pos := Next(prog.env, pos, prog.env.Len());
        }
      }
    }

    /** One instruction other than `match`. */
    method Execute(i: Instr, next: int) returns (ok: bool)
      requires Valid() && 0 <= pos <= prog.env.Len() && !i.IMatch?
      requires !Perform(prog, i, next, pos, capture[..], Frames()).Stuck?
      modifies this, stack, capture
      ensures Valid() && (stack == old(stack) || fresh(stack)) && Does(i, next, old(capture[..]), old(pos), old(Frames()), ok)
    {
      ok := true;
      if i.IGoto? || i.ISplit? || i.ILook? {
        Jump(i, next);
      } else if i.ILookMatch? {
        ok := FinishLook(i.neg, next);
      } else if i.ISave? || i.IReset? || i.ISetCounter? || i.ISetPos? {
        Record(i, next);
      } else if i.ILoop? {
        LoopBack(i.reg, i.off, next);
      } else if i.ILoopSplit? {
        ok := LoopOrSplit(i, next);
      } else {
        ok := Examine(i, next);
      }
    }

    /** The main loop.  `n` is any number of steps within which the copying machine halts. */
    method Exec(ghost n: nat) returns (matched: bool)
      requires Valid() && Iterate(prog, Abs(), n).Done?
      modifies this, stack, capture
      ensures Iterate(prog, old(Abs()), n) == if matched then Done(true, capture[..]) else Done(false, [])
    {
      hide Perform, Decode, Size, Iterate, StackOk, Unwind;
      ghost var c, k := Abs(), 0;
      IterateNone(prog, c);
      while true
        invariant Valid() && (stack == old(stack) || fresh(stack))
        invariant Iterate(prog, c, k) == Abs()
        decreases n - k
      {
        StillRunning(prog, c, k, n);
        var i := Decode(prog.code, pc).value;
        if i.IMatch? {
          MatchStops(prog, c, k, n);
          return true;
        }
        ghost var frames, v, at, next := Frames(), capture[..], pos, pc + Size(i);
        var ok := Execute(i, pc + Size(i));
        k := k + 1;
        if !ok {
          ghost var back := Frames();
          var found: bool;
          ghost var j: nat;
          found, j := NoMatch();
          IteratePlus(prog, c, k, j);
          k := k + j;
          if !found {
            DoneStays(prog, c, k, n);
            return false;
          }
        }
      }
    }
  }

  lemma IterateNone(p: Prog, c: Conf)
    ensures Iterate(p, c, 0) == c
  {
  }

  lemma {:induction false} HaltStays(p: Prog, c: Conf, n: nat)
    requires c.Done? || c.Stuck?
    ensures Iterate(p, c, n) == c
    decreases n
  {
    hide Perform, Decode;
    if n != 0 {
      HaltStays(p, c, n - 1);
    }
  }

  lemma DoneStays(p: Prog, c: Conf, k: nat, n: nat)
    requires Iterate(p, c, k).Done? && Iterate(p, c, n).Done?
    ensures Iterate(p, c, k) == Iterate(p, c, n)
  {
    hide Iterate;
    if k <= n {
      IteratePlus(p, c, k, n - k);
      HaltStays(p, Iterate(p, c, k), n - k);
    } else {
      IteratePlus(p, c, n, k - n);
      HaltStays(p, Iterate(p, c, n), k - n);
    }
  }

  /** A run that will halt with an answer is not stuck before it does. */
  lemma StillRunning(p: Prog, c: Conf, k: nat, n: nat)
    requires Iterate(p, c, n).Done? && Iterate(p, c, k).Run?
    ensures k < n
    ensures var r := Iterate(p, c, k);
            var i := Decode(p.code, r.pc);
            && i.Some? && 0 <= r.pos <= p.env.Len() && 2 * p.captures <= |r.slots|
            && Iterate(p, c, k + 1) == Perform(p, i.value, r.pc + Size(i.value), r.pos, r.slots, r.stack)
            && !Iterate(p, c, k + 1).Stuck?
  {
    hide Iterate, Perform, Decode, Size;
    if n <= k {
      IteratePlus(p, c, n, k - n);
      HaltStays(p, Iterate(p, c, n), k - n);
    }
    IterateMore(p, c, k);
    IteratePlus(p, c, k + 1, n - k - 1);
    if Iterate(p, c, k + 1).Stuck? {
      HaltStays(p, Iterate(p, c, k + 1), n - k - 1);
    }
  }

  lemma MatchStops(p: Prog, c: Conf, k: nat, n: nat)
    requires Iterate(p, c, n).Done? && Iterate(p, c, k).Run? && Decode(p.code, Iterate(p, c, k).pc) == Some(IMatch)
    ensures Iterate(p, c, n) == Done(true, Iterate(p, c, k).slots)
  {
    hide Iterate, Decode, Size;
    StillRunning(p, c, k, n);
    DoneStays(p, c, k + 1, n);
  }

  lemma SearchOnce(bounds: seq<int>, c: int, lo: int, hi: int)
    requires |bounds| % 2 == 0 && 0 <= lo && hi < |bounds| / 2
    ensures var mid := (lo + hi) / 2;
            Search(bounds, c, lo, hi) ==
            if lo > hi then false
            else if c < bounds[2 * mid] then Search(bounds, c, lo, mid - 1)
            else if c > bounds[2 * mid + 1] then Search(bounds, c, mid + 1, hi)
            else true
  {
  }

  lemma ResetMore(v: seq<int>, lo: nat, k: nat)
    requires lo <= k && 2 * k + 1 < |v|
    ensures ResetSlots(v, lo, k - 1)[2 * k := NULL][2 * k + 1 := NULL] == ResetSlots(v, lo, k)
  {
  }

  lemma ResetMoot(v: seq<int>, lo: nat, k: int, hi: int)
    requires k == hi || (hi < lo && k < lo)
    ensures ResetSlots(v, lo, k) == ResetSlots(v, lo, hi)
  {
  }

  lemma EmptyStack(v: seq<int>, result: seq<Elem>, st: seq<Elem>)
    ensures StackOk(st, 0, 0, |v|) && Unwind(v, st, 0, 0) == []
    ensures StackOk(result, |result|, 0, |v|) ==> Unwind(v, result, |result|, 0) == []
  {
  }

  /** The state of the first pass: what is left to walk, and what has been linked. */
  ghost predicate Unlinking(st: seq<Elem>, top: int, bp0: int, cur: seq<Elem>, sp: int, bp: int) {
    && 0 <= bp <= sp <= top <= |st| == |cur| && bp0 <= top
    && Looks(st, bp0, Ahead) && Looks(st, bp, Ahead) && Base(st, bp) == Base(st, bp0)
    && cur[..sp] == st[..sp] && Linked(cur, sp, top)
    && Compacted(st, sp, bp) + Collect(cur, sp, top) == Compacted(st, top, bp0)
  }

  lemma Unlinked(st: seq<Elem>, top: int, bp0: int)
    requires Looks(st, bp0, Ahead) && 0 <= bp0 <= top <= |st|
    ensures Unlinking(st, top, bp0, st, top, bp0)
  {
    assert Collect(st, top, top) == [];
  }

  lemma UnlinkingFrame(st: seq<Elem>, top: int, bp0: int, cur: seq<Elem>, sp: int, bp: int)
    requires Unlinking(st, top, bp0, cur, sp, bp)
    ensures 3 <= bp <= sp <= |cur| && cur[bp - 3] == st[bp - 3] && cur[bp - 2] == st[bp - 2] && cur[bp - 1] == st[bp - 1]
    ensures cur[bp - 3].Ptr? && cur[bp - 2].Ptr? && cur[bp - 1].Bp? && 0 <= cur[bp - 1].val <= bp - 3
  {
    hide Collect, Linked, Base, Compacted;
    CompactedOnce(st, sp, bp);
    assert cur[bp - 3] == cur[..sp][bp - 3] && cur[bp - 2] == cur[..sp][bp - 2] && cur[bp - 1] == cur[..sp][bp - 1];
  }

  lemma UnlinkStep(st: seq<Elem>, top: int, bp0: int, cur: seq<Elem>, sp: int, bp: int)
    requires Unlinking(st, top, bp0, cur, sp, bp)
    ensures 3 <= bp <= |cur| && cur[bp - 1].Bp?
    ensures var next := cur[bp - 1 := Ptr(sp)];
            if cur[bp - 1].kind == Ahead then
              && Base(st, bp0) == bp - 3 && Linked(next, bp - 3, top)
              && next[..bp - 3] + Collect(next, bp - 3, top) == Compacted(st, top, bp0)
            else Unlinking(st, top, bp0, next, bp - 3, cur[bp - 1].val)
  {
    hide Collect, Linked, Base, Compacted, Looks;
    UnlinkingFrame(st, top, bp0, cur, sp, bp);
    CompactedOnce(st, sp, bp);
    var next := cur[bp - 1 := Ptr(sp)];
    assert next[sp..] == cur[sp..];
    CollectSame(cur, next, sp, top);
    LinkOne(next, bp - 3, sp, top);
    assert next[bp..sp] == cur[..sp][bp..] == st[bp..sp];
    assert next[..bp - 3] == cur[..sp][..bp - 3] == st[..bp - 3];
    var rest := Collect(next, sp, top);
    if cur[bp - 1].kind == Ahead {
      assert st[..bp - 3] + (st[bp..sp] + rest) == st[..bp - 3] + st[bp..sp] + rest;
    } else {
      var x := Compacted(st, bp - 3, cur[bp - 1].val);
      assert x + (st[bp..sp] + rest) == x + st[bp..sp] + rest;
    }
  }

  lemma LinkOne(st: seq<Elem>, a: int, next: int, top: int)
    requires 0 <= a && a + 3 <= next <= top <= |st| && st[a + 2] == Ptr(next) && Linked(st, next, top)
    ensures Linked(st, a, top) && Collect(st, a, top) == st[a + 3..next] + Collect(st, next, top)
  {
  }

  lemma IterateMore(p: Prog, c: Conf, k: nat)
    ensures Iterate(p, c, k + 1) == Step(p, Iterate(p, c, k))
  {
    hide Step;
    IteratePlus(p, c, k, 1);
    assert Iterate(p, Step(p, Iterate(p, c, k)), 0) == Step(p, Iterate(p, c, k));
  }

  lemma BackStep(p: Prog, frames: seq<Frame>)
    ensures Step(p, Back(frames)) ==
            if frames == [] then Done(false, [])
            else if frames[0].kind == Ahead then Back(frames[1..])
            else Run(frames[0].pc, frames[0].pos, frames[0].slots, frames[1..])
  {
    hide Perform, Decode;
  }
}
