/** The flat stack of the executor: choice-point frames, and between them the log of the
    capture and register values that were overwritten since the frame below was pushed. */
module RegexpUndoLog {
  import opened RegexpMachine

  /** `StackElem`. */
  datatype Elem = Ptr(p: int) | Val(i: int) | Bp(val: int, kind: Kind)

  /** The log above `bp`: pairs of a slot number and the value that was in it. */
  ghost predicate LogOk(st: seq<Elem>, sp: int, bp: int, n: nat)
    decreases sp
  {
    && 0 <= bp <= sp <= |st|
    && (bp < sp ==>
          && bp + 2 <= sp
          && st[sp - 2].Val? && 0 <= st[sp - 2].i < n && st[sp - 1].Ptr?
          && LogOk(st, sp - 2, bp, n))
  }

  /** The slots after undoing the log between `bp` and `sp`, last entry first. */
  ghost function Undo(v: seq<int>, st: seq<Elem>, sp: int, bp: int): (w: seq<int>)
    requires LogOk(st, sp, bp, |v|)
    ensures |w| == |v|
    decreases sp
  {
    if sp == bp then v else Undo(v[st[sp - 2].i := st[sp - 1].p], st, sp - 2, bp)
  }

  ghost predicate FrameOk(st: seq<Elem>, bp: int) {
    3 <= bp <= |st| && st[bp - 3].Ptr? && st[bp - 2].Ptr? && st[bp - 1].Bp? && 0 <= st[bp - 1].val <= bp - 3
  }

  /** A well-formed stack: a log, the frame below it, and so on down. */
  ghost predicate StackOk(st: seq<Elem>, sp: int, bp: int, n: nat)
    decreases bp
  {
    && LogOk(st, sp, bp, n)
    && (bp != 0 ==> FrameOk(st, bp) && StackOk(st, bp - 3, st[bp - 1].val, n))
  }

  /** The frames, each with the slots as they were when it was pushed. */
  ghost function Unwind(v: seq<int>, st: seq<Elem>, sp: int, bp: int): seq<Frame>
    requires StackOk(st, sp, bp, |v|)
    decreases bp
  {
    if bp == 0 then []
    else
      var w := Undo(v, st, sp, bp);
      [Frame(st[bp - 1].kind, st[bp - 3].p, st[bp - 2].p, w)] + Unwind(w, st, bp - 3, st[bp - 1].val)
  }

  // ----- only the part below the stack pointer matters -----

  lemma {:induction false} LogSame(v: seq<int>, st: seq<Elem>, st': seq<Elem>, sp: int, bp: int, n: nat)
    requires LogOk(st, sp, bp, n) && sp <= |st'| && st[..sp] == st'[..sp]
    ensures LogOk(st', sp, bp, n)
    ensures n == |v| ==> Undo(v, st', sp, bp) == Undo(v, st, sp, bp)
    decreases sp
  {
    if bp < sp {
      assert st'[sp - 2] == st'[..sp][sp - 2] == st[sp - 2] && st'[sp - 1] == st'[..sp][sp - 1] == st[sp - 1];
      assert st[..sp - 2] == st[..sp][..sp - 2] == st'[..sp - 2];
      var w := if n == |v| then v[st[sp - 2].i := st[sp - 1].p] else v;
      LogSame(w, st, st', sp - 2, bp, n);
    }
  }

  lemma {:induction false} StackSame(v: seq<int>, st: seq<Elem>, st': seq<Elem>, sp: int, bp: int)
    requires StackOk(st, sp, bp, |v|) && sp <= |st'| && st[..sp] == st'[..sp]
    ensures StackOk(st', sp, bp, |v|) && Unwind(v, st', sp, bp) == Unwind(v, st, sp, bp)
    decreases bp
  {
    LogSame(v, st, st', sp, bp, |v|);
    if bp != 0 {
      assert st'[bp - 3] == st'[..sp][bp - 3] == st[bp - 3] && st'[bp - 2] == st'[..sp][bp - 2] == st[bp - 2];
      assert st'[bp - 1] == st'[..sp][bp - 1] == st[bp - 1];
      assert st[..bp - 3] == st[..sp][..bp - 3] == st'[..bp - 3];
      StackSame(Undo(v, st, sp, bp), st, st', bp - 3, st[bp - 1].val);
    }
  }

  // ----- saving, pushing, popping -----

  /** `SAVE_CAPTURE`: the overwritten value goes on the log. */
  lemma Save(v: seq<int>, st: seq<Elem>, st': seq<Elem>, sp: int, bp: int, idx: nat, val: int)
    requires StackOk(st, sp, bp, |v|) && idx < |v| && sp + 2 <= |st'| && st[..sp] == st'[..sp]
    requires st'[sp] == Val(idx) && st'[sp + 1] == Ptr(v[idx])
    ensures StackOk(st', sp + 2, bp, |v|)
    ensures Unwind(v[idx := val], st', sp + 2, bp) == Unwind(v, st, sp, bp)
  {
    StackSame(v, st, st', sp, bp);
    LogSame(v, st, st', sp, bp, |v|);
    assert v[idx := val][idx := v[idx]] == v;
    assert Undo(v[idx := val], st', sp + 2, bp) == Undo(v, st', sp, bp);
  }

  /** There is an entry for `idx` above `bp`. */
  ghost predicate Logged(st: seq<Elem>, sp: int, bp: int, idx: int)
    decreases sp
  {
    0 <= bp && bp + 2 <= sp <= |st| && ((st[sp - 2].Val? && st[sp - 2].i == idx) || Logged(st, sp - 2, bp, idx))
  }

  lemma {:induction false} UndoForgets(v: seq<int>, st: seq<Elem>, sp: int, bp: int, idx: nat, val: int)
    requires LogOk(st, sp, bp, |v|) && idx < |v| && Logged(st, sp, bp, idx)
    ensures Undo(v[idx := val], st, sp, bp) == Undo(v, st, sp, bp)
    decreases sp
  {
    var j, x := st[sp - 2].i, st[sp - 1].p;
    if j == idx {
      assert v[idx := val][j := x] == v[j := x];
    } else {
      assert v[idx := val][j := x] == v[j := x][idx := val];
      UndoForgets(v[j := x], st, sp - 2, bp, idx, val);
    }
  }

  /** `SAVE_CAPTURE_CHECK` with nothing to save: the log already restores that slot. */
  lemma SaveSkipped(v: seq<int>, st: seq<Elem>, sp: int, bp: int, idx: nat, val: int)
    requires StackOk(st, sp, bp, |v|) && idx < |v| && Logged(st, sp, bp, idx)
    ensures StackOk(st, sp, bp, |v|) && Unwind(v[idx := val], st, sp, bp) == Unwind(v, st, sp, bp)
  {
    UndoForgets(v, st, sp, bp, idx, val);
  }

  lemma PushFrame(v: seq<int>, st: seq<Elem>, st': seq<Elem>, sp: int, bp: int, kind: Kind, pc: int, pos: int)
    requires StackOk(st, sp, bp, |v|) && sp + 3 <= |st'| && st[..sp] == st'[..sp]
    requires st'[sp] == Ptr(pc) && st'[sp + 1] == Ptr(pos) && st'[sp + 2] == Bp(bp, kind)
    ensures StackOk(st', sp + 3, sp + 3, |v|)
    ensures Unwind(v, st', sp + 3, sp + 3) == Push(kind, pc, pos, v, Unwind(v, st, sp, bp))
  {
    StackSame(v, st, st', sp, bp);
    assert Undo(v, st', sp + 3, sp + 3) == v;
  }

  // ----- a successful lookahead: drop its frames, keep their logs -----

  /** There is a frame of the given kind at or below `bp`. */
  ghost predicate Looks(st: seq<Elem>, bp: int, kind: Kind)
    decreases bp
  {
    bp != 0 && FrameOk(st, bp) && (st[bp - 1].kind == kind || Looks(st, st[bp - 1].val, kind))
  }

  /** The topmost lookahead frame: where it starts. */
  ghost function Base(st: seq<Elem>, bp: int): (b: int)
    requires Looks(st, bp, Ahead)
    ensures 0 <= b <= bp - 3 && b + 3 <= |st| && FrameOk(st, b + 3)
    decreases bp
  {
    if st[bp - 1].kind == Ahead then bp - 3 else Base(st, st[bp - 1].val)
  }

  /** The logs above that frame, without the frames between them. */
  ghost function Kept(st: seq<Elem>, sp: int, bp: int): seq<Elem>
    requires Looks(st, bp, Ahead) && bp <= sp <= |st|
    decreases bp
  {
    if st[bp - 1].kind == Ahead then st[bp..sp] else Kept(st, bp - 3, st[bp - 1].val) + st[bp..sp]
  }

  /** A log that is moved on top of another stack undoes the same values. */
  lemma {:induction false} AppendLog(v: seq<int>, st: seq<Elem>, sp: int, bp: int, x: seq<Elem>, b: int)
    requires LogOk(st, sp, bp, |v|) && LogOk(x, |x|, b, |v|)
    ensures LogOk(x + st[bp..sp], |x| + sp - bp, b, |v|)
    ensures Undo(v, x + st[bp..sp], |x| + sp - bp, b) == Undo(Undo(v, st, sp, bp), x, |x|, b)
    decreases sp
  {
    if sp == bp {
      assert x + st[bp..sp] == x;
    } else {
      var y, y' := x + st[bp..sp], x + st[bp..sp - 2];
      var w := v[st[sp - 2].i := st[sp - 1].p];
      AppendLog(w, st, sp - 2, bp, x, b);
      assert y[..|y'|] == y' && y'[..|y'|] == y';
      LogSame(w, y', y, |y'|, b, |v|);
      assert y[|y| - 2] == st[sp - 2] && y[|y| - 1] == st[sp - 1];
    }
  }

  lemma AppendUnwind(v: seq<int>, st: seq<Elem>, sp: int, bp: int, x: seq<Elem>, b: int)
    requires LogOk(st, sp, bp, |v|) && StackOk(x, |x|, b, |v|)
    ensures StackOk(x + st[bp..sp], |x| + sp - bp, b, |v|)
    ensures Unwind(v, x + st[bp..sp], |x| + sp - bp, b) == Unwind(Undo(v, st, sp, bp), x, |x|, b)
  {
    var y := x + st[bp..sp];
    AppendLog(v, st, sp, bp, x, b);
    if b != 0 {
      var w := Undo(Undo(v, st, sp, bp), x, |x|, b);
      assert y[b - 1] == x[b - 1] && y[b - 2] == x[b - 2] && y[b - 3] == x[b - 3];
      assert y[..b - 3] == x[..b - 3];
      StackSame(w, x, y, b - 3, x[b - 1].val);
    }
  }

  lemma {:induction false} StackDown(v: seq<int>, st: seq<Elem>, sp: int, bp: int)
    requires StackOk(st, sp, bp, |v|)
    ensures StackOk(st[..sp], sp, bp, |v|) && Unwind(v, st[..sp], sp, bp) == Unwind(v, st, sp, bp)
  {
    assert st[..sp][..sp] == st[..sp];
    StackSame(v, st, st[..sp], sp, bp);
  }

  /** The stack after dropping the frames of a lookahead body and of the lookahead itself. */
  ghost function Compacted(st: seq<Elem>, sp: int, bp: int): seq<Elem>
    requires Looks(st, bp, Ahead) && bp <= sp <= |st|
  {
    st[..Base(st, bp)] + Kept(st, sp, bp)
  }

  lemma UnwindOnce(v: seq<int>, st: seq<Elem>, sp: int, bp: int)
    requires StackOk(st, sp, bp, |v|) && bp != 0
    ensures var frames := Unwind(v, st, sp, bp);
            var w := Undo(v, st, sp, bp);
            && StackOk(st, bp - 3, st[bp - 1].val, |v|) && FrameOk(st, bp) && bp <= sp <= |st|
            && frames != [] && frames[0] == Frame(st[bp - 1].kind, st[bp - 3].p, st[bp - 2].p, w)
            && frames[1..] == Unwind(w, st, bp - 3, st[bp - 1].val)
  {
    hide Undo;
  }

  /** It leaves exactly the frames below the lookahead, although captures and registers keep
      their values. */
  lemma {:induction false} Compact(v: seq<int>, st: seq<Elem>, sp: int, bp: int)
    requires StackOk(st, sp, bp, |v|) && Looks(st, bp, Ahead) && bp <= sp <= |st|
    ensures var b := Base(st, bp);
            var y := Compacted(st, sp, bp);
            var f := Cut(Unwind(v, st, sp, bp), Ahead);
            && StackOk(y, |y|, st[b + 2].val, |v|)
            && f.Some? && f.value.0.pc == st[b].p && f.value.0.pos == st[b + 1].p
            && f.value.1 == Unwind(v, y, |y|, st[b + 2].val)
    decreases bp
  {
    hide Undo, Unwind, StackOk, LogOk, Looks, Base, Kept, Compacted;
    CompactedOnce(st, sp, bp);
    StackParts(st, sp, bp, |v|);
    UnwindOnce(v, st, sp, bp);
    var w := Undo(v, st, sp, bp);
    var prev := st[bp - 1].val;
    if st[bp - 1].kind == Ahead {
      StackDown(w, st, bp - 3, prev);
      AppendUnwind(v, st, sp, bp, st[..bp - 3], prev);
    } else {
      StackParts(st, bp - 3, prev, |v|);
      Compact(w, st, bp - 3, prev);
      var x := Compacted(st, bp - 3, prev);
      AppendUnwind(v, st, sp, bp, x, st[Base(st, bp) + 2].val);
    }
  }

  lemma CompactedOnce(st: seq<Elem>, sp: int, bp: int)
    requires Looks(st, bp, Ahead) && bp <= sp <= |st|
    ensures bp != 0 && FrameOk(st, bp) && 3 <= bp && st[bp - 1].Bp?
    ensures st[bp - 1].kind == Ahead ==> Base(st, bp) == bp - 3 && Compacted(st, sp, bp) == st[..bp - 3] + st[bp..sp]
    ensures st[bp - 1].kind != Ahead ==>
              var prev := st[bp - 1].val;
              && Looks(st, prev, Ahead) && prev <= bp - 3 && Base(st, bp) == Base(st, prev)
              && Compacted(st, sp, bp) == Compacted(st, bp - 3, prev) + st[bp..sp]
  {
    if st[bp - 1].kind != Ahead {
      var prev := st[bp - 1].val;
      assert st[..Base(st, bp)] + (Kept(st, bp - 3, prev) + st[bp..sp]) == Compacted(st, bp - 3, prev) + st[bp..sp];
    }
  }

  lemma StackParts(st: seq<Elem>, sp: int, bp: int, n: nat)
    requires StackOk(st, sp, bp, n)
    ensures LogOk(st, sp, bp, n) && 0 <= bp <= sp <= |st|
  {
  }

  lemma {:induction false} LooksCut(v: seq<int>, st: seq<Elem>, sp: int, bp: int, kind: Kind)
    requires StackOk(st, sp, bp, |v|)
    ensures Looks(st, bp, kind) <==> Cut(Unwind(v, st, sp, bp), kind).Some?
    decreases bp
  {
    if bp != 0 {
      var w := Undo(v, st, sp, bp);
      assert Unwind(v, st, sp, bp)[1..] == Unwind(w, st, bp - 3, st[bp - 1].val);
      LooksCut(w, st, bp - 3, st[bp - 1].val, kind);
    }
  }

  // ----- the chain of segments that the compaction walks -----

  /** From `a` to `top`, frames whose third element points to the next one. */
  ghost predicate Linked(st: seq<Elem>, a: int, top: int)
    decreases top - a
  {
    && 0 <= a <= top <= |st|
    && (a < top ==> a + 3 <= top && st[a + 2].Ptr? && a + 3 <= st[a + 2].p <= top && Linked(st, st[a + 2].p, top))
  }

  /** What lies between the frames. */
  ghost function Collect(st: seq<Elem>, a: int, top: int): seq<Elem>
    requires Linked(st, a, top)
    decreases top - a
  {
    if a == top then [] else st[a + 3..st[a + 2].p] + Collect(st, st[a + 2].p, top)
  }

  lemma CollectOnce(st: seq<Elem>, a: int, top: int)
    requires Linked(st, a, top)
    ensures 0 <= a <= top <= |st|
    ensures if a == top then Collect(st, a, top) == []
            else
              && a + 3 <= top && st[a + 2].Ptr? && a + 3 <= st[a + 2].p <= top && Linked(st, st[a + 2].p, top)
              && Collect(st, a, top) == st[a + 3..st[a + 2].p] + Collect(st, st[a + 2].p, top)
  {
  }

  lemma {:induction false} CollectSame(st: seq<Elem>, st': seq<Elem>, a: int, top: int)
    requires Linked(st, a, top) && |st'| == |st| && st[a..] == st'[a..]
    ensures Linked(st', a, top) && Collect(st', a, top) == Collect(st, a, top)
    decreases top - a
  {
    if a < top {
      var next := st[a + 2].p;
      assert st'[a + 2] == st'[a..][2] == st[a + 2];
      assert st'[next..] == st'[a..][next - a..] == st[next..];
      assert st'[a + 3..next] == st'[a..][3..next - a] == st[a + 3..next];
      CollectSame(st, st', next, top);
    }
  }
}
