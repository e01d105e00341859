/** `compute_register_count`: one linear pass gives every loop its registers, as a stack. */
module RegexpRegisters {
  import opened RegexpSyntax
  import opened RegexpBytecode
  import opened RegexpCompiler
  import opened RegexpRelation

  /** How an instruction changes the number of live registers. */
  function Delta(i: Instr): int {
    match i
    case ISetCounter(_, _) => 1
    case ISetPos(_) => 1
    case ICheckAdvance(_) => -1
    case ILoop(_, _) => -1
    case ILoopSplit(check, _, _, _, _) => -1 - Bit(check)
    case _ => 0
  }

  /** The instruction with its register filled in, `d` registers being live before it. */
  function Assigned(i: Instr, d: nat): Instr {
    var r: nat := if Delta(i) > 0 then d else if d + Delta(i) < 0 then 0 else d + Delta(i);
    match i
    case ISetCounter(_, val) => ISetCounter(r, val)
    case ISetPos(_) => ISetPos(r)
    case ICheckAdvance(_) => ICheckAdvance(r)
    case ILoop(_, off) => ILoop(r, off)
    case ILoopSplit(check, nextFirst, _, limit, off) => ILoopSplit(check, nextFirst, r, limit, off)
    case _ => i
  }

  /** The live registers after `code`, negative if more are released than were taken. */
  function Depth(code: seq<Instr>, d: int): int {
    if code == [] then d else Depth(code[1..], d + Delta(code[0]))
  }

  predicate Balanced(code: seq<Instr>, d: int) {
    d >= 0 && (code != [] ==> Balanced(code[1..], d + Delta(code[0])))
  }

  function AssignAll(code: seq<Instr>, d: int): (out: seq<Instr>)
    requires Balanced(code, d)
    ensures |out| == |code|
  {
    if code == [] then [] else [Assigned(code[0], d)] + AssignAll(code[1..], d + Delta(code[0]))
  }

  /** The largest number of live registers. */
  function Peak(code: seq<Instr>, d: int): (m: int)
    ensures m >= d
  {
    if code == [] then d
    else var m := Peak(code[1..], d + Delta(code[0])); if m < d then d else m
  }

  lemma {:induction false} AssignAppend(x: seq<Instr>, y: seq<Instr>, d: int)
    requires Balanced(x, d) && Balanced(y, Depth(x, d))
    ensures Balanced(x + y, d) && AssignAll(x + y, d) == AssignAll(x, d) + AssignAll(y, Depth(x, d))
    ensures Depth(x + y, d) == Depth(y, Depth(x, d))
  {
    if x == [] {
      assert x + y == y;
    } else {
      assert (x + y)[1..] == x[1..] + y;
      AssignAppend(x[1..], y, d + Delta(x[0]));
    }
  }

  /** No register number reaches the peak. */
  lemma {:induction false} BelowPeak(code: seq<Instr>, d: int)
    requires Balanced(code, d)
    ensures RegistersBelow(AssignAll(code, d), Peak(code, d))
  {
    if code != [] {
      var out := AssignAll(code, d);
      var d' := d + Delta(code[0]);
      BelowPeak(code[1..], d');
      assert Balanced(code[1..], d');
      forall j | 0 <= j < |out|
        ensures RegisterBelow(out[j], Peak(code, d))
      {
        if j > 0 {
          assert out[j] == AssignAll(code[1..], d')[j - 1];
        }
      }
    }
  }

  /** What the pass does to a piece of code that gives back every register it takes. */
  predicate Allocates(x: seq<Instr>, d: nat, y: seq<Instr>) {
    Balanced(x, d) && Depth(x, d) == d && AssignAll(x, d) == y
  }

  lemma AllocatesAppend(x: seq<Instr>, x': seq<Instr>, y: seq<Instr>, y': seq<Instr>, d: nat)
    requires Allocates(x, d, x') && Allocates(y, d, y')
    ensures Allocates(x + y, d, x' + y')
  {
    hide Balanced, Depth, AssignAll;
    AssignAppend(x, y, d);
  }

  lemma AllocatesPlain(code: seq<Instr>, d: nat)
    requires forall j | 0 <= j < |code| :: Delta(code[j]) == 0
    ensures Allocates(code, d, code)
  {
    if code != [] {
      AllocatesPlain(code[1..], d);
      assert code == [code[0]] + code[1..];
    }
  }

  lemma AllocatesOne(i: Instr, d: nat)
    requires Delta(i) == 0
    ensures Allocates([i], d, [i])
  {
    AllocatesPlain([i], d);
  }

  /** Code between an instruction that takes a register and one that releases it. */
  lemma AllocatesAround(a: Instr, x: seq<Instr>, b: Instr, x': seq<Instr>, d: nat)
    requires Delta(a) == 1 && Delta(b) == -1 && Allocates(x, d + 1, x')
    ensures Allocates([a] + x + [b], d, [Assigned(a, d)] + x' + [Assigned(b, d + 1)])
  {
    AssignOne(a, d);
    AssignOne(b, d + 1);
    AssignAppend([a], x, d);
    AssignAppend([a] + x, [b], d);
  }

  lemma AllocatesAroundTwo(a: Instr, a': Instr, x: seq<Instr>, b: Instr, x': seq<Instr>, d: nat)
    requires Delta(a) == 1 && Delta(a') == 1 && Delta(b) == -2 && Allocates(x, d + 2, x')
    ensures Allocates([a] + [a'] + x + [b], d, [Assigned(a, d)] + [Assigned(a', d + 1)] + x' + [Assigned(b, d + 2)])
  {
    AssignOne(a, d);
    AssignOne(a', d + 1);
    AssignOne(b, d + 2);
    AssignAppend([a], [a'], d);
    AssignAppend([a] + [a'], x, d);
    AssignAppend([a] + [a'] + x, [b], d);
  }

  lemma AssignOne(i: Instr, d: nat)
    requires d + Delta(i) >= 0
    ensures Balanced([i], d) && Depth([i], d) == d + Delta(i) && AssignAll([i], d) == [Assigned(i, d)]
  {
    assert [i][1..] == [];
  }

  lemma {:induction false} LenAssigned(code: seq<Instr>, d: int)
    requires Balanced(code, d)
    ensures Len(AssignAll(code, d)) == Len(code)
  {
    if code != [] {
      LenAssigned(code[1..], d + Delta(code[0]));
      assert AssignAll(code, d)[1..] == AssignAll(code[1..], d + Delta(code[0]));
    }
  }

  lemma AllocatesLen(x: seq<Instr>, d: nat, y: seq<Instr>)
    requires Allocates(x, d, y)
    ensures Len(x) == Len(y)
  {
    LenAssigned(x, d);
  }

  /** The pass gives each loop the registers that its code was meant to have: the set and the
      loop or check instructions of one loop share theirs, and the loops inside get others. */
  lemma {:induction false} CodeAllocates(canon: int -> int, re: Re, fwd: bool, base: nat, d: nat)
    requires WellFormed(re)
    ensures Allocates(Code(canon, re, fwd, base, Unset), d, Code(canon, re, fwd, base, From(d)))
    decreases re, 1
  {
    hide Code, Allocates, WellFormed;
    if re.Group? {
      GroupAllocates(canon, re, fwd, base, d);
    } else if re.Look? {
      LookAllocates(canon, re, fwd, base, d);
    } else if re.Cat? {
      CatAllocates(canon, re, fwd, base, d);
    } else if re.Alt? {
      AltAllocates(canon, re, fwd, base, d);
    } else if re.Quant? {
      QuantAllocates(canon, re, fwd, base, d);
    } else {
      LeafAllocates(canon, re, fwd, base, d);
    }
  }

  lemma LeafAllocates(canon: int -> int, re: Re, fwd: bool, base: nat, d: nat)
    requires WellFormed(re) && !re.Group? && !re.Look? && !re.Cat? && !re.Alt? && !re.Quant?
    ensures Allocates(Code(canon, re, fwd, base, Unset), d, Code(canon, re, fwd, base, From(d)))
  {
    hide Allocates, Normalised, Bounds;
    AllocatesPlain(Code(canon, re, fwd, base, Unset), d);
  }

  lemma {:induction false} GroupAllocates(canon: int -> int, re: Re, fwd: bool, base: nat, d: nat)
    requires WellFormed(re) && re.Group?
    ensures Allocates(Code(canon, re, fwd, base, Unset), d, Code(canon, re, fwd, base, From(d)))
    decreases re, 0
  {
    hide Code, Allocates;
    CodeGroup(canon, re, fwd, base, Unset);
    CodeGroup(canon, re, fwd, base, From(d));
    CodeAllocates(canon, re.body, fwd, base + 1, d);
    var x, y := Code(canon, re.body, fwd, base + 1, Unset), Code(canon, re.body, fwd, base + 1, From(d));
    AllocatesOne(ISave(!fwd, base), d);
    AllocatesOne(ISave(fwd, base), d);
    AllocatesAppend([ISave(!fwd, base)], [ISave(!fwd, base)], x, y, d);
    AllocatesAppend([ISave(!fwd, base)] + x, [ISave(!fwd, base)] + y, [ISave(fwd, base)], [ISave(fwd, base)], d);
  }

  lemma {:induction false} LookAllocates(canon: int -> int, re: Re, fwd: bool, base: nat, d: nat)
    requires WellFormed(re) && re.Look?
    ensures Allocates(Code(canon, re, fwd, base, Unset), d, Code(canon, re, fwd, base, From(d)))
    decreases re, 0
  {
    hide Code, Allocates, Len;
    CodeLook(canon, re, fwd, base, Unset);
    CodeLook(canon, re, fwd, base, From(d));
    CodeAllocates(canon, re.body, !re.behind, base, d);
    var end := [ILookMatch(re.neg)];
    var x, y := Code(canon, re.body, !re.behind, base, Unset), Code(canon, re.body, !re.behind, base, From(d));
    AllocatesOne(ILookMatch(re.neg), d);
    AllocatesAppend(x, y, end, end, d);
    AllocatesLen(x + end, d, y + end);
    var look := [ILook(re.neg, Len(x + end))];
    AllocatesOne(look[0], d);
    AllocatesAppend(look, look, x + end, y + end, d);
  }

  lemma {:induction false} CatAllocates(canon: int -> int, re: Re, fwd: bool, base: nat, d: nat)
    requires WellFormed(re) && re.Cat?
    ensures Allocates(Code(canon, re, fwd, base, Unset), d, Code(canon, re, fwd, base, From(d)))
    decreases re, 0
  {
    hide Code, Allocates;
    CodeCat(canon, re, fwd, base, Unset);
    CodeCat(canon, re, fwd, base, From(d));
    var rb := base + Count(re.left);
    CodeAllocates(canon, re.left, fwd, base, d);
    CodeAllocates(canon, re.right, fwd, rb, d);
    var l, l' := Code(canon, re.left, fwd, base, Unset), Code(canon, re.left, fwd, base, From(d));
    var r, r' := Code(canon, re.right, fwd, rb, Unset), Code(canon, re.right, fwd, rb, From(d));
    if fwd {
      AllocatesAppend(l, l', r, r', d);
    } else {
      AllocatesAppend(r, r', l, l', d);
    }
  }

  lemma {:induction false} AltAllocates(canon: int -> int, re: Re, fwd: bool, base: nat, d: nat)
    requires WellFormed(re) && re.Alt?
    ensures Allocates(Code(canon, re, fwd, base, Unset), d, Code(canon, re, fwd, base, From(d)))
    decreases re, 0
  {
    hide Code, Allocates, Len;
    CodeAlt(canon, re, fwd, base, Unset);
    CodeAlt(canon, re, fwd, base, From(d));
    var rb := base + Count(re.left);
    CodeAllocates(canon, re.left, fwd, base, d);
    CodeAllocates(canon, re.right, fwd, rb, d);
    var l, l' := Code(canon, re.left, fwd, base, Unset), Code(canon, re.left, fwd, base, From(d));
    var r, r' := Code(canon, re.right, fwd, rb, Unset), Code(canon, re.right, fwd, rb, From(d));
    AllocatesLen(l, d, l');
    AllocatesLen(r, d, r');
    var split, goto := [ISplit(true, Len(l) + 5)], [IGoto(Len(r))];
    AllocatesOne(split[0], d);
    AllocatesOne(goto[0], d);
    AllocatesAppend(split, split, l, l', d);
    AllocatesAppend(split + l, split + l', goto, goto, d);
    AllocatesAppend(split + l + goto, split + l' + goto, r, r', d);
  }

  lemma AllocatesIf(c: bool, i: Instr, d: nat)
    requires Delta(i) == 0
    ensures Allocates(If(c, i), d, If(c, i))
  {
    AllocatesPlain(If(c, i), d);
  }

  lemma {:induction false} QuantAllocates(canon: int -> int, re: Re, fwd: bool, base: nat, d: nat)
    requires WellFormed(re) && re.Quant?
    ensures Allocates(Code(canon, re, fwd, base, Unset), d, Code(canon, re, fwd, base, From(d)))
    decreases re, 0
  {
    hide Code, Allocates, Loop, Found, Live;
    CodeQuant(canon, re, fwd, base, Unset);
    CodeQuant(canon, re, fwd, base, From(d));
    var check := HasCheck(canon, re, fwd, base);
    var d' := d + Live(re.min, re.max, check);
    CodeAllocates(canon, re.body, fwd, base, d');
    var c := Count(re.body) != 0 && Found(canon, re.body, fwd, base).needInit;
    AllocatesIf(c, ResetOf(re.body, base), d');
    AllocatesAppend(If(c, ResetOf(re.body, base)), If(c, ResetOf(re.body, base)),
                    Code(canon, re.body, fwd, base, Unset), Code(canon, re.body, fwd, base, From(d')), d');
    var x, y := RoundCode(canon, re.body, fwd, base, Unset), RoundCode(canon, re.body, fwd, base, From(d'));
    LoopAllocates(re.min, re.max, re.greedy, check, d, x, y);
    var pre := ResetBefore(canon, re, fwd, base);
    AllocatesIf(pre != [], ResetOf(re.body, base), d);
    AllocatesAppend(pre, pre, Loop(re.min, re.max, re.greedy, check, Unset, x), Loop(re.min, re.max, re.greedy, check, From(d), y), d);
  }

  lemma LoopAllocates(min: nat, max: nat, greedy: bool, check: bool, d: nat, x: seq<Instr>, y: seq<Instr>)
    requires min <= max && (min != 0 && min == max ==> !check)
    requires Allocates(x, d + Live(min, max, check), y)
    ensures Allocates(Loop(min, max, greedy, check, Unset, x), d, Loop(min, max, greedy, check, From(d), y))
  {
    hide Allocates, Len;
    AllocatesLen(x, d + Live(min, max, check), y);
    var len: int, chk := Len(x), 2 * Bit(check);
    if max == 0 {
      AllocatesPlain([], d);
    } else if !Counted(min, max, check) {
      UncountedAllocates(min, max, greedy, check, d, x, y);
    } else {
      var tail := if min != 0 && min == max then ILoop(0, -(len + 6)) else ILoopSplit(check, !greedy, 0, max - min, -(chk + len + 10));
      var split := If(min == 0, ISplit(greedy, 6 + chk + len + 10));
      AllocatesIf(min == 0, ISplit(greedy, 6 + chk + len + 10), d);
      CountedAllocates(max, check, d, x, y, tail);
      var inner := [ISetCounter(0, max)] + If(check, ISetPos(0)) + x + [tail];
      var inner' := [ISetCounter(d, max)] + If(check, ISetPos(d + 1)) + y + [Assigned(tail, d + 1 + Bit(check))];
      AllocatesAppend(split, split, inner, inner', d);
      Regroup(split, [ISetCounter(0, max)], If(check, ISetPos(0)), x, [tail]);
      Regroup(split, [ISetCounter(d, max)], If(check, ISetPos(d + 1)), y, [Assigned(tail, d + 1 + Bit(check))]);
      assert min == 0 ==> [split[0], ISetCounter(0, max)] == split + [ISetCounter(0, max)];
      assert min == 0 ==> [split[0], ISetCounter(d, max)] == split + [ISetCounter(d, max)];
      assert min != 0 ==> [] + [ISetCounter(0, max)] == [ISetCounter(0, max)] && [] + [ISetCounter(d, max)] == [ISetCounter(d, max)];
    }
  }

  lemma CountedAllocates(max: nat, check: bool, d: nat, x: seq<Instr>, y: seq<Instr>, tail: Instr)
    requires Allocates(x, d + 1 + Bit(check), y) && Delta(tail) == -1 - Bit(check)
    ensures Allocates([ISetCounter(0, max)] + If(check, ISetPos(0)) + x + [tail], d,
                      [ISetCounter(d, max)] + If(check, ISetPos(d + 1)) + y + [Assigned(tail, d + 1 + Bit(check))])
  {
    hide Allocates;
    if check {
      AllocatesAroundTwo(ISetCounter(0, max), ISetPos(0), x, tail, y, d);
    } else {
      AllocatesAround(ISetCounter(0, max), x, tail, y, d);
      assert [ISetCounter(0, max)] + [] + x + [tail] == [ISetCounter(0, max)] + x + [tail];
      assert [ISetCounter(d, max)] + [] + y + [Assigned(tail, d + 1)] == [ISetCounter(d, max)] + y + [Assigned(tail, d + 1)];
    }
  }

  lemma Regroup(s: seq<Instr>, a: seq<Instr>, b: seq<Instr>, c: seq<Instr>, e: seq<Instr>)
    ensures s + (a + b + c) + e == s + a + b + c + e
    ensures s + (a + b + c + e) == s + a + b + c + e
  {
  }

  lemma OptionalAllocates(greedy: bool, max: nat, check: bool, d: nat, x: seq<Instr>, y: seq<Instr>)
    requires max == 1 || max == INFINITE
    requires Allocates(x, d + Bit(check), y) && Len(x) == Len(y)
    ensures Allocates(Loop(0, max, greedy, check, Unset, x), d, Loop(0, max, greedy, check, From(d), y))
  {
    hide Allocates, Len;
    var len: int, chk := Len(x), 2 * Bit(check);
    var again := max == INFINITE;
    var split := ISplit(greedy, len + 5 * Bit(again) + 2 * chk);
    var goto := IGoto(-(5 + chk + len + chk + 5));
    AllocatesOne(split, d);
    AllocatesIf(again, goto, d);
    var a := If(check, ISetPos(0)) + x + If(check, ICheckAdvance(0));
    var a' := If(check, ISetPos(d)) + y + If(check, ICheckAdvance(d));
    if check {
      AllocatesAround(ISetPos(0), x, ICheckAdvance(0), y, d);
    } else {
      assert a == x && a' == y;
    }
    AllocatesAppend([split], [split], a, a', d);
    AllocatesAppend([split] + a, [split] + a', If(again, goto), If(again, goto), d);
    Regroup([split], If(check, ISetPos(0)), x, If(check, ICheckAdvance(0)), If(again, goto));
    Regroup([split], If(check, ISetPos(d)), y, If(check, ICheckAdvance(d)), If(again, goto));
  }

  lemma UncountedAllocates(min: nat, max: nat, greedy: bool, check: bool, d: nat, x: seq<Instr>, y: seq<Instr>)
    requires min <= max && max != 0 && !Counted(min, max, check)
    requires Allocates(x, d + Bit(check), y) && Len(x) == Len(y)
    ensures Allocates(Loop(min, max, greedy, check, Unset, x), d, Loop(min, max, greedy, check, From(d), y))
  {
    hide Allocates, Len;
    if min == 0 {
      OptionalAllocates(greedy, max, check, d, x, y);
    } else {
      var split := ISplit(!greedy, -((Len(x) as int) + 5));
      AllocatesOne(split, d);
      AllocatesAppend(x, y, [split], [split], d);
    }
  }
}
