/** Where the parts of a compiled pattern lie in memory. */
module RegexpLayout {
  import opened RegexpSyntax
  import opened RegexpBytecode
  import opened RegexpCompiler
  import opened RegexpAnalysis
  import opened RegexpMachine
  import opened RegexpRelation

  /** `re` can be matched by a program with `n` registers. */
  ghost predicate Supported(p: Prog, re: Re, base: nat) {
    && Loaded(p) && WellFormed(re) && RangesFit(re) && CountersSuffice(re, p.env.Len())
    && RefersBelow(re, p.captures) && base + Count(re) <= p.captures
  }

  /** The code of `re` lies at `pc` and uses registers below `n`. */
  ghost predicate Placed(p: Prog, re: Re, fwd: bool, base: nat, r: nat, pc: int, n: nat) {
    && Supported(p, re, base)
    && Holds(p, pc, Code(p.env.canon, re, fwd, base, From(r)))
    && RegistersBelow(Code(p.env.canon, re, fwd, base, From(r)), n)
  }

  lemma PartAt(p: Prog, pc: int, x: seq<Instr>, y: seq<Instr>, n: int)
    requires Holds(p, pc, x + y) && RegistersBelow(x + y, n)
    ensures Holds(p, pc, x) && Holds(p, pc + Len(x), y) && Len(x + y) == Len(x) + Len(y)
    ensures RegistersBelow(x, n) && RegistersBelow(y, n)
  {
    hide Holds, Len, RegisterBelow;
    HoldsSplit(p, pc, x, y);
    forall j | 0 <= j < |x| ensures RegisterBelow(x[j], n) {
      assert (x + y)[j] == x[j];
    }
    forall j | 0 <= j < |y| ensures RegisterBelow(y[j], n) {
      assert (x + y)[|x| + j] == y[j];
    }
  }

  lemma OneAt(p: Prog, pc: int, i: Instr, n: int)
    requires Holds(p, pc, [i]) && RegistersBelow([i], n)
    ensures Len([i]) == Size(i) && RegisterBelow(i, n) && 0 <= pc && pc + Size(i) <= |p.code|
  {
    hide RegisterBelow;
    LenOne(i);
    assert [i][0] == i;
  }

  lemma PlacedSupported(p: Prog, re: Re, fwd: bool, base: nat, r: nat, pc: int, n: nat)
    requires Placed(p, re, fwd, base, r, pc, n)
    ensures Supported(p, re, base)
  {
  }

  lemma CatPlaced(p: Prog, re: Re, fwd: bool, base: nat, r: nat, pc: int, n: nat)
    requires Placed(p, re, fwd, base, r, pc, n) && re.Cat?
    ensures var rb := base + Count(re.left);
            var left := Code(p.env.canon, re.left, fwd, base, From(r));
            var right := Code(p.env.canon, re.right, fwd, rb, From(r));
            && Len(Code(p.env.canon, re, fwd, base, From(r))) == Len(left) + Len(right)
            && Placed(p, re.left, fwd, base, r, if fwd then pc else pc + Len(right), n)
            && Placed(p, re.right, fwd, rb, r, if fwd then pc + Len(left) else pc, n)
  {
    hide Holds, Len, RegistersBelow, Code, Loaded;
    CodeCat(p.env.canon, re, fwd, base, From(r));
    var left := Code(p.env.canon, re.left, fwd, base, From(r));
    var right := Code(p.env.canon, re.right, fwd, base + Count(re.left), From(r));
    if fwd {
      PartAt(p, pc, left, right, n);
    } else {
      PartAt(p, pc, right, left, n);
    }
  }

  lemma GroupPlaced(p: Prog, re: Re, fwd: bool, base: nat, r: nat, pc: int, n: nat)
    requires Placed(p, re, fwd, base, r, pc, n) && re.Group?
    ensures var inner := Code(p.env.canon, re.body, fwd, base + 1, From(r));
            && Len(Code(p.env.canon, re, fwd, base, From(r))) == 2 + Len(inner) + 2
            && Holds(p, pc, [ISave(!fwd, base)])
            && Placed(p, re.body, fwd, base + 1, r, pc + 2, n)
            && Holds(p, pc + 2 + Len(inner), [ISave(fwd, base)])
  {
    hide Holds, Len, RegistersBelow, Code, Units16, FoldsChars;
    CodeGroup(p.env.canon, re, fwd, base, From(r));
    var inner := Code(p.env.canon, re.body, fwd, base + 1, From(r));
    PartAt(p, pc, [ISave(!fwd, base)] + inner, [ISave(fwd, base)], n);
    PartAt(p, pc, [ISave(!fwd, base)], inner, n);
    LenOne(ISave(!fwd, base));
    LenOne(ISave(fwd, base));
  }

  lemma LookPlaced(p: Prog, re: Re, fwd: bool, base: nat, r: nat, pc: int, n: nat)
    requires Placed(p, re, fwd, base, r, pc, n) && re.Look?
    ensures var inner := Code(p.env.canon, re.body, !re.behind, base, From(r));
            && Len(Code(p.env.canon, re, fwd, base, From(r))) == 5 + Len(inner) + 1
            && Holds(p, pc, [ILook(re.neg, Len(inner) + 1)]) && Encodable(ILook(re.neg, Len(inner) + 1))
            && Placed(p, re.body, !re.behind, base, r, pc + 5, n)
            && Holds(p, pc + 5 + Len(inner), [ILookMatch(re.neg)])
  {
    hide Len, RegistersBelow, Code, Units16, FoldsChars, EncodeAll, Holds;
    CodeLook(p.env.canon, re, fwd, base, From(r));
    var inner := Code(p.env.canon, re.body, !re.behind, base, From(r));
    LenAppend(inner, [ILookMatch(re.neg)]);
    LenOne(ILookMatch(re.neg));
    var look := ILook(re.neg, Len(inner) + 1);
    LenOne(look);
    PartAt(p, pc, [look], inner + [ILookMatch(re.neg)], n);
    PartAt(p, pc + 5, inner, [ILookMatch(re.neg)], n);
    HoldsWithin(p, pc + 5, inner);
  }

  lemma HoldsWithin(p: Prog, pc: int, code: seq<Instr>)
    requires Holds(p, pc, code)
    ensures 0 <= pc && pc + Len(code) <= |p.code|
  {
  }

  lemma AltPlaced(p: Prog, re: Re, fwd: bool, base: nat, r: nat, pc: int, n: nat)
    requires Placed(p, re, fwd, base, r, pc, n) && re.Alt?
    ensures var rb := base + Count(re.left);
            var left := Code(p.env.canon, re.left, fwd, base, From(r));
            var right := Code(p.env.canon, re.right, fwd, rb, From(r));
            var split, goto := ISplit(true, Len(left) + 5), IGoto(Len(right));
            && Len(Code(p.env.canon, re, fwd, base, From(r))) == 5 + Len(left) + 5 + Len(right)
            && Holds(p, pc, [split]) && Encodable(split)
            && Placed(p, re.left, fwd, base, r, pc + 5, n)
            && Holds(p, pc + 5 + Len(left), [goto]) && Encodable(goto)
            && Placed(p, re.right, fwd, rb, r, pc + 5 + Len(left) + 5, n)
  {
    hide Len, RegistersBelow, Code, Units16, FoldsChars, EncodeAll, Holds;
    CodeAlt(p.env.canon, re, fwd, base, From(r));
    var left := Code(p.env.canon, re.left, fwd, base, From(r));
    var right := Code(p.env.canon, re.right, fwd, base + Count(re.left), From(r));
    var split, goto := ISplit(true, Len(left) + 5), IGoto(Len(right));
    LenOne(split);
    LenOne(goto);
    PartAt(p, pc, [split] + left + [goto], right, n);
    PartAt(p, pc, [split] + left, [goto], n);
    PartAt(p, pc, [split], left, n);
    HoldsWithin(p, pc, [split] + left + [goto]);
    HoldsWithin(p, pc + 5 + Len(left) + 5, right);
  }

  // ----- loops -----

  /** The loop of the quantifier `re` (without the reset that may stand before it) lies at `pc`. */
  ghost predicate Looping(p: Prog, re: Re, fwd: bool, base: nat, r: nat, pc: int, n: nat) {
    && re.Quant? && Supported(p, re, base)
    && Holds(p, pc, LoopCode(p, re, fwd, base, r))
    && RegistersBelow(LoopCode(p, re, fwd, base, r), n)
  }

  function Check(p: Prog, re: Re, fwd: bool, base: nat): bool
    requires WellFormed(re) && re.Quant?
  {
    HasCheck(p.env.canon, re, fwd, base)
  }

  /** The first register of the body. */
  function Inner(p: Prog, re: Re, fwd: bool, base: nat, r: nat): nat
    requires WellFormed(re) && re.Quant?
  {
    r + Live(re.min, re.max, Check(p, re, fwd, base))
  }

  function RoundOf(p: Prog, re: Re, fwd: bool, base: nat, r: nat): seq<Instr>
    requires WellFormed(re) && re.Quant?
  {
    RoundCode(p.env.canon, re.body, fwd, base, From(Inner(p, re, fwd, base, r)))
  }

  function LoopCode(p: Prog, re: Re, fwd: bool, base: nat, r: nat): seq<Instr>
    requires WellFormed(re) && re.Quant?
  {
    Loop(re.min, re.max, re.greedy, Check(p, re, fwd, base), From(r), RoundOf(p, re, fwd, base, r))
  }

  predicate Optional(re: Re)
    requires re.Quant?
  {
    re.min == 0 && (re.max == 1 || re.max == INFINITE)
  }

  /** Offset of the start of a round, where the position is recorded if it is checked. */
  function Head(re: Re, check: bool): nat
    requires re.Quant?
  {
    if Optional(re) then 5 else if !Counted(re.min, re.max, check) then 0 else if re.min == 0 then 11 else 6
  }

  /** The register that records the position. */
  function PosReg(re: Re, r: nat): nat
    requires re.Quant?
  {
    if Optional(re) then r else r + 1
  }

  /** The address of a round, of what follows it, and of the end of the loop. */
  function RoundAt(p: Prog, re: Re, fwd: bool, base: nat, pc: int): int
    requires WellFormed(re) && re.Quant?
  {
    pc + Head(re, Check(p, re, fwd, base)) + 2 * Bit(Check(p, re, fwd, base))
  }

  function TailAt(p: Prog, re: Re, fwd: bool, base: nat, r: nat, pc: int): int
    requires WellFormed(re) && re.Quant?
  {
    RoundAt(p, re, fwd, base, pc) + Len(RoundOf(p, re, fwd, base, r))
  }

  function LoopEnds(p: Prog, re: Re, fwd: bool, base: nat, r: nat, pc: int): int
    requires WellFormed(re) && re.Quant?
  {
    pc + Len(LoopCode(p, re, fwd, base, r))
  }

  /** What stands before, inside and behind the round. */
  function Before(re: Re, check: bool, r: nat, len: nat): seq<Instr>
    requires re.Quant?
  {
    var chk := 2 * Bit(check);
    if Optional(re) then [ISplit(re.greedy, len + 5 * Bit(re.max == INFINITE) + 2 * chk)]
    else if !Counted(re.min, re.max, check) then []
    else If(re.min == 0, ISplit(re.greedy, 6 + chk + len + 10)) + [ISetCounter(r, re.max)]
  }

  function Behind(re: Re, check: bool, r: nat, len: nat): seq<Instr>
    requires re.Quant? && re.min <= re.max
  {
    var chk := 2 * Bit(check);
    if Optional(re) then If(check, ICheckAdvance(r)) + If(re.max == INFINITE, IGoto(-(5 + chk + len + chk + 5)))
    else if !Counted(re.min, re.max, check) then [ISplit(!re.greedy, -(len + 5))]
    else if re.min == re.max then [ILoop(r, -(len + 6))]
    else [ILoopSplit(check, !re.greedy, r, re.max - re.min, -(chk + len + 10))]
  }

  lemma LoopParts(re: Re, check: bool, r: nat, round: seq<Instr>)
    requires re.Quant? && re.min <= re.max && re.max != 0
    requires re.min != 0 && re.min == re.max ==> !check
    ensures Loop(re.min, re.max, re.greedy, check, From(r), round) ==
            Before(re, check, r, Len(round)) + (If(check, ISetPos(PosReg(re, r))) + (round + Behind(re, check, r, Len(round))))
    ensures Len(Before(re, check, r, Len(round))) == Head(re, check)
    ensures Len(If(check, ISetPos(PosReg(re, r)))) == 2 * Bit(check)
  {
    hide Len;
    LenFacts(re, check, r, Len(round));
    var loop := Loop(re.min, re.max, re.greedy, check, From(r), round);
    if !Optional(re) && !Counted(re.min, re.max, check) {
      assert !check;
      assert loop == [] + ([] + (round + Behind(re, check, r, Len(round))));
    }
  }

  lemma LenFacts(re: Re, check: bool, r: nat, len: nat)
    requires re.Quant? && re.min <= re.max && re.max != 0
    ensures Len(Before(re, check, r, len)) == Head(re, check)
    ensures Len(If(check, ISetPos(PosReg(re, r)))) == 2 * Bit(check)
    ensures Len(Behind(re, check, r, len)) ==
            if Optional(re) then 2 * Bit(check) + 5 * Bit(re.max == INFINITE)
            else if !Counted(re.min, re.max, check) then 5
            else if re.min == re.max then 6 else 10
  {
    hide Len;
    var chk := 2 * Bit(check);
    LenIf(re.min == 0, ISplit(re.greedy, 6 + chk + len + 10));
    LenOne(ISetCounter(r, re.max));
    LenAppend(If(re.min == 0, ISplit(re.greedy, 6 + chk + len + 10)), [ISetCounter(r, re.max)]);
    LenIf(check, ISetPos(PosReg(re, r)));
    LenIf(check, ICheckAdvance(r));
    LenIf(re.max == INFINITE, IGoto(-(5 + chk + len + chk + 5)));
    LenAppend(If(check, ICheckAdvance(r)), If(re.max == INFINITE, IGoto(-(5 + chk + len + chk + 5))));
    LenIf(true, if Before(re, check, r, len) == [] then IPrev else Before(re, check, r, len)[0]);
    LenIf(true, if Behind(re, check, r, len) == [] then IPrev else Behind(re, check, r, len)[0]);
    LenIf(false, IPrev);
  }

  lemma LenIf(c: bool, i: Instr)
    ensures Len(If(c, i)) == if c then Size(i) else 0
  {
    LenOne(i);
  }

  /** The layout of a loop that runs at least one round. */
  lemma LoopPlaced(p: Prog, re: Re, fwd: bool, base: nat, r: nat, pc: int, n: nat)
    requires Looping(p, re, fwd, base, r, pc, n) && re.max != 0
    ensures var check := Check(p, re, fwd, base);
            var round := RoundOf(p, re, fwd, base, r);
            var at := RoundAt(p, re, fwd, base, pc);
            && (re.min != 0 && re.min == re.max ==> !check)
            && LoopEnds(p, re, fwd, base, r, pc) == TailAt(p, re, fwd, base, r, pc) + Len(Behind(re, check, r, Len(round)))
            && 0 <= pc <= LoopEnds(p, re, fwd, base, r, pc) <= |p.code| && Len(round) <= |p.code|
            && Holds(p, pc, Before(re, check, r, Len(round))) && RegistersBelow(Before(re, check, r, Len(round)), n)
            && (check ==> Holds(p, at - 2, [ISetPos(PosReg(re, r))]) && PosReg(re, r) < n)
            && Holds(p, at, round) && RegistersBelow(round, n)
            && Holds(p, at + Len(round), Behind(re, check, r, Len(round)))
            && RegistersBelow(Behind(re, check, r, Len(round)), n)
  {
    hide Holds, Len, RegistersBelow, Loop, Supported, Before, Behind, RoundOf, HasCheck;
    assert WellFormed(re) by { SupportedShape(p, re, base); }
    var check := Check(p, re, fwd, base);
    var round := RoundOf(p, re, fwd, base, r);
    CheckShape(p, re, fwd, base);
    LoopParts(re, check, r, round);
    var before := Before(re, check, r, Len(round));
    var pos := If(check, ISetPos(PosReg(re, r)));
    var behind := Behind(re, check, r, Len(round));
    HoldsWithin(p, pc, LoopCode(p, re, fwd, base, r));
    PartAt(p, pc, before, pos + (round + behind), n);
    PartAt(p, pc + Len(before), pos, round + behind, n);
    PartAt(p, pc + Len(before) + Len(pos), round, behind, n);
    if check {
      OneAt(p, pc + Len(before), ISetPos(PosReg(re, r)), n);
    }
  }

  lemma SupportedShape(p: Prog, re: Re, base: nat)
    requires Supported(p, re, base)
    ensures WellFormed(re)
  {
  }

  lemma CheckShape(p: Prog, re: Re, fwd: bool, base: nat)
    requires WellFormed(re) && re.Quant?
    ensures re.min != 0 && re.min == re.max ==> !Check(p, re, fwd, base)
    ensures Check(p, re, fwd, base) == (!Advances(re.body, fwd) && !(re.min != 0 && re.min == re.max))
  {
    hide Scan, Code;
    ScanFinds(p.env.canon, re.body, fwd, base, Unset);
  }
}
