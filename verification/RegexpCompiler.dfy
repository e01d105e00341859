/** The code each pattern compiles to, as a function of the pattern.  The in-place emitter is
    proved against it in RegexpEmitter, the register pass in RegexpRegisters. */
module RegexpCompiler {
  import opened RegexpSyntax
  import opened RegexpBytecode

  /** Register fields: zero until `compute_register_count` has run, then a stack. */
  datatype Regs = Unset | From(r: nat) {
    function Index(): nat { if Unset? then 0 else r }
    function Up(k: nat): Regs { if Unset? then Unset else From(r + k) }
  }

  /** `re_need_check_adv_and_capture_init`: what one linear scan of an atom's code finds out. */
  datatype Findings = Findings(needAdvance: bool, needInit: bool)

  function Scan(code: seq<Instr>, found: Findings): Findings {
    if code == [] then found
    else match code[0]
      case IChar(_, _) => Scan(code[1..], found.(needAdvance := false))
      case IDot(_) => Scan(code[1..], found.(needAdvance := false))
      case ISpace(_) => Scan(code[1..], found.(needAdvance := false))
      case IRange(_, _, _) => Scan(code[1..], found.(needAdvance := false))
      case ILineStart(_) => Scan(code[1..], found)
      case ILineEnd(_) => Scan(code[1..], found)
      case ISetCounter(_, _) => Scan(code[1..], found)
      case ISetPos(_) => Scan(code[1..], found)
      case IWordBoundary(_, _) => Scan(code[1..], found)
      case IPrev => Scan(code[1..], found)
      case ISave(_, _) => Scan(code[1..], found)
      case IReset(_, _) => Scan(code[1..], found)
      case IBackRef(_, _, _) => Scan(code[1..], found.(needInit := true))
      case _ => found.(needInit := true)
  }

  const INITIAL := Findings(true, false)

  /** The endpoints of a class as `re_emit_range` stores them: inclusive upper ends, and with
      16 bits 0xFFFF for infinity. */
  function Bounds(wide: bool, points: seq<int>): (b: seq<int>)
    ensures |b| == |points|
  {
    seq(|points|, i requires 0 <= i < |points| =>
      if i % 2 == 0 then points[i]
      else if !wide && points[i] == UINT32_MAX then 0xFFFF
      else points[i] - 1)
  }

  function ClassInstr(points: seq<int>, icase: bool): Instr
    requires |points| % 2 == 0
  {
    if points == [] then IChar(UINT32_MAX, false)
    else
      var last := points[|points| - 1];
      var high := if last == UINT32_MAX then points[|points| - 2] else last;
      var wide := high > 0xFFFF;
      IRange(wide, icase, Bounds(wide, points))
  }

  /** Code for one character: going backward, it is read forward between two steps back. */
  function Around(fwd: bool, i: Instr): seq<Instr> {
    if fwd then [i] else [IPrev, i, IPrev]
  }

  /** The instruction that reads the character of an atom. */
  function AtomInstr(canon: int -> int, re: Re): Instr
    requires IsAtom(re) && WellFormed(re)
  {
    match re
    case Char(c, icase) => IChar(if icase then canon(c) else c, icase)
    case Dot(all) => IDot(all)
    case Space(neg) => ISpace(neg)
    case Class(points, icase) => ClassInstr(points, icase)
  }

  function If(c: bool, i: Instr): seq<Instr> {
    if c then [i] else []
  }

  /** Is the zero-advance test kept? */
  predicate Checked(found: Findings, min: nat, max: nat) {
    found.needAdvance && !(min != 0 && min == max)
  }

  predicate Counted(min: nat, max: nat, check: bool) {
    && max != 0
    && !(min == 0 && (max == 1 || max == INFINITE))
    && !(min == 1 && max == INFINITE && !check)
  }

  /** The registers a loop keeps live while its body runs. */
  function Live(min: nat, max: nat, check: bool): nat {
    if max == 0 then 0 else Bit(Counted(min, max, check)) + Bit(check)
  }

  /** The loop around `round`, the code of one repetition. */
  function Loop(min: nat, max: nat, greedy: bool, check: bool, regs: Regs, round: seq<Instr>): seq<Instr>
    requires min <= max
  {
    var len := Len(round);
    var chk := 2 * Bit(check);
    var r := regs.Index();
    var r' := regs.Up(1).Index();
    if max == 0 then
      []
    else if min == 0 && (max == 1 || max == INFINITE) then
      var again := max == INFINITE;
      [ISplit(greedy, len + 5 * Bit(again) + 2 * chk)] + If(check, ISetPos(r)) + round
      + If(check, ICheckAdvance(r)) + If(again, IGoto(-(5 + chk + len + chk + 5)))
    else if min == 0 then
      [ISplit(greedy, 6 + chk + len + 10), ISetCounter(r, max)] + If(check, ISetPos(r')) + round
      + [ILoopSplit(check, !greedy, r, max, -(chk + len + 10))]
    else if min == 1 && max == INFINITE && !check then
      round + [ISplit(!greedy, -(len + 5))]
    else
      [ISetCounter(r, max)] + If(check, ISetPos(r')) + round
      + [if min == max then ILoop(r, -(len + 6)) else ILoopSplit(check, !greedy, r, max - min, -(chk + len + 10))]
  }

  /** The code of `re`.  `base` is `capture_count` when its parsing starts. */
  function Code(canon: int -> int, re: Re, fwd: bool, base: nat, regs: Regs): seq<Instr>
    requires WellFormed(re)
    decreases re, 0
  {
    match re
    case Empty => []
    case Char(c, icase) => Around(fwd, IChar(if icase then canon(c) else c, icase))
    case Dot(all) => Around(fwd, IDot(all))
    case Space(neg) => Around(fwd, ISpace(neg))
    case Class(points, icase) => Around(fwd, ClassInstr(points, icase))
    case LineStart(multi) => [ILineStart(multi)]
    case LineEnd(multi) => [ILineEnd(multi)]
    case WordBoundary(neg, icase) => [IWordBoundary(neg, icase)]
    case BackRef(refs, icase) => [IBackRef(!fwd, icase, refs)]
    case Group(body) =>
      [ISave(!fwd, base)] + Code(canon, body, fwd, base + 1, regs) + [ISave(fwd, base)]
    case Look(neg, behind, body) =>
      var inner := Code(canon, body, !behind, base, regs) + [ILookMatch(neg)];
      [ILook(neg, Len(inner))] + inner
    case Cat(l, r) =>
      var left := Code(canon, l, fwd, base, regs);
      var right := Code(canon, r, fwd, base + Count(l), regs);
      if fwd then left + right else right + left
    case Alt(l, r) =>
      var left := Code(canon, l, fwd, base, regs);
      var right := Code(canon, r, fwd, base + Count(l), regs);
      [ISplit(true, Len(left) + 5)] + left + [IGoto(Len(right))] + right
    case Quant(body, min, max, greedy) =>
      var check := Checked(Found(canon, body, fwd, base), min, max);
      If(min == 0 && Count(body) != 0 && !Found(canon, body, fwd, base).needInit, ResetOf(body, base))
      + Loop(min, max, greedy, check, regs, RoundCode(canon, body, fwd, base, regs.Up(Live(min, max, check))))
  }

  /** What the scan finds out about the atom of a quantifier. */
  function Found(canon: int -> int, body: Re, fwd: bool, base: nat): Findings
    requires WellFormed(body)
    decreases body, 1
  {
    Scan(Code(canon, body, fwd, base, Unset), INITIAL)
  }

  function ResetOf(body: Re, base: nat): Instr {
    IReset(base, base + Count(body) - 1)
  }

  /** One round of a loop: the captures of the atom are reset first unless it sets them all. */
  function RoundCode(canon: int -> int, body: Re, fwd: bool, base: nat, regs: Regs): seq<Instr>
    requires WellFormed(body)
    decreases body, 2
  {
    If(Count(body) != 0 && Found(canon, body, fwd, base).needInit, ResetOf(body, base))
    + Code(canon, body, fwd, base, regs)
  }

  // ----- one level of `Code` at a time -----

  lemma CodeGroup(canon: int -> int, re: Re, fwd: bool, base: nat, regs: Regs)
    requires WellFormed(re) && re.Group?
    ensures Code(canon, re, fwd, base, regs) ==
            [ISave(!fwd, base)] + Code(canon, re.body, fwd, base + 1, regs) + [ISave(fwd, base)]
  {
    hide Normalised, Count, If, Checked, Live, ResetOf, Loop, Scan, Found, RoundCode, Around, Len, ClassInstr;
  }

  lemma CodeLook(canon: int -> int, re: Re, fwd: bool, base: nat, regs: Regs)
    requires WellFormed(re) && re.Look?
    ensures var inner := Code(canon, re.body, !re.behind, base, regs) + [ILookMatch(re.neg)];
            Code(canon, re, fwd, base, regs) == [ILook(re.neg, Len(inner))] + inner
  {
    hide Normalised, Count, If, Checked, Live, ResetOf, Loop, Scan, Found, RoundCode, Around, Len, ClassInstr;
  }

  lemma CodeCat(canon: int -> int, re: Re, fwd: bool, base: nat, regs: Regs)
    requires WellFormed(re) && re.Cat?
    ensures var left := Code(canon, re.left, fwd, base, regs);
            var right := Code(canon, re.right, fwd, base + Count(re.left), regs);
            Code(canon, re, fwd, base, regs) == if fwd then left + right else right + left
  {
    hide Normalised, Count, If, Checked, Live, ResetOf, Loop, Scan, Found, RoundCode, Around, Len, ClassInstr;
  }

  lemma CodeAlt(canon: int -> int, re: Re, fwd: bool, base: nat, regs: Regs)
    requires WellFormed(re) && re.Alt?
    ensures var left := Code(canon, re.left, fwd, base, regs);
            var right := Code(canon, re.right, fwd, base + Count(re.left), regs);
            Code(canon, re, fwd, base, regs) == [ISplit(true, Len(left) + 5)] + left + [IGoto(Len(right))] + right
  {
    hide Normalised, Count, If, Checked, Live, ResetOf, Loop, Scan, Found, RoundCode, Around, Len, ClassInstr;
  }

  /** The reset before a loop that may run no round at all. */
  function ResetBefore(canon: int -> int, re: Re, fwd: bool, base: nat): seq<Instr>
    requires WellFormed(re) && re.Quant?
  {
    If(re.min == 0 && Count(re.body) != 0 && !Found(canon, re.body, fwd, base).needInit, ResetOf(re.body, base))
  }

  predicate HasCheck(canon: int -> int, re: Re, fwd: bool, base: nat)
    requires WellFormed(re) && re.Quant?
  {
    Checked(Found(canon, re.body, fwd, base), re.min, re.max)
  }

  lemma CodeQuant(canon: int -> int, re: Re, fwd: bool, base: nat, regs: Regs)
    requires WellFormed(re) && re.Quant?
    ensures var check := HasCheck(canon, re, fwd, base);
            var round := RoundCode(canon, re.body, fwd, base, regs.Up(Live(re.min, re.max, check)));
            Code(canon, re, fwd, base, regs) ==
            ResetBefore(canon, re, fwd, base) + Loop(re.min, re.max, re.greedy, check, regs, round)
  {
    hide Normalised, Count, If, Checked, Live, ResetOf, Loop, Scan, Found, RoundCode, Around, Len, ClassInstr;
  }
}
