/** What the linear scan of an atom's code establishes, read off the pattern: which atoms
    always move, and which run straight through without looking at any capture. */
module RegexpAnalysis {
  import opened RegexpInput
  import opened RegexpSyntax
  import opened RegexpMatcher
  import opened RegexpBytecode
  import opened RegexpCompiler

  /** The code of `re` has no jump, choice, or lookaround. */
  predicate Straight(re: Re) {
    match re
    case Group(body) => Straight(body)
    case Cat(l, r) => Straight(l) && Straight(r)
    case Look(_, _, _) => false
    case Alt(_, _) => false
    case Quant(_, _, max, _) => max == 0
    case _ => true
  }

  /** Straight, and no capture is read. */
  predicate Simple(re: Re) {
    match re
    case BackRef(_, _) => false
    case Group(body) => Simple(body)
    case Cat(l, r) => Simple(l) && Simple(r)
    case Look(_, _, _) => false
    case Alt(_, _) => false
    case Quant(_, _, max, _) => max == 0
    case _ => true
  }

  /** A character is read before anything that may be skipped. */
  predicate Advances(re: Re, fwd: bool) {
    match re
    case Char(_, _) => true
    case Dot(_) => true
    case Space(_) => true
    case Class(_, _) => true
    case Group(body) => Advances(body, fwd)
    case Cat(l, r) =>
      if fwd then Advances(l, fwd) || (Straight(l) && Advances(r, fwd))
      else Advances(r, fwd) || (Straight(r) && Advances(l, fwd))
    case Quant(body, min, _, _) => min != 0 && Advances(body, fwd)
    case _ => false
  }

  function After(re: Re, fwd: bool, f: Findings): Findings {
    Findings(f.needAdvance && !Advances(re, fwd), f.needInit || !Simple(re))
  }

  /** Scanning the code of `re` and what follows it. */
  function Scanned(re: Re, fwd: bool, f: Findings, rest: seq<Instr>): Findings {
    if Straight(re) then Scan(rest, After(re, fwd, f)) else After(re, fwd, f)
  }

  lemma {:induction false} SimpleIsStraight(re: Re)
    ensures Simple(re) ==> Straight(re)
  {
    match re
    case Group(body) => SimpleIsStraight(body);
    case Cat(l, r) => SimpleIsStraight(l); SimpleIsStraight(r);
    case _ =>
  }

  lemma ScanOne(i: Instr, rest: seq<Instr>, f: Findings)
    ensures Scan([i] + rest, f) ==
            if i.IChar? || i.IDot? || i.ISpace? || i.IRange? then Scan(rest, f.(needAdvance := false))
            else if i.IBackRef? then Scan(rest, f.(needInit := true))
            else if i.ILineStart? || i.ILineEnd? || i.ISetCounter? || i.ISetPos? || i.IWordBoundary?
                    || i.IPrev? || i.ISave? || i.IReset? then Scan(rest, f)
            else f.(needInit := true)
  {
    assert ([i] + rest)[1..] == rest;
  }

  lemma ScanAround(fwd: bool, i: Instr, rest: seq<Instr>, f: Findings)
    requires i.IChar? || i.IDot? || i.ISpace? || i.IRange?
    ensures Scan(Around(fwd, i) + rest, f) == Scan(rest, f.(needAdvance := false))
  {
    if !fwd {
      assert Around(fwd, i) + rest == [IPrev] + ([i] + ([IPrev] + rest));
      ScanOne(IPrev, [i] + ([IPrev] + rest), f);
      ScanOne(i, [IPrev] + rest, f);
      ScanOne(IPrev, rest, f.(needAdvance := false));
    } else {
      ScanOne(i, rest, f);
    }
  }

  lemma ScanIf(c: bool, i: Instr, rest: seq<Instr>, f: Findings)
    requires i.ISetPos? || i.IReset?
    ensures Scan(If(c, i) + rest, f) == Scan(rest, f)
  {
    if c {
      ScanOne(i, rest, f);
    } else {
      assert If(c, i) + rest == rest;
    }
  }

  /** The scan computes exactly the pattern's properties. */
  lemma {:induction false} ScanCode(canon: int -> int, re: Re, fwd: bool, base: nat, regs: Regs, rest: seq<Instr>, f: Findings)
    requires WellFormed(re)
    ensures Scan(Code(canon, re, fwd, base, regs) + rest, f) == Scanned(re, fwd, f, rest)
    decreases re, 1
  {
    match re
    case Group(body) => ScanGroup(canon, re, fwd, base, regs, rest, f);
    case Cat(l, r) => ScanCat(canon, re, fwd, base, regs, rest, f);
    case Quant(body, min, max, greedy) => ScanQuant(canon, re, fwd, base, regs, rest, f);
    case _ => ScanLeaf(canon, re, fwd, base, regs, rest, f);
  }

  /** Atoms and assertions; a lookaround or an alternative stops the scan at once. */
  lemma ScanLeaf(canon: int -> int, re: Re, fwd: bool, base: nat, regs: Regs, rest: seq<Instr>, f: Findings)
    requires WellFormed(re) && !re.Group? && !re.Cat? && !re.Quant?
    ensures Scan(Code(canon, re, fwd, base, regs) + rest, f) == Scanned(re, fwd, f, rest)
  {
    hide Scan, Loop, Bounds, Normalised, Found, RoundCode, Len, Count, If, Checked;
    var code := Code(canon, re, fwd, base, regs);
    if re.Empty? {
      assert code + rest == rest;
    } else if IsAtom(re) {
      var i := if fwd then code[0] else code[1];
      assert code == Around(fwd, i);
      ScanAround(fwd, i, rest, f);
    } else {
      ScanOne(code[0], code[1..] + rest, f);
      assert code + rest == [code[0]] + (code[1..] + rest);
      assert |code| == 1 ==> code[1..] + rest == rest;
    }
  }

  lemma {:induction false} ScanGroup(canon: int -> int, re: Re, fwd: bool, base: nat, regs: Regs, rest: seq<Instr>, f: Findings)
    requires WellFormed(re) && re.Group?
    ensures Scan(Code(canon, re, fwd, base, regs) + rest, f) == Scanned(re, fwd, f, rest)
    decreases re, 0
  {
    hide Scan, Code, Normalised;
    CodeGroup(canon, re, fwd, base, regs);
    var inner := Code(canon, re.body, fwd, base + 1, regs);
    assert Code(canon, re, fwd, base, regs) + rest == [ISave(!fwd, base)] + (inner + ([ISave(fwd, base)] + rest));
    ScanOne(ISave(!fwd, base), inner + ([ISave(fwd, base)] + rest), f);
    ScanCode(canon, re.body, fwd, base + 1, regs, [ISave(fwd, base)] + rest, f);
    ScanOne(ISave(fwd, base), rest, After(re.body, fwd, f));
  }

  lemma ScannedCat(re: Re, fwd: bool, f: Findings, rest: seq<Instr>)
    requires re.Cat?
    ensures var (a, b) := if fwd then (re.left, re.right) else (re.right, re.left);
            Scanned(re, fwd, f, rest) == if Straight(a) then Scanned(b, fwd, After(a, fwd, f), rest) else After(a, fwd, f)
  {
    hide Scan;
    SimpleIsStraight(re.left);
    SimpleIsStraight(re.right);
  }

  lemma {:induction false} ScanCat(canon: int -> int, re: Re, fwd: bool, base: nat, regs: Regs, rest: seq<Instr>, f: Findings)
    requires WellFormed(re) && re.Cat?
    ensures Scan(Code(canon, re, fwd, base, regs) + rest, f) == Scanned(re, fwd, f, rest)
    decreases re, 0
  {
    hide Scan, Code, Normalised, Straight, Simple, Advances;
    var rb := base + Count(re.left);
    var left, right := Code(canon, re.left, fwd, base, regs), Code(canon, re.right, fwd, rb, regs);
    CodeCat(canon, re, fwd, base, regs);
    ScannedCat(re, fwd, f, rest);
    if fwd {
      assert left + right + rest == left + (right + rest);
      ScanCode(canon, re.left, fwd, base, regs, right + rest, f);
      ScanCode(canon, re.right, fwd, rb, regs, rest, After(re.left, fwd, f));
    } else {
      assert right + left + rest == right + (left + rest);
      ScanCode(canon, re.right, fwd, rb, regs, left + rest, f);
      ScanCode(canon, re.left, fwd, base, regs, rest, After(re.right, fwd, f));
    }
  }

  /** The last instruction of a loop with a mandatory round. */
  function LoopEnd(min: nat, max: nat, greedy: bool, check: bool, regs: Regs, round: seq<Instr>): Instr
    requires 0 < min <= max
  {
    var loop := Loop(min, max, greedy, check, regs, round);
    loop[|loop| - 1]
  }

  lemma ScanLoop(min: nat, max: nat, greedy: bool, check: bool, regs: Regs, round: seq<Instr>, rest: seq<Instr>, f: Findings)
    requires min <= max
    ensures var loop := Loop(min, max, greedy, check, regs, round);
            && (max == 0 ==> Scan(loop + rest, f) == Scan(rest, f))
            && (max != 0 && min == 0 ==> Scan(loop + rest, f) == f.(needInit := true))
            && (min != 0 ==> Scan(loop + rest, f) == Scan(round + ([LoopEnd(min, max, greedy, check, regs, round)] + rest), f))
  {
    hide Scan;
    var loop := Loop(min, max, greedy, check, regs, round);
    if max == 0 {
      assert loop + rest == rest;
    } else if min == 0 {
      assert loop + rest == [loop[0]] + (loop[1..] + rest);
      ScanOne(loop[0], loop[1..] + rest, f);
    } else {
      var tail := [LoopEnd(min, max, greedy, check, regs, round)] + rest;
      if !Counted(min, max, check) {
        assert loop + rest == round + tail;
      } else {
        var counter := ISetCounter(regs.Index(), max);
        var pos := ISetPos(regs.Up(1).Index());
        assert loop + rest == [counter] + (If(check, pos) + (round + tail));
        ScanOne(counter, If(check, pos) + (round + tail), f);
        ScanIf(check, pos, round + tail, f);
      }
    }
  }

  lemma {:induction false} ScanQuant(canon: int -> int, re: Re, fwd: bool, base: nat, regs: Regs, rest: seq<Instr>, f: Findings)
    requires WellFormed(re) && re.Quant?
    ensures Scan(Code(canon, re, fwd, base, regs) + rest, f) == Scanned(re, fwd, f, rest)
    decreases re, 0
  {
    hide Scan, Loop, Found, RoundCode, Code, Normalised;
    CodeQuant(canon, re, fwd, base, regs);
    var check := HasCheck(canon, re, fwd, base);
    var regs' := regs.Up(Live(re.min, re.max, check));
    var round := RoundCode(canon, re.body, fwd, base, regs');
    var loop := Loop(re.min, re.max, re.greedy, check, regs, round);
    var pre := ResetBefore(canon, re, fwd, base);
    assert pre + loop + rest == pre + (loop + rest);
    ScanIf(pre != [], ResetOf(re.body, base), loop + rest, f);
    ScanLoop(re.min, re.max, re.greedy, check, regs, round, rest, f);
    if re.min != 0 {
      SimpleIsStraight(re.body);
      var back := LoopEnd(re.min, re.max, re.greedy, check, regs, round);
      TailJumps(re.min, re.max, re.greedy, check, regs, round);
      ScanRound(canon, re.body, fwd, base, regs', [back] + rest, f);
      ScanOne(back, rest, After(re.body, fwd, f));
    }
  }

  lemma TailJumps(min: nat, max: nat, greedy: bool, check: bool, regs: Regs, round: seq<Instr>)
    requires 0 < min <= max
    ensures var back := LoopEnd(min, max, greedy, check, regs, round); back.ISplit? || back.ILoop? || back.ILoopSplit?
  {
  }

  lemma {:induction false} ScanRound(canon: int -> int, body: Re, fwd: bool, base: nat, regs: Regs, rest: seq<Instr>, f: Findings)
    requires WellFormed(body)
    ensures Scan(RoundCode(canon, body, fwd, base, regs) + rest, f) == Scanned(body, fwd, f, rest)
    decreases body, 2
  {
    hide Scan, Code, Found;
    var c := Count(body) != 0 && Found(canon, body, fwd, base).needInit;
    var inner := Code(canon, body, fwd, base, regs);
    assert RoundCode(canon, body, fwd, base, regs) + rest == If(c, ResetOf(body, base)) + (inner + rest);
    ScanIf(c, ResetOf(body, base), inner + rest, f);
    ScanCode(canon, body, fwd, base, regs, rest, f);
  }

  /** `need_check_adv` and `need_capture_init`, as the compiler uses them. */
  lemma ScanFinds(canon: int -> int, re: Re, fwd: bool, base: nat, regs: Regs)
    requires WellFormed(re)
    ensures Scan(Code(canon, re, fwd, base, regs), INITIAL) == Findings(!Advances(re, fwd), !Simple(re))
  {
    hide Code;
    var code := Code(canon, re, fwd, base, regs);
    assert code + [] == code;
    ScanCode(canon, re, fwd, base, regs, [], INITIAL);
  }

  // ----- what `Advances` means -----

  predicate AllMoved(p: int, ys: seq<State>) {
    forall i | 0 <= i < |ys| :: ys[i].pos != p
  }

  lemma {:induction false} MovedKeepsAll(p: int, ys: seq<State>)
    requires AllMoved(p, ys)
    ensures Moved(ys, p) == ys
  {
    if ys != [] {
      MovedKeepsAll(p, ys[1..]);
    }
  }

  /** Every way to match a pattern that advances ends somewhere else. */
  lemma {:induction false} AdvancesMoves(env: Env, re: Re, fwd: bool, base: nat, x: State)
    requires Applies(env, re, base, x) && Advances(re, fwd)
    ensures AllMoved(x.pos, Match(env, re, fwd, base, x))
    decreases re, 0
  {
    match re
    case Group(body) => AdvancesMoves(env, body, fwd, base + 1, x);
    case Cat(l, r) =>
      var (a, ab, b, bb) := if fwd then (l, base, r, base + Count(l)) else (r, base + Count(l), l, base);
      if Advances(a, fwd) {
        AdvancesMoves(env, a, fwd, ab, x);
      }
      MovesAll(env, b, fwd, bb, x, Match(env, a, fwd, ab, x));
    case Quant(body, min, max, greedy) =>
      var x' := Reset(x, base, Count(body));
      assert Applies(env, body, base, x');
      AdvancesMoves(env, body, fwd, base, x');
      var max' := if max == INFINITE then Infinite else Finite(max - 1);
      assert Match(env, re, fwd, base, x) == Round(env, body, fwd, base, min, Upper(max), greedy, x);
      MovesOn(env, body, fwd, base, min - 1, max', greedy, x, env.Len() + 1, Match(env, body, fwd, base, x'));
    case _ =>
  }

  lemma {:induction false} MovesAll(env: Env, re: Re, fwd: bool, base: nat, x: State, xs: seq<State>)
    requires AllFollow(env, fwd, x, xs) && Applies(env, re, base, x)
    requires AllMoved(x.pos, xs) || Advances(re, fwd)
    ensures AllMoved(x.pos, MatchAll(env, re, fwd, base, x, xs))
    decreases re, 1, |xs|
  {
    if xs != [] {
      if Advances(re, fwd) {
        AdvancesMoves(env, re, fwd, base, xs[0]);
      }
      MovesAll(env, re, fwd, base, x, xs[1..]);
    }
  }

  lemma {:induction false} MovesOn(env: Env, body: Re, fwd: bool, base: nat, min: nat, max: Bound, greedy: bool,
                                   x: State, d: nat, xs: seq<State>)
    requires AllFollow(env, fwd, x, xs) && Applies(env, body, base, x)
    requires forall i | 0 <= i < |xs| :: Distance(env, fwd, xs[i]) < d
    requires AllMoved(x.pos, xs)
    ensures AllMoved(x.pos, RepeatAll(env, body, fwd, base, min, max, greedy, x, d, xs))
    decreases |xs|
  {
    if xs != [] {
      MovesOn(env, body, fwd, base, min, max, greedy, x, d, xs[1..]);
    }
  }

  // ----- captures of simple patterns -----

  /** Running the code of `re` sets capture `k`. */
  predicate Sets(re: Re, base: nat, k: nat) {
    match re
    case Group(body) => k == base || Sets(body, base + 1, k)
    case Look(_, _, body) => Sets(body, base, k)
    case Cat(l, r) => Sets(l, base, k) || Sets(r, base + Count(l), k)
    case Alt(l, r) => Sets(l, base, k) || Sets(r, base + Count(l), k)
    case Quant(body, _, max, _) => max != 0 && Sets(body, base, k)
    case _ => false
  }

  lemma {:induction false} SetsInRange(re: Re, base: nat, k: nat)
    requires Sets(re, base, k)
    ensures base <= k < base + Count(re)
  {
    match re
    case Group(body) => if k != base { SetsInRange(body, base + 1, k); }
    case Look(_, _, body) => SetsInRange(body, base, k);
    case Cat(l, r) => if Sets(l, base, k) { SetsInRange(l, base, k); } else { SetsInRange(r, base + Count(l), k); }
    case Alt(l, r) => if Sets(l, base, k) { SetsInRange(l, base, k); } else { SetsInRange(r, base + Count(l), k); }
    case Quant(body, _, _, _) => SetsInRange(body, base, k);
    case _ =>
  }
}
