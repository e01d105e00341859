/** `lre_compile` and `lre_exec`. */
module RegexpEngine {
  import opened Options
  import opened Surrogates
  import opened RegexpInput
  import opened RegexpSyntax
  import opened RegexpMatcher
  import opened RegexpBytecode
  import opened RegexpCompiler
  import RA = RegexpAnalysis
  import opened RegexpMachine
  import opened RegexpTraces
  import opened RegexpRelation
  import opened RegexpRegisters
  import opened RegexpEmitter
  import opened RegexpProgram
  import opened RegexpBacktracker

  /** The compiled form: the byte code and the counts of its header. */
  datatype Regexp = Regexp(code: seq<Byte>, captures: nat, registers: nat)

  /** Wrapped patterns that are not rejected: at most 255 captures and 255 live registers, fewer
      than 65535 ranges in a class, and no more than CODE_MAX bytes of code. */
  ghost predicate Compilable(canon: int -> int, whole: Re)
    requires WellFormed(whole)
  {
    var prog := Program(canon, whole, Unset);
    && Count(whole) <= CAPTURE_COUNT_MAX && RangesFit(whole)
    && Peak(prog, 0) <= REGISTER_COUNT_MAX && Len(prog) <= CODE_MAX
  }

  /** `rx` is the program of `whole` with its registers filled in. */
  ghost predicate CompiledFrom(rx: Regexp, canon: int -> int, whole: Re)
    requires WellFormed(whole)
  {
    && Compilable(canon, whole)
    && rx.code == EncodeAll(Program(canon, whole, From(0)))
    && rx.captures == Count(whole)
    && rx.registers == Peak(Program(canon, whole, Unset), 0)
  }

  /** `lre_compile`, on a pattern that has been read. */
  method Compile(canon: int -> int, re: Re, sticky: bool) returns (r: Option<Regexp>)
    requires WellFormed(re)
    ensures r.Some? <==> Compilable(canon, Whole(re, sticky))
    ensures r.Some? ==> CompiledFrom(r.value, canon, Whole(re, sticky))
  {
    hide Code, EncodeAll, Whole, Peak, Len, AssignAll, RangesFit, WellFormed, Balanced, Prefix;
    var e := new Emitter(canon);
    ghost var whole := Whole(re, sticky);
    WholeFits(re, sticky);
    PutPrefix(e, sticky);
    e.Put([19, 0]);
    var ok := e.Emit(re, true);
    if !ok {
      return None;
    }
    e.Put([20, 0]);
    e.Put([16]);
    ghost var prog := Program(canon, whole, Unset);
    ProgramBytes(canon, re, sticky);
    ProgramPlan(canon, whole);
    if |e.code| > CODE_MAX {
      return None;
    }
    var n := e.AllocateRegisters(prog);
    if n < 0 {
      return None;
    }
    return Some(Regexp(e.code, e.captures, n));
  }

  /** Lets the search begin later: the lazy loop over any character in front of the pattern. */
  method PutPrefix(e: Emitter, sticky: bool)
    requires e.code == []
    modifies e`code
    ensures e.code == Prefix(sticky)
  {
    hide U32;
    if !sticky {
      var _ := e.PutU32(14, 1 + 5);
      e.Put([6]);
      var _ := e.PutU32(13, -(5 + 1 + 5));
    }
  }

  lemma WholeFits(re: Re, sticky: bool)
    ensures RangesFit(Whole(re, sticky)) <==> RangesFit(re)
  {
  }

  lemma ProgramPlan(canon: int -> int, whole: Re)
    requires WellFormed(whole)
    ensures var prog := Program(canon, whole, Unset);
            && Balanced(prog, 0) && AssignAll(prog, 0) == Program(canon, whole, From(0))
            && (RangesFit(whole) ==> AllMeasurable(prog))
  {
    hide Code, RangesFit, WellFormed, Allocates;
    CodeAllocates(canon, whole, true, 0, 0);
    AllocatesOne(IMatch, 0);
    var x, y := Code(canon, whole, true, 0, Unset), Code(canon, whole, true, 0, From(0));
    AllocatesAppend(x, y, [IMatch], [IMatch], 0);
    AllocatesMeans(x + [IMatch], 0, y + [IMatch]);
    if RangesFit(whole) {
      MeasurableCode(canon, whole, true, 0, Unset);
    }
  }

  lemma AllocatesMeans(x: seq<Instr>, d: nat, y: seq<Instr>)
    requires Allocates(x, d, y)
    ensures Balanced(x, d) && AssignAll(x, d) == y
  {
  }

  lemma SkipBytes(canon: int -> int)
    ensures EncodeAll(Code(canon, SKIP, true, 0, Unset)) == Prefix(false)
  {
    hide U32;
    var code := [ISplit(false, 6), IDot(true), IGoto(-11)];
    SkipCode(canon);
    assert code == [ISplit(false, 6)] + [IDot(true)] + [IGoto(-11)];
    EncodeAppend([ISplit(false, 6)] + [IDot(true)], [IGoto(-11)]);
    EncodeAppend([ISplit(false, 6)], [IDot(true)]);
    EncodeOne(ISplit(false, 6));
    EncodeOne(IDot(true));
    EncodeOne(IGoto(-11));
  }

  lemma SkipCode(canon: int -> int)
    ensures Code(canon, SKIP, true, 0, Unset) == [ISplit(false, 6), IDot(true), IGoto(-11)]
  {
    hide Scan;
    var skip, dot := SKIP, Dot(true);
    assert Code(canon, dot, true, 0, Unset) == [IDot(true)];
    CodeQuant(canon, skip, true, 0, Unset);
    RA.ScanFinds(canon, dot, true, 0, Unset);
    assert Found(canon, dot, true, 0) == Findings(false, false);
    LenOne(IDot(true));
    assert RoundCode(canon, dot, true, 0, Unset) == [IDot(true)];
    assert ResetBefore(canon, skip, true, 0) == [];
  }

  /** The bytes in front of the pattern: the search loop, unless the match is sticky. */
  function Prefix(sticky: bool): seq<Byte> {
    if sticky then [] else [14] + U32(6) + [6] + ([13] + U32(-11))
  }

  lemma ProgramBytes(canon: int -> int, re: Re, sticky: bool)
    requires WellFormed(re)
    ensures EncodeAll(Program(canon, Whole(re, sticky), Unset)) ==
            Prefix(sticky) + ([19, 0] + EncodeAll(Code(canon, re, true, 1, Unset)) + [20, 0]) + [16]
  {
    hide Code, EncodeAll, Encode, Whole, Count, Prefix, WellFormed;
    var whole := Whole(re, sticky);
    WholeParts(re, sticky);
    EncodeAppend(Code(canon, whole, true, 0, Unset), [IMatch]);
    EncodeOne(IMatch);
    PlainBytes();
    if sticky {
      GroupBytes(canon, whole, true, 0);
      NoPrefix([19, 0] + EncodeAll(Code(canon, re, true, 1, Unset)) + [20, 0]);
    } else {
      SearchBytes(canon, whole);
    }
  }

  lemma SearchBytes(canon: int -> int, whole: Re)
    requires WellFormed(whole) && whole.Cat? && whole.left == SKIP && whole.right.Group?
    requires WellFormed(whole.left) && WellFormed(whole.right) && WellFormed(whole.right.body) && Count(whole.left) == 0
    ensures EncodeAll(Code(canon, whole, true, 0, Unset)) ==
            Prefix(false) + ([19, 0] + EncodeAll(Code(canon, whole.right.body, true, 1, Unset)) + [20, 0])
  {
    hide Code, EncodeAll, Count, Prefix, WellFormed;
    CatBytes(canon, whole, true, 0);
    GroupBytes(canon, whole.right, true, 0);
    SkipBytes(canon);
  }

  lemma NoPrefix(b: seq<Byte>)
    ensures Prefix(true) + b == b
  {
  }

  lemma WholeParts(re: Re, sticky: bool)
    requires WellFormed(re)
    ensures var whole := Whole(re, sticky);
            && (sticky ==> whole.Group? && whole.body == re)
            && (!sticky ==>
                  && whole.Cat? && whole.left == SKIP && whole.right.Group? && whole.right.body == re
                  && Count(whole.left) == 0 && WellFormed(whole.left) && WellFormed(whole.right) && WellFormed(whole))
  {
    hide Normalised;
  }

  /** The start position, moved off the middle of a surrogate pair. */
  function Start(env: Env, index: nat): (p: int)
    requires index <= env.Len()
    ensures Boundary(env, p) && index - 1 <= p <= index
    ensures Boundary(env, index) ==> p == index
  {
    if 0 < index < env.Len() && env.pairs && IsLo(env.units[index]) && IsHi(env.units[index - 1]) then index - 1 else index
  }

  /** What `lre_exec` may assume about the subject. */
  ghost predicate Subject(env: Env, re: Re) {
    Units16(env) && FoldsChars(env.canon) && env.Len() <= INFINITE && CountersSuffice(re, env.Len())
  }

  lemma ProgramPlaced(rx: Regexp, env: Env, re: Re, sticky: bool)
    requires WellFormed(re) && RefersBelow(re, 1 + Count(re)) && Subject(env, re)
    requires CompiledFrom(rx, env.canon, Whole(re, sticky))
    ensures RegexpProgram.Compiled(Prog(rx.code, env, rx.captures), Whole(re, sticky), rx.registers)
  {
    hide Code, EncodeAll, Whole, Peak, AssignAll, RangesFit, WellFormed, Balanced, CountersSuffice, RefersBelow, Len;
    var whole := Whole(re, sticky);
    var p := Prog(rx.code, env, rx.captures);
    WholeShape(re, sticky, 1 + Count(re));
    WholeFits(re, sticky);
    ProgramPlan(env.canon, whole);
    BelowPeak(Program(env.canon, whole, Unset), 0);
    var prog := Program(env.canon, whole, From(0));
    SameLen(Program(env.canon, whole, Unset), prog);
    assert rx.code[0..|rx.code|] == rx.code;
    assert Holds(p, 0, prog);
  }

  lemma SameLen(x: seq<Instr>, y: seq<Instr>)
    requires Balanced(x, 0) && AssignAll(x, 0) == y
    ensures Len(y) == Len(x)
  {
    LenAssigned(x, 0);
  }

  /** The outcome of a run and the captures it leaves are those of the first way to match, if there
      is one. */
  ghost predicate Answered(env: Env, re: Re, sticky: bool, pos: int, matched: bool, v: seq<int>, n: nat) {
    && WellFormed(re) && RefersBelow(re, 1 + Count(re)) && Boundary(env, pos) && 2 * n <= |v|
    && var ys := Meaning(env, re, sticky, pos);
    && matched == (ys != [])
    && (matched ==> |ys[0].caps| == n && forall k | 0 <= k < n :: Visible(v, k) == ys[0].caps[k])
  }

  /** `lre_exec`: `capture` has room for two pointers per capture and for the registers. */
  method Exec(rx: Regexp, env: Env, capture: array<int>, index: nat, ghost re: Re, ghost sticky: bool) returns (matched: bool)
    requires WellFormed(re) && RefersBelow(re, 1 + Count(re)) && Subject(env, re)
    requires CompiledFrom(rx, env.canon, Whole(re, sticky))
    requires capture.Length == 2 * rx.captures + rx.registers && index <= env.Len()
    modifies capture
    ensures Answered(env, re, sticky, Start(env, index), matched, capture[..], rx.captures)
  {
    hide Code, EncodeAll, Whole, Peak, RangesFit, WellFormed, CountersSuffice, RefersBelow, Program, Match, Meaning, RegexpProgram.Compiled;
    hide Compilable, Iterate, Holds, Len;
    ghost var whole := Whole(re, sticky);
    var p := Prog(rx.code, env, rx.captures);
    for i := 0 to 2 * rx.captures
      invariant forall j | 0 <= j < i :: capture[j] == NULL
    {
      capture[i] := NULL;
    }
    var start := Start(env, index);
    ProgramPlaced(rx, env, re, sticky);
    ghost var v, n := capture[..], rx.registers;
    RunsAnswer(p, whole, n, v, start);
    ghost var x := State(start, Fresh(Count(whole)));
    WholeMeans(env, re, sticky, x);
    ghost var c, ys := Run(0, start, v, []), Meaning(env, re, sticky, start);
    ghost var k: nat := Halts(p, c, ys);
    var machine := new Backtracker(p, capture, start);
    matched := machine.Exec(k);
    AnswerIs(p, c, ys, k);
  }

  /** How many steps the run takes. */
  lemma Halts(p: Prog, c: Conf, ys: seq<State>) returns (k: nat)
    requires Answers(p, c, ys)
    ensures Iterate(p, c, k).Done?
  {
    hide Iterate, Rel;
    if ys == [] {
      k :| Iterate(p, c, k) == Done(false, []);
    } else {
      var w :| Reaches(p, c, Done(true, w)) && Rel(p, w, ys[0]);
      k :| Iterate(p, c, k) == Done(true, w);
    }
  }

  lemma AnswerIs(p: Prog, c: Conf, ys: seq<State>, k: nat)
    requires Answers(p, c, ys) && Iterate(p, c, k).Done?
    ensures var d := Iterate(p, c, k);
            if ys == [] then d == Done(false, [])
            else d.matched && Rel(p, d.slots, ys[0])
  {
    hide Iterate, Rel;
    if ys == [] {
      var j: nat :| Iterate(p, c, j) == Done(false, []);
      DoneStays(p, c, j, k);
    } else {
      var w :| Reaches(p, c, Done(true, w)) && Rel(p, w, ys[0]);
      var j: nat :| Iterate(p, c, j) == Done(true, w);
      DoneStays(p, c, j, k);
    }
  }

  /** `result` holds the captures of the first way to match, if there is one. */
  ghost predicate IsFirstMatch(env: Env, re: Re, sticky: bool, pos: int, result: Option<seq<Capture>>) {
    && WellFormed(re) && RefersBelow(re, 1 + Count(re)) && Boundary(env, pos)
    && var ys := Meaning(env, re, sticky, pos);
    result == if ys == [] then None else Some(ys[0].caps)
  }

  /** Compiling a pattern and running it on a subject gives the first match that section 22.2.2
      of ECMA-262 prescribes, with its captures, or no match if there is none. */
  method Test(env: Env, re: Re, sticky: bool, index: nat) returns (rejected: bool, result: Option<seq<Capture>>)
    requires WellFormed(re) && RefersBelow(re, 1 + Count(re)) && Subject(env, re) && index <= env.Len()
    ensures rejected == !Compilable(env.canon, Whole(re, sticky))
    ensures !rejected ==> IsFirstMatch(env, re, sticky, Start(env, index), result)
  {
    hide Code, EncodeAll, Whole, Peak, RangesFit, WellFormed, CountersSuffice, RefersBelow, Match, Meaning, Compilable, Len;
    var r := Compile(env.canon, re, sticky);
    if r.None? {
      return true, None;
    }
    var rx := r.value;
    var capture := new int[2 * rx.captures + rx.registers](_ => NULL);
    var matched := Exec(rx, env, capture, index, re, sticky);
    if !matched {
      return false, None;
    }
    var v := capture[..];
    var caps := seq(rx.captures, k requires 0 <= k < rx.captures && |v| == 2 * rx.captures + rx.registers => Visible(v, k));
    assert caps == Meaning(env, re, sticky, Start(env, index))[0].caps;
    return false, Some(caps);
  }
}
