/** The compiler as it works: bytes are appended to a buffer, room is made inside it for the
    instructions that go before code already emitted, and jumps are patched afterwards. */
module RegexpEmitter {
  import opened RegexpSyntax
  import opened RegexpBytecode
  import opened RegexpCompiler
  import opened RegexpRegisters
  import opened RegexpRelation

  const CAPTURE_COUNT_MAX: nat := 255
  const REGISTER_COUNT_MAX: nat := 255

  /** `reopcode_info[].size`. */
  function TableSize(op: int): (n: nat)
    ensures n >= 1
  {
    if op == 1 || op == 2 || op == 21 || 36 <= op <= 39 then 3
    else if op == 3 || op == 4 || 13 <= op <= 15 || op == 40 || op == 41 then 5
    else if op == 19 || op == 20 || 32 <= op <= 35 || op == 42 || op == 43 then 2
    else if op == 22 || op == 27 then 6
    else if 23 <= op <= 26 then 10
    else 1
  }

  /** The length of the instruction at `p`: the table, and the variable part if there is one. */
  function Length(b: seq<Byte>, p: nat): nat
    requires p < |b| && p + TableSize(b[p]) <= |b|
  {
    var op := b[p];
    TableSize(op) + if op == 36 || op == 37 then 4 * GetU16(b, p + 1)
                    else if op == 38 || op == 39 then 8 * GetU16(b, p + 1)
                    else if 32 <= op <= 35 then b[p + 1]
                    else 0
  }

  /** Counts that fit their fields, so that the length can be read back. */
  predicate Measurable(i: Instr) {
    && (i.IRange? ==> |i.bounds| % 2 == 0 && |i.bounds| / 2 < 0x1_0000)
    && (i.IBackRef? ==> |i.refs| < 256)
  }

  predicate AllMeasurable(code: seq<Instr>) {
    forall j | 0 <= j < |code| :: Measurable(code[j])
  }

  lemma OpcodeSize(i: Instr)
    ensures Size(i) == TableSize(Opcode(i)) + if i.IRange? then Cell(i.wide) * |i.bounds| else if i.IBackRef? then |i.refs| else 0
    ensures i.IRange? <==> 36 <= Opcode(i) <= 39
    ensures i.IRange? ==> (i.wide <==> Opcode(i) >= 38)
    ensures i.IBackRef? <==> 32 <= Opcode(i) <= 35
  {
  }

  lemma LengthIsSize(b: seq<Byte>, p: nat, i: Instr)
    requires At(b, p, Encode(i)) && Measurable(i)
    ensures p < |b| && b[p] == Opcode(i) && p + TableSize(b[p]) <= |b| && Length(b, p) == Size(i)
  {
    hide U16, U32, GetU16, GetU32, Nums, Bytes, TableSize, Size, Opcode;
    OpcodeSize(i);
    ReadByte(b, p, Encode(i));
    if i.IRange? {
      var n := |i.bounds| / 2;
      AtSplit(b, p, [Opcode(i)], U16(n) + Nums(i.wide, i.bounds));
      AtSplit(b, p + 1, U16(n), Nums(i.wide, i.bounds));
      ReadU16(b, p + 1, n);
    }
  }

  lemma MeasurableCode(canon: int -> int, re: Re, fwd: bool, base: nat, regs: Regs)
    requires WellFormed(re) && RangesFit(re)
    ensures AllMeasurable(Code(canon, re, fwd, base, regs))
    decreases re
  {
    hide Code, Normalised, Loop, Found, Live;
    if re.Group? {
      CodeGroup(canon, re, fwd, base, regs);
      MeasurableCode(canon, re.body, fwd, base + 1, regs);
    } else if re.Look? {
      CodeLook(canon, re, fwd, base, regs);
      MeasurableCode(canon, re.body, !re.behind, base, regs);
    } else if re.Cat? {
      CodeCat(canon, re, fwd, base, regs);
      MeasurableCode(canon, re.left, fwd, base, regs);
      MeasurableCode(canon, re.right, fwd, base + Count(re.left), regs);
    } else if re.Alt? {
      CodeAlt(canon, re, fwd, base, regs);
      MeasurableCode(canon, re.left, fwd, base, regs);
      MeasurableCode(canon, re.right, fwd, base + Count(re.left), regs);
    } else if re.Quant? {
      CodeQuant(canon, re, fwd, base, regs);
      var check := HasCheck(canon, re, fwd, base);
      var regs' := regs.Up(Live(re.min, re.max, check));
      MeasurableCode(canon, re.body, fwd, base, regs');
      MeasurableLoop(re.min, re.max, re.greedy, check, regs, RoundCode(canon, re.body, fwd, base, regs'));
    } else {
      MeasurableLeaf(canon, re, fwd, base, regs);
    }
  }

  lemma MeasurableLeaf(canon: int -> int, re: Re, fwd: bool, base: nat, regs: Regs)
    requires WellFormed(re) && RangesFit(re) && !re.Group? && !re.Look? && !re.Cat? && !re.Alt? && !re.Quant?
    ensures AllMeasurable(Code(canon, re, fwd, base, regs))
  {
    hide Bounds;
  }

  lemma MeasurableLoop(min: nat, max: nat, greedy: bool, check: bool, regs: Regs, round: seq<Instr>)
    requires min <= max && AllMeasurable(round)
    ensures AllMeasurable(Loop(min, max, greedy, check, regs, round))
  {
    hide Len;
  }

  lemma EncodeOne(i: Instr)
    ensures EncodeAll([i]) == Encode(i)
  {
    hide Encode;
    assert [i][1..] == [];
    assert EncodeAll([i]) == Encode(i) + EncodeAll([]);
  }

  lemma EncodeIf(c: bool, i: Instr)
    ensures EncodeAll(If(c, i)) == if c then Encode(i) else []
  {
    hide Encode;
    EncodeOne(i);
  }

  lemma {:induction false} NumsAppend(wide: bool, x: seq<int>, y: seq<int>)
    ensures Nums(wide, x + y) == Nums(wide, x) + Nums(wide, y)
  {
    if x == [] {
      assert x + y == y;
    } else {
      assert (x + y)[1..] == x[1..] + y;
      NumsAppend(wide, x[1..], y);
    }
  }

  class Emitter {
    const canon: int -> int
    var code: seq<Byte>
    var captures: nat

    constructor (canon: int -> int)
      ensures code == [] && captures == 1 && this.canon == canon
    {
      this.canon, code, captures := canon, [], 1;
    }

    method Put(bytes: seq<Byte>)
      modifies this`code
      ensures code == old(code) + bytes
    {
      code := code + bytes;
    }

    /** `re_emit_op_u32`: returns where the operand is. */
    method PutU32(op: Byte, val: int) returns (at: nat)
      modifies this`code
      ensures at == |old(code)| + 1 && code == old(code) + ([op] + U32(val))
    {
      code := code + [op];
      at := |code|;
      code := code + U32(val);
    }

    /** `dbuf_insert`: makes room; the new bytes hold nothing yet. */
    method Insert(at: nat, len: nat)
      requires at <= |code|
      modifies this`code
      ensures |code| == |old(code)| + len && code[..at] == old(code)[..at] && code[at + len..] == old(code)[at..]
    {
      code := code[..at] + seq(len, _ => 0) + code[at..];
    }

    method Write(at: nat, bytes: seq<Byte>)
      requires at + |bytes| <= |code|
      modifies this`code
      ensures code == old(code)[..at] + bytes + old(code)[at + |bytes|..]
    {
      code := code[..at] + bytes + code[at + |bytes|..];
    }

    /** `re_need_check_adv_and_capture_init` on the code from `start` on. */
    method ScanAtom(start: nat, ghost atom: seq<Instr>) returns (found: Findings)
      requires start <= |code| && code[start..] == EncodeAll(atom) && AllMeasurable(atom)
      ensures found == Scan(atom, INITIAL)
    {
      hide Encode, Length;
      found := INITIAL;
      var pos := start;
      ghost var rest := atom;
      while pos < |code|
        invariant start <= pos <= |code| && code[pos..] == EncodeAll(rest) && AllMeasurable(rest)
        invariant Scan(rest, found) == Scan(atom, INITIAL)
        decreases |code| - pos
      {
        assert rest != [];
        FirstEncoded(code, pos, rest);
        LengthIsSize(code, pos, rest[0]);
        OpcodeKinds(rest[0]);
        var op, len := code[pos], Length(code, pos);
        if 1 <= op <= 8 || 36 <= op <= 39 {
          found := found.(needAdvance := false);
        } else if 9 <= op <= 12 || op == 27 || op == 42 || 28 <= op <= 31 || op == 44 || 19 <= op <= 21 {
          // no effect
        } else if 32 <= op <= 35 {
          found := found.(needInit := true);
        } else {
          found := found.(needInit := true);
          return;
        }
        pos := pos + len;
        rest := rest[1..];
      }
    }

    /** `re_emit_range`. */
    method EmitRange(points: seq<int>, icase: bool) returns (ok: bool)
      requires Normalised(points)
      modifies this`code
      ensures ok == (|points| / 2 < 65535)
      ensures ok ==> code == old(code) + Encode(ClassInstr(points, icase))
    {
      hide U16, U32, Nums, Encode, Bounds;
      var len := |points| / 2;
      if len >= 65535 {
        return false;
      }
      EncodeClass(points, icase);
      if len == 0 {
        var _ := PutU32(3, UINT32_MAX);
        return true;
      }
      var high := points[|points| - 1];
      if high == UINT32_MAX {
        high := points[|points| - 2];
      }
      var wide := high > 0xFFFF;
      Put([36 + 2 * Bit(wide) + Bit(icase)]);
      Put(U16(len));
      PutBounds(points, wide);
      return true;
    }

    method PutBounds(points: seq<int>, wide: bool)
      requires |points| % 2 == 0
      modifies this`code
      ensures code == old(code) + Nums(wide, Bounds(wide, points))
    {
      hide Num, Nums;
      ghost var b := Bounds(wide, points);
      NumsNone(wide);
      var i := 0;
      while i < |points|
        invariant 0 <= i <= |points| && i % 2 == 0
        invariant code == old(code) + Nums(wide, b[..i])
      {
        var high := points[i + 1] - 1;
        if !wide && high == UINT32_MAX - 1 {
          high := 0xFFFF;
        }
        Put(Num(wide, points[i]));
        Put(Num(wide, high));
        NumsPair(wide, b, i);
        i := i + 2;
      }
      assert b[..i] == b;
    }

    /** `dbuf_insert`, and the bytes that are then stored in the room made. */
    method InsertBytes(at: nat, bytes: seq<Byte>)
      requires at <= |code|
      modifies this`code
      ensures code == old(code)[..at] + bytes + old(code)[at..]
    {
      Insert(at, |bytes|);
      Write(at, bytes);
    }

    /** `re_emit_goto`: a jump to the absolute position `target`. */
    method PutGoto(op: Byte, target: nat)
      modifies this`code
      ensures code == old(code) + ([op] + U32(target - (|old(code)| + 5)))
    {
      code := code + [op];
      code := code + U32(target - (|code| + 4));
    }

    /** `re_emit_goto_u8`. */
    method PutGotoU8(op: Byte, arg: Byte, target: nat)
      modifies this`code
      ensures code == old(code) + ([op] + ([arg] + U32(target - (|old(code)| + 6))))
    {
      code := code + [op];
      code := code + [arg];
      code := code + U32(target - (|code| + 4));
    }

    /** `re_emit_goto_u8_u32`. */
    method PutGotoU8U32(op: Byte, arg0: Byte, arg1: int, target: nat)
      modifies this`code
      ensures code == old(code) + ([op] + ([arg0] + (U32(arg1) + U32(target - (|old(code)| + 10)))))
    {
      code := code + [op];
      code := code + [arg0];
      code := code + U32(arg1);
      code := code + U32(target - (|code| + 4));
    }

    /** Puts the loop of a quantifier around the code from `start` on. */
    method WrapLoop(start: nat, min: nat, max: nat, greedy: bool, check: bool, ghost round: seq<Instr>)
      requires start <= |code| && code[start..] == EncodeAll(round) && min <= max && max != 0
      requires min != 0 && min == max ==> !check
      modifies this`code
      ensures code == old(code)[..start] + EncodeAll(Loop(min, max, greedy, check, Unset, round))
    {
      hide EncodeAll, Encode, U32, Loop, HeadBytes, TailBytes;
      EncodeLoop(min, max, greedy, check, round);
      if min == 0 && (max == 1 || max == INFINITE) {
        WrapOptional(start, max, greedy, check);
      } else if min == 1 && max == INFINITE && !check {
        WrapPlus(start, greedy);
      } else {
        WrapCounted(start, min, max, greedy, check);
      }
    }

    method WrapOptional(start: nat, max: nat, greedy: bool, check: bool)
      requires start <= |code| && (max == 1 || max == INFINITE)
      modifies this`code
      ensures var len := |old(code)| - start;
              code == old(code)[..start] + (HeadBytes(0, max, greedy, check, len) + old(code)[start..] + TailBytes(0, max, greedy, check, len))
    {
      hide U32;
      var again := max == INFINITE;
      var len := |code| - start;
      if check {
        InsertBytes(start, [14 + Bit(greedy)] + U32(len + 5 * Bit(again) + 2 * 2) + [42, 0]);
        Put([43, 0]);
      } else {
        InsertBytes(start, [14 + Bit(greedy)] + U32(len + 5 * Bit(again)) + []);
      }
      if again {
        PutGoto(13, start);
      }
    }

    method WrapPlus(start: nat, greedy: bool)
      requires start <= |code|
      modifies this`code
      ensures var len := |old(code)| - start;
              code == old(code)[..start] + (HeadBytes(1, INFINITE, greedy, false, len) + old(code)[start..] + TailBytes(1, INFINITE, greedy, false, len))
    {
      hide U32;
      PutGoto(15 - Bit(greedy), start);
    }

    method WrapCounted(start: nat, min: nat, max: nat, greedy: bool, check: bool)
      requires start <= |code| && min <= max && Counted(min, max, check) && (min != 0 && min == max ==> !check)
      modifies this`code
      ensures var len := |old(code)| - start;
              code == old(code)[..start] + (HeadBytes(min, max, greedy, check, len) + old(code)[start..] + TailBytes(min, max, greedy, check, len))
    {
      hide U32;
      ghost var before, body := code[..start], code[start..];
      var len := |code| - start;
      var record: seq<Byte> := if check then [42, 0] else [];
      var head := [27, 0] + U32(max) + record;
      var at := start + 6;
      if min == 0 {
        head := [14 + Bit(greedy)] + U32(6 + 2 * Bit(check) + len + 10) + ([27, 0] + U32(max)) + record;
        at := start + 11;
      }
      assert head == HeadBytes(min, max, greedy, check, len);
      InsertBytes(start, head);
      ghost var now := code;
      if min != 0 && min == max {
        PutGotoU8(22, 0, at);
      } else {
        PutGotoU8U32(24 + 2 * Bit(check) - Bit(greedy), 0, max - min, at);
      }
      assert code == now + TailBytes(min, max, greedy, check, len);
      JoinAll(before, head, body, TailBytes(min, max, greedy, check, len));
    }

    // ----- patterns -----

    /** What emitting `re` must have done to the buffer. */
    ghost predicate Emitted(re: Re, fwd: bool, code0: seq<Byte>, base: nat)
      requires WellFormed(re)
      reads this
    {
      code == code0 + EncodeAll(Code(canon, re, fwd, base, Unset)) && captures == base + Count(re)
    }

    /** `re_parse_disjunction`, `re_parse_alternative` and `re_parse_term`.  Fails if there are too
        many captures or a class has too many ranges. */
    method Emit(re: Re, fwd: bool) returns (ok: bool)
      requires WellFormed(re) && captures <= CAPTURE_COUNT_MAX
      modifies this
      ensures ok == (old(captures) + Count(re) <= CAPTURE_COUNT_MAX && RangesFit(re))
      ensures ok ==> Emitted(re, fwd, old(code), old(captures))
      decreases re, 1
    {
      hide Code, EncodeAll, Normalised;
      if re.Group? {
        ok := EmitGroup(re, fwd);
      } else if re.Look? {
        ok := EmitLook(re, fwd);
      } else if re.Cat? {
        ok := EmitCat(re, fwd);
      } else if re.Alt? {
        ok := EmitAlt(re, fwd);
      } else if re.Quant? {
        ok := EmitQuant(re, fwd);
      } else {
        ok := EmitLeaf(re, fwd);
      }
    }

    method EmitLeaf(re: Re, fwd: bool) returns (ok: bool)
      requires WellFormed(re) && captures <= CAPTURE_COUNT_MAX
      requires !re.Group? && !re.Look? && !re.Cat? && !re.Alt? && !re.Quant?
      modifies this
      ensures ok == RangesFit(re)
      ensures ok ==> Emitted(re, fwd, old(code), old(captures))
    {
      hide EncodeAll, Encode, Normalised, Code, AtomInstr;
      ok := true;
      LeafBytes(canon, re, fwd, captures);
      if IsAtom(re) {
        if !fwd {
          Put([44]);
        }
        if re.Class? {
          ok := EmitRange(re.points, re.icase);
        } else {
          Put(Encode(AtomInstr(canon, re)));
        }
        if !fwd {
          Put([44]);
        }
      } else if re.LineStart? {
        Put(Encode(ILineStart(re.multi)));
      } else if re.LineEnd? {
        Put(Encode(ILineEnd(re.multi)));
      } else if re.WordBoundary? {
        Put(Encode(IWordBoundary(re.neg, re.icase)));
      } else if re.BackRef? {
        Put(Encode(IBackRef(!fwd, re.icase, re.refs)));
      }
    }

    method EmitGroup(re: Re, fwd: bool) returns (ok: bool)
      requires WellFormed(re) && captures <= CAPTURE_COUNT_MAX && re.Group?
      modifies this
      ensures ok == (old(captures) + Count(re) <= CAPTURE_COUNT_MAX && RangesFit(re))
      ensures ok ==> Emitted(re, fwd, old(code), old(captures))
      decreases re, 0
    {
      hide Code, EncodeAll, Normalised;
      if captures >= CAPTURE_COUNT_MAX {
        return false;
      }
      var k := captures;
      captures := captures + 1;
      Put([19 + Bit(!fwd), k]);
      ok := Emit(re.body, fwd);
      if ok {
        Put([19 + Bit(fwd), k]);
        GroupBytes(canon, re, fwd, k);
      }
    }

    method EmitLook(re: Re, fwd: bool) returns (ok: bool)
      requires WellFormed(re) && captures <= CAPTURE_COUNT_MAX && re.Look?
      modifies this
      ensures ok == (old(captures) + Count(re) <= CAPTURE_COUNT_MAX && RangesFit(re))
      ensures ok ==> Emitted(re, fwd, old(code), old(captures))
      decreases re, 0
    {
      hide Code, EncodeAll, Normalised, U32;
      var at := PutU32(40 + Bit(re.neg), 0);
      ok := Emit(re.body, !re.behind);
      if ok {
        Put([17 + Bit(re.neg)]);
        ghost var inner := EncodeAll(Code(canon, re.body, !re.behind, old(captures), Unset)) + [17 + Bit(re.neg)];
        ghost var done := code;
        assert done == old(code) + ([40 + Bit(re.neg)] + U32(0)) + inner;
        Write(at, U32(|code| - (at + 4)));
        Patch(old(code), 40 + Bit(re.neg), U32(0), U32(|inner|), inner);
        LookBytes(canon, re, fwd, old(captures));
      }
    }

    /** Backward, the term just emitted is moved in front of the ones before it. */
    method EmitCat(re: Re, fwd: bool) returns (ok: bool)
      requires WellFormed(re) && captures <= CAPTURE_COUNT_MAX && re.Cat?
      modifies this
      ensures ok == (old(captures) + Count(re) <= CAPTURE_COUNT_MAX && RangesFit(re))
      ensures ok ==> Emitted(re, fwd, old(code), old(captures))
      decreases re, 0
    {
      hide Code, EncodeAll, WellFormed, Count, RangesFit;
      PairShape(re);
      var start := |code|;
      ok := Emit(re.left, fwd);
      if !ok {
        return;
      }
      var termStart := |code|;
      ok := Emit(re.right, fwd);
      if ok {
        if !fwd {
          MoveToFront(start, termStart);
        }
        CatBytes(canon, re, fwd, old(captures));
      }
    }

    /** The `memmove` and `memcpy` of `re_parse_alternative`. */
    method MoveToFront(start: nat, termStart: nat)
      requires start <= termStart <= |code|
      modifies this`code
      ensures code == old(code)[..start] + old(code)[termStart..] + old(code)[start..termStart]
    {
      var end := |code|;
      var size := end - termStart;
      Insert(start, size);
      ghost var moved := code[start + size..];
      assert moved == old(code)[start..];
      assert code[end..end + size] == moved[termStart - start..] == old(code)[termStart..];
      Write(start, code[end..end + size]);
      assert code[..end] == old(code)[..start] + old(code)[termStart..] + moved[..termStart - start];
      code := code[..end];
    }

    method EmitAlt(re: Re, fwd: bool) returns (ok: bool)
      requires WellFormed(re) && captures <= CAPTURE_COUNT_MAX && re.Alt?
      modifies this
      ensures ok == (old(captures) + Count(re) <= CAPTURE_COUNT_MAX && RangesFit(re))
      ensures ok ==> Emitted(re, fwd, old(code), old(captures))
      decreases re, 0
    {
      hide Code, EncodeAll, WellFormed, Count, RangesFit, U32;
      PairShape(re);
      var start := |code|;
      ok := Emit(re.left, fwd);
      if !ok {
        return;
      }
      var len := |code| - start;
      ghost var left := EncodeAll(Code(canon, re.left, fwd, old(captures), Unset));
      InsertBytes(start, [15] + U32(len + 5));
      ghost var prefix := code;
      assert prefix == old(code) + ([15] + U32(len + 5) + left);
      var at := PutU32(13, 0);
      ok := Emit(re.right, fwd);
      if ok {
        ghost var right := EncodeAll(Code(canon, re.right, fwd, old(captures) + Count(re.left), Unset));
        ghost var done := code;
        assert done == prefix + ([13] + U32(0)) + right;
        Write(at, U32(|code| - (at + 4)));
        Patch(prefix, 13, U32(0), U32(|right|), right);
        AltBytes(canon, re, fwd, old(captures));
        JoinAlt(old(code), [15] + U32(len + 5) + left, [13] + U32(|right|), right);
      }
    }

    method EmitQuant(re: Re, fwd: bool) returns (ok: bool)
      requires WellFormed(re) && captures <= CAPTURE_COUNT_MAX && re.Quant?
      modifies this
      ensures ok == (old(captures) + Count(re) <= CAPTURE_COUNT_MAX && RangesFit(re))
      ensures ok ==> Emitted(re, fwd, old(code), old(captures))
      decreases re, 0
    {
      hide Code, EncodeAll, Normalised, Scan, Loop;
      var start, base := |code|, captures;
      ok := Emit(re.body, fwd);
      if !ok {
        return;
      }
      ghost var atom := Code(canon, re.body, fwd, base, Unset);
      MeasurableCode(canon, re.body, fwd, base, Unset);
      var found := ScanAtom(start, atom);
      assert found == Found(canon, re.body, fwd, base);
      Quantify(re, fwd, start, base, found);
    }

    /** The quantifier of the atom whose code starts at `atomStart`. */
    method Quantify(re: Re, fwd: bool, atomStart: nat, base: nat, found: Findings)
      requires WellFormed(re) && re.Quant? && captures == base + Count(re.body) <= CAPTURE_COUNT_MAX
      requires atomStart <= |code| && code[atomStart..] == EncodeAll(Code(canon, re.body, fwd, base, Unset))
      requires found == Found(canon, re.body, fwd, base)
      modifies this`code
      ensures code == old(code)[..atomStart] + EncodeAll(Code(canon, re, fwd, base, Unset))
    {
      hide Code, EncodeAll, Normalised, Scan, Loop, Found, RoundCode;
      var start := atomStart;
      ghost var before := code[..start];
      var check := Checked(found, re.min, re.max);
      var reset: seq<Byte> := if base != captures then [21, base, captures - 1] else [];
      if found.needInit && base != captures {
        InsertBytes(start, reset);
      }
      ghost var round := RoundCode(canon, re.body, fwd, base, Unset);
      RoundBytes(canon, re.body, fwd, base);
      assert code == before + EncodeAll(round);
      ghost var pre: seq<Byte> := [];
      if re.min == 0 && !found.needInit && base != captures {
        InsertBytes(start, reset);
        start := start + 3;
        pre := reset;
      }
      assert code[..start] == before + pre && code[start..] == EncodeAll(round);
      QuantBytes(canon, re, fwd, base);
      if re.max == 0 {
        code := code[..start];
        NoLoopBytes(re.min, re.greedy, check, round);
      } else {
        WrapLoop(start, re.min, re.max, re.greedy, check, round);
      }
      assert code == before + pre + EncodeAll(Loop(re.min, re.max, re.greedy, check, Unset, round));
    }

    /** `compute_register_count`: fills in the register of every loop instruction in place and
        returns how many registers there are, or -1 if there are too many. */
    method AllocateRegisters(ghost prog: seq<Instr>) returns (count: int)
      requires code == EncodeAll(prog) && AllMeasurable(prog) && Balanced(prog, 0)
      modifies this`code
      ensures count == if Peak(prog, 0) > REGISTER_COUNT_MAX then -1 else Peak(prog, 0)
      ensures count >= 0 ==> code == EncodeAll(AssignAll(prog, 0))
    {
      hide Encode, Length, EncodeAll, Opcode, Balanced, AssignAll, Peak, TableSize;
      var pos, size, max := 0, 0, 0;
      ghost var done, rest := [], prog;
      PassStart(prog, code);
      while pos < |code|
        invariant 0 <= pos && 0 <= size <= max <= REGISTER_COUNT_MAX
        invariant Passing(prog, done, rest, code, pos, size, max)
        decreases |code| - pos
      {
        PassNext(prog, done, rest, code, pos, size, max);
        ghost var i := rest[0];
        var op, len := code[pos], Length(code, pos);
        ghost var code0, size0, max0 := code, size, max;
        if op == 27 || op == 42 {
          Write(pos + 1, [size]);
          size := size + 1;
          if size > max {
            if size > REGISTER_COUNT_MAX {
              return -1;
            }
            max := size;
          }
        } else if op == 43 || 22 <= op <= 24 {
          size := size - 1;
          Write(pos + 1, [size]);
        } else if op == 25 || op == 26 {
          size := size - 2;
          Write(pos + 1, [size]);
        }
        PassStep(prog, done, rest, code0, code, pos, size0, max0);
        pos := pos + len;
        done, rest := done + [Assigned(i, size0)], rest[1..];
      }
      PassEnd(prog, done, rest, code, pos, size, max);
      return max;
    }
  }

  /** The register pass when it has done `done` and `rest` is left. */
  ghost predicate Passing(prog: seq<Instr>, done: seq<Instr>, rest: seq<Instr>, b: seq<Byte>, pos: int, size: int, max: int) {
    && 0 <= pos <= |b| && b[..pos] == EncodeAll(done) && b[pos..] == EncodeAll(rest)
    && AllMeasurable(rest) && Balanced(prog, 0) && Balanced(rest, size) && done + AssignAll(rest, size) == AssignAll(prog, 0)
    && Larger(max, Peak(rest, size)) == Peak(prog, 0)
  }

  lemma PassStart(prog: seq<Instr>, b: seq<Byte>)
    requires b == EncodeAll(prog) && AllMeasurable(prog) && Balanced(prog, 0)
    ensures Passing(prog, [], prog, b, 0, 0, 0)
  {
    hide Encode;
    assert [] + AssignAll(prog, 0) == AssignAll(prog, 0);
    assert EncodeAll([]) == [];
  }

  lemma PassNext(prog: seq<Instr>, done: seq<Instr>, rest: seq<Instr>, b: seq<Byte>, pos: nat, size: int, max: int)
    requires Passing(prog, done, rest, b, pos, size, max) && pos < |b|
    ensures rest != [] && b[pos] == Opcode(rest[0]) && pos + TableSize(b[pos]) <= |b| && Length(b, pos) == Size(rest[0])
    ensures size + Delta(rest[0]) >= 0 && pos + Size(rest[0]) <= |b|
    ensures var op := Opcode(rest[0]);
            && (Delta(rest[0]) == 1 <==> op == 27 || op == 42)
            && (Delta(rest[0]) == -1 <==> op == 43 || 22 <= op <= 24)
            && (Delta(rest[0]) == -2 <==> op == 25 || op == 26)
            && (Delta(rest[0]) != 0 ==> Size(rest[0]) >= 2)
    ensures Peak(prog, 0) >= size + Delta(rest[0])
  {
    hide Encode, Length, Opcode, TableSize, Delta;
    RestNotEmpty(rest, |b| - pos);
    assert Balanced(rest[1..], size + Delta(rest[0]));
    FirstEncoded(b, pos, rest);
    LengthIsSize(b, pos, rest[0]);
    RegisterOps(rest[0]);
  }

  lemma PassStep(prog: seq<Instr>, done: seq<Instr>, rest: seq<Instr>, b: seq<Byte>, b': seq<Byte>, pos: nat, size: nat, max: int)
    requires Passing(prog, done, rest, b, pos, size, max) && rest != [] && size <= max && size <= 255
    requires Delta(rest[0]) == 0 ==> b' == b
    requires Delta(rest[0]) != 0 ==>
               pos + 2 <= |b| && 0 <= size + Delta(rest[0])
               && b' == b[..pos + 1] + [if Delta(rest[0]) > 0 then size else size + Delta(rest[0])] + b[pos + 2..]
    ensures var size' := size + Delta(rest[0]);
            Passing(prog, done + [Assigned(rest[0], size)], rest[1..], b', pos + Size(rest[0]), size', Larger(max, size'))
  {
    hide Encode, EncodeAll, AssignAll, Balanced, Peak, Size, Assigned, Delta;
    var i := rest[0];
    PlanStep(prog, done, rest, size, max);
    FirstEncoded(b, pos, rest);
    RegisterWritten(b, b', pos, i, rest[1..], size);
    EncodeAppend(done, [Assigned(i, size)]);
    EncodeOne(Assigned(i, size));
  }

  lemma PlanStep(prog: seq<Instr>, done: seq<Instr>, rest: seq<Instr>, size: nat, max: int)
    requires Balanced(prog, 0) && Balanced(rest, size) && done + AssignAll(rest, size) == AssignAll(prog, 0)
    requires Larger(max, Peak(rest, size)) == Peak(prog, 0) && rest != [] && size <= max && AllMeasurable(rest)
    ensures var size' := size + Delta(rest[0]);
            && size' >= 0 && Balanced(rest[1..], size') && AllMeasurable(rest[1..])
            && done + [Assigned(rest[0], size)] + AssignAll(rest[1..], size') == AssignAll(prog, 0)
            && Larger(Larger(max, size'), Peak(rest[1..], size')) == Peak(prog, 0)
  {
    hide Assigned, Delta, Measurable;
    var size' := size + Delta(rest[0]);
    assert Balanced(rest[1..], size');
    assert done + [Assigned(rest[0], size)] + AssignAll(rest[1..], size') == done + ([Assigned(rest[0], size)] + AssignAll(rest[1..], size'));
  }

  lemma PassEnd(prog: seq<Instr>, done: seq<Instr>, rest: seq<Instr>, b: seq<Byte>, pos: int, size: int, max: int)
    requires Passing(prog, done, rest, b, pos, size, max) && pos == |b| && size <= max
    ensures b == EncodeAll(AssignAll(prog, 0)) && max == Peak(prog, 0)
  {
    hide Encode;
    RestEmpty(rest);
    assert b[..pos] == b && done + [] == done;
  }

  function Larger(a: int, b: int): int { if a < b then b else a }

  lemma RestNotEmpty(rest: seq<Instr>, n: nat)
    requires |EncodeAll(rest)| == n && n != 0
    ensures rest != []
  {
  }

  lemma RestEmpty(rest: seq<Instr>)
    requires EncodeAll(rest) == []
    ensures rest == []
  {
    hide Encode;
  }

  lemma RegisterOps(i: Instr)
    ensures var op := Opcode(i);
            && (Delta(i) == 1 <==> op == 27 || op == 42)
            && (Delta(i) == -1 <==> op == 43 || 22 <= op <= 24)
            && (Delta(i) == -2 <==> op == 25 || op == 26)
            && (Delta(i) != 0 ==> Size(i) >= 2)
  {
  }

  lemma RegisterByte(i: Instr, d: nat)
    requires 0 <= d + Delta(i) && d <= 255
    ensures Delta(i) == 0 ==> Assigned(i, d) == i
    ensures Delta(i) != 0 ==>
              var r := if Delta(i) > 0 then d else d + Delta(i);
              |Encode(i)| >= 2 && Encode(Assigned(i, d)) == Encode(i)[1 := r]
  {
    hide U32;
  }

  /** One instruction of the pass: the prefix and the rest of the buffer stay as they are. */
  lemma RegisterWritten(b: seq<Byte>, b': seq<Byte>, p: nat, i: Instr, rest: seq<Instr>, d: nat)
    requires At(b, p, Encode(i)) && b[p + Size(i)..] == EncodeAll(rest) && 0 <= d + Delta(i) && d <= 255
    requires Delta(i) == 0 ==> b' == b
    requires Delta(i) != 0 ==> p + 2 <= |b| && b' == b[..p + 1] + [if Delta(i) > 0 then d else d + Delta(i)] + b[p + 2..]
    ensures |b'| == |b| && b'[..p] == b[..p] && b'[..p + Size(i)] == b[..p] + Encode(Assigned(i, d))
    ensures b'[p + Size(i)..] == EncodeAll(rest)
  {
    hide Encode, EncodeAll, Assigned, Delta, Size;
    RegisterByte(i, d);
    var n := Size(i);
    assert b[..p + n] == b[..p] + Encode(i);
    if Delta(i) != 0 {
      var r := if Delta(i) > 0 then d else d + Delta(i);
      RegisterOps(i);
      assert b' == b[p + 1 := r];
      assert b'[..p + n] == b[..p + n][p + 1 := r];
      assert b'[p + n..] == b[p + n..];
    }
  }

  lemma NoLoopBytes(min: nat, greedy: bool, check: bool, round: seq<Instr>)
    requires min == 0
    ensures EncodeAll(Loop(min, 0, greedy, check, Unset, round)) == []
  {
  }

  /** Overwriting the operand of a jump that was emitted with a placeholder. */
  lemma Patch(pre: seq<Byte>, op: Byte, a: seq<Byte>, b: seq<Byte>, rest: seq<Byte>)
    requires |a| == 4 && |b| == 4
    ensures var s := pre + ([op] + a) + rest;
            s[..|pre| + 1] + b + s[|pre| + 5..] == pre + ([op] + b) + rest
  {
  }

  lemma JoinAlt(p: seq<Byte>, h: seq<Byte>, g: seq<Byte>, r: seq<Byte>)
    ensures p + h + g + r == p + (h + g + r)
  {
  }

  lemma LeafBytes(canon: int -> int, re: Re, fwd: bool, base: nat)
    requires WellFormed(re) && !re.Group? && !re.Look? && !re.Cat? && !re.Alt? && !re.Quant?
    ensures EncodeAll(Code(canon, re, fwd, base, Unset)) ==
            if re.Empty? then []
            else if re.LineStart? then Encode(ILineStart(re.multi))
            else if re.LineEnd? then Encode(ILineEnd(re.multi))
            else if re.WordBoundary? then Encode(IWordBoundary(re.neg, re.icase))
            else if re.BackRef? then Encode(IBackRef(!fwd, re.icase, re.refs))
            else if fwd then Encode(AtomInstr(canon, re))
            else [44] + Encode(AtomInstr(canon, re)) + [44]
    ensures re.Class? ==> AtomInstr(canon, re) == ClassInstr(re.points, re.icase)
    ensures Count(re) == 0
  {
    hide Encode, ClassInstr;
    var code := Code(canon, re, fwd, base, Unset);
    if IsAtom(re) {
      assert code == Around(fwd, AtomInstr(canon, re));
      EncodeAround(fwd, AtomInstr(canon, re));
    } else if !re.Empty? {
      assert code == [code[0]];
      EncodeOne(code[0]);
    }
  }

  lemma PlainBytes()
    ensures Encode(IPrev) == [44] && Encode(IMatch) == [16]
  {
    hide U16, U32, Nums;
  }

  lemma EncodeAround(fwd: bool, i: Instr)
    ensures EncodeAll(Around(fwd, i)) == if fwd then Encode(i) else [44] + Encode(i) + [44]
  {
    hide EncodeAll, Encode;
    EncodeOne(i);
    EncodeOne(IPrev);
    PlainBytes();
    if !fwd {
      assert Around(fwd, i) == [IPrev] + [i] + [IPrev];
      EncodeAppend([IPrev] + [i], [IPrev]);
      EncodeAppend([IPrev], [i]);
    }
  }

  lemma GroupBytes(canon: int -> int, re: Re, fwd: bool, k: nat)
    requires WellFormed(re) && re.Group? && k < 256
    ensures EncodeAll(Code(canon, re, fwd, k, Unset)) ==
            [19 + Bit(!fwd), k] + EncodeAll(Code(canon, re.body, fwd, k + 1, Unset)) + [19 + Bit(fwd), k]
  {
    hide EncodeAll, Code;
    CodeGroup(canon, re, fwd, k, Unset);
    var inner := Code(canon, re.body, fwd, k + 1, Unset);
    EncodeAppend([ISave(!fwd, k)] + inner, [ISave(fwd, k)]);
    EncodeAppend([ISave(!fwd, k)], inner);
    EncodeOne(ISave(!fwd, k));
    EncodeOne(ISave(fwd, k));
  }

  lemma LookBytes(canon: int -> int, re: Re, fwd: bool, base: nat)
    requires WellFormed(re) && re.Look?
    ensures var inner := EncodeAll(Code(canon, re.body, !re.behind, base, Unset));
            EncodeAll(Code(canon, re, fwd, base, Unset)) == [40 + Bit(re.neg)] + U32(|inner| + 1) + (inner + [17 + Bit(re.neg)])
  {
    hide EncodeAll, Code, U32, Len;
    CodeLook(canon, re, fwd, base, Unset);
    var inner := Code(canon, re.body, !re.behind, base, Unset);
    var look, end := ILook(re.neg, Len(inner + [ILookMatch(re.neg)])), ILookMatch(re.neg);
    LenAppend(inner, [end]);
    LenOne(end);
    EncodeAppend([look], inner + [end]);
    EncodeAppend(inner, [end]);
    EncodeOne(look);
    EncodeOne(end);
  }

  lemma CatBytes(canon: int -> int, re: Re, fwd: bool, base: nat)
    requires WellFormed(re) && re.Cat?
    ensures var l := EncodeAll(Code(canon, re.left, fwd, base, Unset));
            var r := EncodeAll(Code(canon, re.right, fwd, base + Count(re.left), Unset));
            EncodeAll(Code(canon, re, fwd, base, Unset)) == if fwd then l + r else r + l
  {
    hide EncodeAll, Code;
    CodeCat(canon, re, fwd, base, Unset);
    var l, r := Code(canon, re.left, fwd, base, Unset), Code(canon, re.right, fwd, base + Count(re.left), Unset);
    EncodeAppend(l, r);
    EncodeAppend(r, l);
  }

  lemma AltBytes(canon: int -> int, re: Re, fwd: bool, base: nat)
    requires WellFormed(re) && re.Alt?
    ensures var l := EncodeAll(Code(canon, re.left, fwd, base, Unset));
            var r := EncodeAll(Code(canon, re.right, fwd, base + Count(re.left), Unset));
            EncodeAll(Code(canon, re, fwd, base, Unset)) == [15] + U32(|l| + 5) + l + ([13] + U32(|r|)) + r
  {
    hide EncodeAll, Code, U32, Len;
    CodeAlt(canon, re, fwd, base, Unset);
    var l, r := Code(canon, re.left, fwd, base, Unset), Code(canon, re.right, fwd, base + Count(re.left), Unset);
    var split, goto := ISplit(true, Len(l) + 5), IGoto(Len(r));
    EncodeAppend([split] + l + [goto], r);
    EncodeAppend([split] + l, [goto]);
    EncodeAppend([split], l);
    EncodeOne(split);
    EncodeOne(goto);
  }

  lemma ResetBytes(body: Re, base: nat)
    requires Count(body) != 0 && base + Count(body) <= 255
    ensures Encode(ResetOf(body, base)) == [21, base, base + Count(body) - 1]
  {
    hide Count, U16, U32, Nums, Size;
  }

  lemma RoundBytes(canon: int -> int, body: Re, fwd: bool, base: nat)
    requires WellFormed(body) && base + Count(body) <= 255
    ensures EncodeAll(RoundCode(canon, body, fwd, base, Unset)) ==
            (if Count(body) != 0 && Found(canon, body, fwd, base).needInit then [21, base, base + Count(body) - 1] else [])
            + EncodeAll(Code(canon, body, fwd, base, Unset))
  {
    hide EncodeAll, Code, Found, Encode;
    var c := Count(body) != 0 && Found(canon, body, fwd, base).needInit;
    EncodeAppend(If(c, ResetOf(body, base)), Code(canon, body, fwd, base, Unset));
    EncodeIf(c, ResetOf(body, base));
    if c {
      ResetBytes(body, base);
    }
  }

  lemma QuantBytes(canon: int -> int, re: Re, fwd: bool, base: nat)
    requires WellFormed(re) && re.Quant? && base + Count(re) <= 255
    ensures var check := HasCheck(canon, re, fwd, base);
            EncodeAll(Code(canon, re, fwd, base, Unset)) ==
            (if re.min == 0 && Count(re.body) != 0 && !Found(canon, re.body, fwd, base).needInit
             then [21, base, base + Count(re.body) - 1] else [])
            + EncodeAll(Loop(re.min, re.max, re.greedy, check, Unset, RoundCode(canon, re.body, fwd, base, Unset)))
  {
    hide EncodeAll, Code, Found, Encode, Loop, RoundCode;
    CodeQuant(canon, re, fwd, base, Unset);
    var check := HasCheck(canon, re, fwd, base);
    var pre := ResetBefore(canon, re, fwd, base);
    EncodeAppend(pre, Loop(re.min, re.max, re.greedy, check, Unset, RoundCode(canon, re.body, fwd, base, Unset)));
    EncodeIf(pre != [], ResetOf(re.body, base));
    if pre != [] {
      ResetBytes(re.body, base);
    }
  }

  lemma JoinAll(p: seq<Byte>, h: seq<Byte>, r: seq<Byte>, t: seq<Byte>)
    ensures p + h + r + t == p + (h + r + t)
  {
  }

  /** The bytes before and behind the round of a loop of which no register is known yet. */
  function HeadBytes(min: nat, max: nat, greedy: bool, check: bool, len: nat): seq<Byte> {
    var record: seq<Byte> := if check then [42, 0] else [];
    if min == 0 && (max == 1 || max == INFINITE) then
      [14 + Bit(greedy)] + U32(len + 5 * Bit(max == INFINITE) + 4 * Bit(check)) + record
    else if min == 0 then
      [14 + Bit(greedy)] + U32(6 + 2 * Bit(check) + len + 10) + ([27, 0] + U32(max)) + record
    else if min == 1 && max == INFINITE && !check then
      []
    else
      [27, 0] + U32(max) + record
  }

  function TailBytes(min: nat, max: nat, greedy: bool, check: bool, len: int): seq<Byte>
    requires min <= max
  {
    var back := -(2 * Bit(check) + len + 10);
    if min == 0 && (max == 1 || max == INFINITE) then
      (if check then [43, 0] else []) + if max == INFINITE then [13] + U32(-(5 + 4 * Bit(check) + len + 5)) else []
    else if min == 1 && max == INFINITE && !check then
      [15 - Bit(greedy)] + U32(-(len + 5))
    else if min != 0 && min == max then
      [22] + ([0] + U32(-(len + 6)))
    else
      [24 + 2 * Bit(check) - Bit(greedy)] + ([0] + (U32(max - min) + U32(back)))
  }

  lemma EncodeForms(flag: bool, flag': bool, off: int, val: nat)
    ensures Encode(ISplit(flag, off)) == [14 + Bit(flag)] + U32(off)
    ensures Encode(IGoto(off)) == [13] + U32(off)
    ensures Encode(ISetPos(0)) == [42, 0] && Encode(ICheckAdvance(0)) == [43, 0]
    ensures Encode(ISetCounter(0, val)) == [27, 0] + U32(val)
    ensures Encode(ILoop(0, off)) == [22] + ([0] + U32(off))
    ensures Encode(ILoopSplit(flag, flag', 0, val, off)) == [23 + 2 * Bit(flag) + Bit(flag')] + ([0] + (U32(val) + U32(off)))
  {
    hide U32;
    assert [27] + ([0] + U32(val)) == [27, 0] + U32(val);
  }

  lemma EncodeLoop(min: nat, max: nat, greedy: bool, check: bool, round: seq<Instr>)
    requires min <= max && max != 0 && (min != 0 && min == max ==> !check)
    ensures EncodeAll(Loop(min, max, greedy, check, Unset, round)) ==
            HeadBytes(min, max, greedy, check, Len(round)) + EncodeAll(round) + TailBytes(min, max, greedy, check, Len(round))
  {
    hide EncodeAll, Encode, U32, Len;
    var len: int, chk := Len(round), 2 * Bit(check);
    if min == 0 && (max == 1 || max == INFINITE) {
      EncodeOptional(max, greedy, check, round);
    } else if min == 1 && max == INFINITE && !check {
      EncodeAppend(round, [ISplit(!greedy, -(len + 5))]);
      EncodeOne(ISplit(!greedy, -(len + 5)));
      EncodeForms(!greedy, false, -(len + 5), 0);
      assert [] + EncodeAll(round) == EncodeAll(round);
    } else {
      EncodeCounted(min, max, greedy, check, round);
    }
  }

  lemma JoinTail(h: seq<Byte>, r: seq<Byte>, b: seq<Byte>, c: seq<Byte>)
    ensures h + r + b + c == h + r + (b + c)
  {
  }

  lemma EncodeFive(a: seq<Instr>, b: seq<Instr>, c: seq<Instr>, d: seq<Instr>, e: seq<Instr>)
    ensures EncodeAll(a + b + c + d + e) == EncodeAll(a) + EncodeAll(b) + EncodeAll(c) + (EncodeAll(d) + EncodeAll(e))
  {
    hide EncodeAll;
    EncodeAppend(a + b + c + d, e);
    EncodeAppend(a + b + c, d);
    EncodeAppend(a + b, c);
    EncodeAppend(a, b);
    JoinTail(EncodeAll(a) + EncodeAll(b), EncodeAll(c), EncodeAll(d), EncodeAll(e));
  }

  lemma OptionalBytes(max: nat, greedy: bool, check: bool, len: nat)
    requires max == 1 || max == INFINITE
    ensures var split := ISplit(greedy, len + 5 * Bit(max == INFINITE) + 2 * (2 * Bit(check)));
            var goto := IGoto(-(5 + 2 * Bit(check) + len + 2 * Bit(check) + 5));
            && HeadBytes(0, max, greedy, check, len) == EncodeAll([split]) + EncodeAll(If(check, ISetPos(0)))
            && TailBytes(0, max, greedy, check, len) == EncodeAll(If(check, ICheckAdvance(0))) + EncodeAll(If(max == INFINITE, goto))
  {
    hide EncodeAll, Encode, U32;
    var split := ISplit(greedy, len + 5 * Bit(max == INFINITE) + 2 * (2 * Bit(check)));
    var goto := IGoto(-(5 + 2 * Bit(check) + len + 2 * Bit(check) + 5));
    EncodeOne(split);
    EncodeIf(check, ISetPos(0));
    EncodeIf(check, ICheckAdvance(0));
    EncodeIf(max == INFINITE, goto);
    EncodeForms(greedy, false, split.off, 0);
    EncodeForms(greedy, false, goto.off, 0);
  }

  lemma EncodeOptional(max: nat, greedy: bool, check: bool, round: seq<Instr>)
    requires max == 1 || max == INFINITE
    ensures EncodeAll(Loop(0, max, greedy, check, Unset, round)) ==
            HeadBytes(0, max, greedy, check, Len(round)) + EncodeAll(round) + TailBytes(0, max, greedy, check, Len(round))
  {
    hide EncodeAll, Len, HeadBytes, TailBytes, Loop, If;
    var len: int, chk := Len(round), 2 * Bit(check);
    var again := max == INFINITE;
    var split, goto := ISplit(greedy, len + 5 * Bit(again) + 2 * chk), IGoto(-(5 + chk + len + chk + 5));
    LoopOptional(max, greedy, check, round, split, goto);
    EncodeFive([split], If(check, ISetPos(0)), round, If(check, ICheckAdvance(0)), If(again, goto));
    OptionalBytes(max, greedy, check, len);
  }

  lemma CountedBytes(min: nat, max: nat, greedy: bool, check: bool, len: nat, split: Instr, tail: Instr)
    requires min <= max && max != 0 && (min != 0 && min == max ==> !check) && Counted(min, max, check)
    requires split == ISplit(greedy, 6 + 2 * Bit(check) + len + 10)
    requires tail == if min != 0 && min == max then ILoop(0, -((len as int) + 6))
                     else ILoopSplit(check, !greedy, 0, max - min, -(2 * Bit(check) + len + 10))
    ensures HeadBytes(min, max, greedy, check, len) ==
            EncodeAll(If(min == 0, split)) + Encode(ISetCounter(0, max)) + EncodeAll(If(check, ISetPos(0)))
    ensures TailBytes(min, max, greedy, check, len) == Encode(tail)
  {
    hide EncodeAll, Encode, U32, If;
    EncodeIf(min == 0, split);
    EncodeIf(check, ISetPos(0));
    EncodeForms(greedy, !greedy, split.off, max);
    if min == 0 {
      CountedHead(min, max, greedy, check, len);
    } else {
      assert [] + Encode(ISetCounter(0, max)) == Encode(ISetCounter(0, max));
    }
    CountedTail(min, max, greedy, check, len, tail);
  }

  lemma CountedTail(min: nat, max: nat, greedy: bool, check: bool, len: nat, tail: Instr)
    requires min <= max && max != 0 && (min != 0 && min == max ==> !check) && Counted(min, max, check)
    requires tail == if min != 0 && min == max then ILoop(0, -((len as int) + 6))
                     else ILoopSplit(check, !greedy, 0, max - min, -(2 * Bit(check) + len + 10))
    ensures TailBytes(min, max, greedy, check, len) == Encode(tail)
  {
    hide Encode, U32;
    EncodeForms(check, !greedy, tail.off, max - min);
  }

  lemma CountedHead(min: nat, max: nat, greedy: bool, check: bool, len: nat)
    requires min == 0 && max != 0 && Counted(min, max, check)
    ensures HeadBytes(min, max, greedy, check, len) ==
            [14 + Bit(greedy)] + U32(6 + 2 * Bit(check) + len + 10) + ([27, 0] + U32(max)) + (if check then [42, 0] else [])
  {
    hide U32;
  }

  lemma EncodeCounted(min: nat, max: nat, greedy: bool, check: bool, round: seq<Instr>)
    requires min <= max && max != 0 && (min != 0 && min == max ==> !check)
    requires Counted(min, max, check)
    ensures EncodeAll(Loop(min, max, greedy, check, Unset, round)) ==
            HeadBytes(min, max, greedy, check, Len(round)) + EncodeAll(round) + TailBytes(min, max, greedy, check, Len(round))
  {
    hide EncodeAll, Encode, Len, HeadBytes, TailBytes, Loop, If;
    var len: int, chk := Len(round), 2 * Bit(check);
    var split := ISplit(greedy, 6 + chk + len + 10);
    var tail := if min != 0 && min == max then ILoop(0, -(len + 6)) else ILoopSplit(check, !greedy, 0, max - min, -(chk + len + 10));
    EncodeFour(If(min == 0, split), ISetCounter(0, max), If(check, ISetPos(0)), round, tail);
    LoopCounted(min, max, greedy, check, round, split, tail);
    CountedBytes(min, max, greedy, check, len, split, tail);
  }

  lemma EncodeFour(a: seq<Instr>, i: Instr, b: seq<Instr>, c: seq<Instr>, j: Instr)
    ensures EncodeAll(a + [i] + b + c + [j]) == EncodeAll(a) + Encode(i) + EncodeAll(b) + EncodeAll(c) + Encode(j)
  {
    hide EncodeAll, Encode;
    EncodeOne(i);
    EncodeOne(j);
    EncodeAppend(a + [i] + b + c, [j]);
    EncodeAppend(a + [i] + b, c);
    EncodeAppend(a + [i], b);
    EncodeAppend(a, [i]);
  }

  lemma LoopOptional(max: nat, greedy: bool, check: bool, round: seq<Instr>, split: Instr, goto: Instr)
    requires max == 1 || max == INFINITE
    requires split == ISplit(greedy, Len(round) + 5 * Bit(max == INFINITE) + 2 * (2 * Bit(check)))
    requires goto == IGoto(-(5 + 2 * Bit(check) + Len(round) + 2 * Bit(check) + 5))
    ensures Loop(0, max, greedy, check, Unset, round) ==
            [split] + If(check, ISetPos(0)) + round + If(check, ICheckAdvance(0)) + If(max == INFINITE, goto)
  {
    hide Len;
  }

  lemma LoopCounted(min: nat, max: nat, greedy: bool, check: bool, round: seq<Instr>, split: Instr, tail: Instr)
    requires min <= max && max != 0 && (min != 0 && min == max ==> !check) && Counted(min, max, check)
    requires split == ISplit(greedy, 6 + 2 * Bit(check) + Len(round) + 10)
    requires tail == if min != 0 && min == max then ILoop(0, -((Len(round) as int) + 6))
                     else ILoopSplit(check, !greedy, 0, max - min, -(2 * Bit(check) + Len(round) + 10))
    ensures Loop(min, max, greedy, check, Unset, round) ==
            If(min == 0, split) + [ISetCounter(0, max)] + If(check, ISetPos(0)) + round + [tail]
  {
    hide Len;
    assert min == 0 ==> [split, ISetCounter(0, max)] == [split] + [ISetCounter(0, max)];
    assert min != 0 ==> [] + [ISetCounter(0, max)] == [ISetCounter(0, max)];
  }

  lemma EncodeClass(points: seq<int>, icase: bool)
    requires |points| % 2 == 0
    ensures points == [] ==> Encode(ClassInstr(points, icase)) == [3] + U32(UINT32_MAX)
    ensures points != [] ==>
              var i := ClassInstr(points, icase);
              Encode(i) == [36 + 2 * Bit(i.wide) + Bit(icase)] + (U16(|points| / 2) + Nums(i.wide, Bounds(i.wide, points)))
  {
    hide U16, U32, Nums, Bounds;
  }

  lemma NumsNone(wide: bool)
    ensures Nums(wide, []) == []
  {
  }

  lemma NumsPair(wide: bool, b: seq<int>, i: nat)
    requires i + 2 <= |b|
    ensures Nums(wide, b[..i + 2]) == Nums(wide, b[..i]) + Num(wide, b[i]) + Num(wide, b[i + 1])
  {
    hide Num;
    assert b[..i + 2] == b[..i] + [b[i], b[i + 1]];
    NumsAppend(wide, b[..i], [b[i], b[i + 1]]);
    assert [b[i], b[i + 1]][1..] == [b[i + 1]] && [b[i + 1]][1..] == [];
  }

  lemma FirstEncoded(b: seq<Byte>, p: nat, rest: seq<Instr>)
    requires p <= |b| && rest != [] && b[p..] == EncodeAll(rest)
    ensures At(b, p, Encode(rest[0])) && p + Size(rest[0]) <= |b| && b[p + Size(rest[0])..] == EncodeAll(rest[1..])
  {
    hide Encode;
    var n := Size(rest[0]);
    assert b[p..p + n] == b[p..][..n];
    assert b[p + n..] == b[p..][n..];
  }

  lemma OpcodeKinds(i: Instr)
    ensures var op := Opcode(i);
            && ((1 <= op <= 8 || 36 <= op <= 39) <==> (i.IChar? || i.IDot? || i.ISpace? || i.IRange?))
            && (32 <= op <= 35 <==> i.IBackRef?)
            && ((9 <= op <= 12 || op == 27 || op == 42 || 28 <= op <= 31 || op == 44 || 19 <= op <= 21) <==>
                (i.ILineStart? || i.ILineEnd? || i.ISetCounter? || i.ISetPos? || i.IWordBoundary? || i.IPrev? || i.ISave? || i.IReset?))
  {
  }
}
