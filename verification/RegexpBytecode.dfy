/** The instruction set of libregexp-opcode.h and its byte encoding. */
module RegexpBytecode {
  import opened Options

  type Byte = b: int | 0 <= b < 256

  /** Jump offsets are relative to the end of the instruction.  Of two opcodes that differ
      in one flag, the one that `must come after` has the flag set.
      `Range` holds the inclusive bounds in the order they are stored. */
  datatype Instr =
    | IChar(c: int, icase: bool)
    | IDot(all: bool)
    | ISpace(neg: bool)
    | ILineStart(multi: bool)
    | ILineEnd(multi: bool)
    | IGoto(off: int)
    | ISplit(nextFirst: bool, off: int)
    | IMatch
    | ILookMatch(neg: bool)
    | ISave(end: bool, k: nat)
    | IReset(lo: nat, hi: int)
    | ILoop(reg: nat, off: int)
    | ILoopSplit(check: bool, nextFirst: bool, reg: nat, limit: nat, off: int)
    | ISetCounter(reg: nat, val: nat)
    | IWordBoundary(neg: bool, icase: bool)
    | IBackRef(backward: bool, icase: bool, refs: seq<nat>)
    | IRange(wide: bool, icase: bool, bounds: seq<int>)
    | ILook(neg: bool, off: int)
    | ISetPos(reg: nat)
    | ICheckAdvance(reg: nat)
    | IPrev

  function Bit(b: bool): int { if b then 1 else 0 }

  function U8(x: int): Byte { x % 256 }

  function U16(x: int): (s: seq<Byte>)
    ensures |s| == 2
  {
    [U8(x), U8(x / 256)]
  }

  function U32(x: int): (s: seq<Byte>)
    ensures |s| == 4
  {
    [U8(x), U8(x / 0x100), U8(x / 0x1_0000), U8(x / 0x100_0000)]
  }

  function Cell(wide: bool): int { if wide then 4 else 2 }

  function Num(wide: bool, x: int): (s: seq<Byte>)
    ensures |s| == Cell(wide)
  {
    if wide then U32(x) else U16(x)
  }

  function Nums(wide: bool, xs: seq<int>): (s: seq<Byte>)
    ensures |s| == Cell(wide) * |xs|
  {
    if xs == [] then [] else Num(wide, xs[0]) + Nums(wide, xs[1..])
  }

  function Bytes(xs: seq<nat>): (s: seq<Byte>)
    ensures |s| == |xs|
  {
    seq(|xs|, i requires 0 <= i < |xs| => U8(xs[i]))
  }

  function GetU16(b: seq<Byte>, p: nat): (x: int)
    requires p + 2 <= |b|
    ensures 0 <= x < 0x1_0000
  {
    b[p] as int + 0x100 * (b[p + 1] as int)
  }

  function GetU32(b: seq<Byte>, p: nat): (x: int)
    requires p + 4 <= |b|
    ensures 0 <= x < 0x1_0000_0000
  {
    b[p] as int + 0x100 * (b[p + 1] as int) + 0x1_0000 * (b[p + 2] as int) + 0x100_0000 * (b[p + 3] as int)
  }

  /** The `(int)` cast of a 32-bit value. */
  function Signed(x: int): int {
    if x >= 0x8000_0000 then x - 0x1_0000_0000 else x
  }

  function GetNum(wide: bool, b: seq<Byte>, p: nat): int
    requires p + Cell(wide) <= |b|
  {
    if wide then GetU32(b, p) else GetU16(b, p)
  }

  function GetNums(wide: bool, b: seq<Byte>, p: nat, n: nat): (xs: seq<int>)
    requires p + Cell(wide) * n <= |b|
    ensures |xs| == n
    decreases n
  {
    if n == 0 then [] else [GetNum(wide, b, p)] + GetNums(wide, b, p + Cell(wide), n - 1)
  }

  function GetBytes(b: seq<Byte>, p: nat, n: nat): (xs: seq<nat>)
    requires p + n <= |b|
    ensures |xs| == n
  {
    seq(n, i requires 0 <= i < n => b[p + i] as nat)
  }

  function Opcode(i: Instr): Byte {
    match i
    case IChar(c, icase) => (if 0 <= c <= 0xFFFF then 1 else 3) + Bit(icase)
    case IDot(all) => 5 + Bit(all)
    case ISpace(neg) => 7 + Bit(neg)
    case ILineStart(multi) => 9 + Bit(multi)
    case ILineEnd(multi) => 11 + Bit(multi)
    case IGoto(_) => 13
    case ISplit(nextFirst, _) => 14 + Bit(nextFirst)
    case IMatch => 16
    case ILookMatch(neg) => 17 + Bit(neg)
    case ISave(end, _) => 19 + Bit(end)
    case IReset(_, _) => 21
    case ILoop(_, _) => 22
    case ILoopSplit(check, nextFirst, _, _, _) => 23 + 2 * Bit(check) + Bit(nextFirst)
    case ISetCounter(_, _) => 27
    case IWordBoundary(neg, icase) => 28 + 2 * Bit(neg) + Bit(icase)
    case IBackRef(backward, icase, _) => 32 + 2 * Bit(backward) + Bit(icase)
    case IRange(wide, icase, _) => 36 + 2 * Bit(wide) + Bit(icase)
    case ILook(neg, _) => 40 + Bit(neg)
    case ISetPos(_) => 42
    case ICheckAdvance(_) => 43
    case IPrev => 44
  }

  function Operands(i: Instr): seq<Byte> {
    match i
    case IChar(c, _) => if 0 <= c <= 0xFFFF then U16(c) else U32(c)
    case IGoto(off) => U32(off)
    case ISplit(_, off) => U32(off)
    case ISave(_, k) => [U8(k)]
    case IReset(lo, hi) => [U8(lo), U8(hi)]
    case ILoop(reg, off) => [U8(reg)] + U32(off)
    case ILoopSplit(_, _, reg, limit, off) => [U8(reg)] + (U32(limit) + U32(off))
    case ISetCounter(reg, val) => [U8(reg)] + U32(val)
    case IBackRef(_, _, refs) => [U8(|refs|)] + Bytes(refs)
    case IRange(wide, _, bounds) => U16(|bounds| / 2) + Nums(wide, bounds)
    case ILook(_, off) => U32(off)
    case ISetPos(reg) => [U8(reg)]
    case ICheckAdvance(reg) => [U8(reg)]
    case _ => []
  }

  /** `reopcode_info[].size`, with the variable part added. */
  function Size(i: Instr): (n: nat)
    ensures n >= 1
  {
    match i
    case IChar(c, _) => if 0 <= c <= 0xFFFF then 3 else 5
    case IGoto(_) => 5
    case ISplit(_, _) => 5
    case ISave(_, _) => 2
    case IReset(_, _) => 3
    case ILoop(_, _) => 6
    case ILoopSplit(_, _, _, _, _) => 10
    case ISetCounter(_, _) => 6
    case IBackRef(_, _, refs) => 2 + |refs|
    case IRange(wide, _, bounds) => 3 + Cell(wide) * |bounds|
    case ILook(_, _) => 5
    case ISetPos(_) => 2
    case ICheckAdvance(_) => 2
    case _ => 1
  }

  function Encode(i: Instr): (s: seq<Byte>)
    ensures |s| == Size(i)
  {
    [Opcode(i)] + Operands(i)
  }

  function Len(code: seq<Instr>): nat {
    if code == [] then 0 else Size(code[0]) + Len(code[1..])
  }

  function EncodeAll(code: seq<Instr>): (s: seq<Byte>)
    ensures |s| == Len(code)
  {
    if code == [] then [] else Encode(code[0]) + EncodeAll(code[1..])
  }

  /** Operands that survive the encoding. */
  predicate Encodable(i: Instr) {
    match i
    case IChar(c, _) => 0 <= c < 0x1_0000_0000
    case IGoto(off) => -0x8000_0000 <= off < 0x8000_0000
    case ISplit(_, off) => -0x8000_0000 <= off < 0x8000_0000
    case ISave(_, k) => k < 256
    case IReset(lo, hi) => lo < 256 && 0 <= hi < 256
    case ILoop(reg, off) => reg < 256 && -0x8000_0000 <= off < 0x8000_0000
    case ILoopSplit(_, _, reg, limit, off) =>
      reg < 256 && limit < 0x1_0000_0000 && -0x8000_0000 <= off < 0x8000_0000
    case ISetCounter(reg, val) => reg < 256 && val < 0x1_0000_0000
    case IBackRef(_, _, refs) => |refs| < 256 && forall i | 0 <= i < |refs| :: refs[i] < 256
    case IRange(wide, _, bounds) =>
      && |bounds| % 2 == 0 && |bounds| / 2 < 0x1_0000
      && forall i | 0 <= i < |bounds| :: 0 <= bounds[i] < if wide then 0x1_0000_0000 else 0x1_0000
    case ILook(_, off) => -0x8000_0000 <= off < 0x8000_0000
    case ISetPos(reg) => reg < 256
    case ICheckAdvance(reg) => reg < 256
    case _ => true
  }

  /** The instruction at `p`, or None if there is none. */
  function Decode(b: seq<Byte>, p: int): Option<Instr> {
    if !(0 <= p < |b|) then None
    else
      var op := b[p];
      if op == 1 || op == 2 then if p + 3 <= |b| then Some(IChar(GetU16(b, p + 1), op == 2)) else None
      else if op == 3 || op == 4 then if p + 5 <= |b| then Some(IChar(GetU32(b, p + 1), op == 4)) else None
      else if op == 5 || op == 6 then Some(IDot(op == 6))
      else if op == 7 || op == 8 then Some(ISpace(op == 8))
      else if op == 9 || op == 10 then Some(ILineStart(op == 10))
      else if op == 11 || op == 12 then Some(ILineEnd(op == 12))
      else if op == 13 then if p + 5 <= |b| then Some(IGoto(Signed(GetU32(b, p + 1)))) else None
      else if op == 14 || op == 15 then
        if p + 5 <= |b| then Some(ISplit(op == 15, Signed(GetU32(b, p + 1)))) else None
      else if op == 16 then Some(IMatch)
      else if op == 17 || op == 18 then Some(ILookMatch(op == 18))
      else if op == 19 || op == 20 then if p + 2 <= |b| then Some(ISave(op == 20, b[p + 1])) else None
      else if op == 21 then if p + 3 <= |b| then Some(IReset(b[p + 1], b[p + 2])) else None
      else if op == 22 then if p + 6 <= |b| then Some(ILoop(b[p + 1], Signed(GetU32(b, p + 2)))) else None
      else if 23 <= op <= 26 then
        if p + 10 <= |b| then
          Some(ILoopSplit(op >= 25, op == 24 || op == 26, b[p + 1], GetU32(b, p + 2), Signed(GetU32(b, p + 6))))
        else None
      else if op == 27 then if p + 6 <= |b| then Some(ISetCounter(b[p + 1], GetU32(b, p + 2))) else None
      else if 28 <= op <= 31 then Some(IWordBoundary(op >= 30, op == 29 || op == 31))
      else if 32 <= op <= 35 then
        if p + 2 <= |b| && p + 2 + b[p + 1] <= |b| then
          Some(IBackRef(op >= 34, op == 33 || op == 35, GetBytes(b, p + 2, b[p + 1])))
        else None
      else if 36 <= op <= 39 then
        var wide := op >= 38;
        if p + 3 <= |b| && p + 3 + Cell(wide) * (2 * GetU16(b, p + 1)) <= |b| then
          Some(IRange(wide, op == 37 || op == 39, GetNums(wide, b, p + 3, 2 * GetU16(b, p + 1))))
        else None
      else if op == 40 || op == 41 then
        if p + 5 <= |b| then Some(ILook(op == 41, Signed(GetU32(b, p + 1)))) else None
      else if op == 42 then if p + 2 <= |b| then Some(ISetPos(b[p + 1])) else None
      else if op == 43 then if p + 2 <= |b| then Some(ICheckAdvance(b[p + 1])) else None
      else if op == 44 then Some(IPrev)
      else None
  }

  // ----- reading back what was written -----

  predicate At(b: seq<Byte>, p: int, s: seq<Byte>) {
    0 <= p && p + |s| <= |b| && b[p..p + |s|] == s
  }

  lemma AtSplit(b: seq<Byte>, p: int, s: seq<Byte>, t: seq<Byte>)
    requires At(b, p, s + t)
    ensures At(b, p, s) && At(b, p + |s|, t)
  {
    assert b[p..p + |s|] == (s + t)[..|s|];
    assert b[p + |s|..p + |s| + |t|] == (s + t)[|s|..];
  }

  lemma ReadU16(b: seq<Byte>, p: nat, x: int)
    requires At(b, p, U16(x)) && 0 <= x < 0x1_0000
    ensures GetU16(b, p) == x
  {
    assert b[p] == b[p..p + 2][0] && b[p + 1] == b[p..p + 2][1];
  }

  lemma FourDigits(x: int)
    ensures x % 0x1_0000_0000 ==
            x % 256 + 0x100 * (x / 0x100 % 256) + 0x1_0000 * (x / 0x1_0000 % 256) + 0x100_0000 * (x / 0x100_0000 % 256)
  {
    var q1, q2, q3, q4 := x / 0x100, x / 0x1_0000, x / 0x100_0000, x / 0x1_0000_0000;
    assert q2 == q1 / 256 && q3 == q2 / 256 && q4 == q3 / 256;
    assert x == 256 * q1 + x % 256 && q1 == 256 * q2 + q1 % 256;
    assert q2 == 256 * q3 + q2 % 256 && q3 == 256 * q4 + q3 % 256;
  }

  lemma ReadU32(b: seq<Byte>, p: nat, x: int)
    requires At(b, p, U32(x))
    ensures GetU32(b, p) == x % 0x1_0000_0000
  {
    FourDigits(x);
    assert b[p] == b[p..p + 4][0] && b[p + 1] == b[p..p + 4][1];
    assert b[p + 2] == b[p..p + 4][2] && b[p + 3] == b[p..p + 4][3];
  }

  lemma ReadNum(wide: bool, b: seq<Byte>, p: nat, x: int)
    requires At(b, p, Num(wide, x)) && 0 <= x < if wide then 0x1_0000_0000 else 0x1_0000
    ensures GetNum(wide, b, p) == x
  {
    if wide {
      ReadU32(b, p, x);
    } else {
      ReadU16(b, p, x);
    }
  }

  lemma {:induction false} ReadNums(wide: bool, b: seq<Byte>, p: nat, xs: seq<int>)
    requires At(b, p, Nums(wide, xs))
    requires forall i | 0 <= i < |xs| :: 0 <= xs[i] < if wide then 0x1_0000_0000 else 0x1_0000
    ensures GetNums(wide, b, p, |xs|) == xs
    decreases |xs|
  {
    if xs != [] {
      AtSplit(b, p, Num(wide, xs[0]), Nums(wide, xs[1..]));
      ReadNum(wide, b, p, xs[0]);
      ReadNums(wide, b, p + Cell(wide), xs[1..]);
    }
  }

  lemma ReadByte(b: seq<Byte>, p: int, s: seq<Byte>)
    requires At(b, p, s) && s != []
    ensures p < |b| && b[p] == s[0]
    ensures |s| >= 2 ==> b[p + 1] == s[1]
    ensures |s| >= 3 ==> b[p + 2] == s[2]
  {
    assert b[p] == b[p..p + |s|][0];
    if |s| >= 2 { assert b[p + 1] == b[p..p + |s|][1]; }
    if |s| >= 3 { assert b[p + 2] == b[p..p + |s|][2]; }
  }

  lemma DecodeJump(b: seq<Byte>, p: int, i: Instr)
    requires At(b, p, Encode(i)) && Encodable(i)
    requires i.IGoto? || i.ISplit? || i.ILook?
    ensures Decode(b, p) == Some(i)
  {
    hide U16, U32, GetU16, GetU32, GetNums, Nums, Size;
    ReadByte(b, p, Encode(i));
    AtSplit(b, p, [Opcode(i)], U32(i.off));
    ReadU32(b, p + 1, i.off);
  }

  lemma DecodeLoop(b: seq<Byte>, p: int, i: Instr)
    requires At(b, p, Encode(i)) && Encodable(i)
    requires i.ILoop?
    ensures Decode(b, p) == Some(i)
  {
    hide U16, U32, GetU16, GetU32, GetNums, GetBytes, Nums, Bytes, Size;
    ReadByte(b, p, Encode(i));
    AtSplit(b, p, [Opcode(i)], [U8(i.reg)] + U32(i.off));
    AtSplit(b, p + 1, [U8(i.reg)], U32(i.off));
    ReadU32(b, p + 2, i.off);
  }

  lemma DecodeCounter(b: seq<Byte>, p: int, i: Instr)
    requires At(b, p, Encode(i)) && Encodable(i)
    requires i.ISetCounter?
    ensures Decode(b, p) == Some(i)
  {
    hide U16, U32, GetU16, GetU32, GetNums, GetBytes, Nums, Bytes, Size;
    ReadByte(b, p, Encode(i));
    AtSplit(b, p, [Opcode(i)], [U8(i.reg)] + U32(i.val));
    AtSplit(b, p + 1, [U8(i.reg)], U32(i.val));
    ReadU32(b, p + 2, i.val);
  }

  lemma DecodeLoopSplit(b: seq<Byte>, p: int, i: Instr)
    requires At(b, p, Encode(i)) && Encodable(i)
    requires i.ILoopSplit?
    ensures Decode(b, p) == Some(i)
  {
    hide U16, U32, GetU16, GetU32, GetNums, Nums, Size;
    ReadByte(b, p, Encode(i));
    var rest := U32(i.limit) + U32(i.off);
    AtSplit(b, p, [Opcode(i)], [U8(i.reg)] + rest);
    AtSplit(b, p + 1, [U8(i.reg)], rest);
    AtSplit(b, p + 2, U32(i.limit), U32(i.off));
    ReadU32(b, p + 2, i.limit);
    ReadU32(b, p + 6, i.off);
  }

  lemma DecodeBackRef(b: seq<Byte>, p: int, i: Instr)
    requires At(b, p, Encode(i)) && Encodable(i)
    requires i.IBackRef?
    ensures Decode(b, p) == Some(i)
  {
    hide U16, U32, GetU16, GetU32, GetNums, Nums, Size;
    ReadByte(b, p, Encode(i));
    AtSplit(b, p, [Opcode(i)], [U8(|i.refs|)] + Bytes(i.refs));
    AtSplit(b, p + 1, [U8(|i.refs|)], Bytes(i.refs));
    forall j | 0 <= j < |i.refs|
      ensures b[p + 2 + j] == i.refs[j]
    {
      assert b[p + 2 + j] == b[p + 2..p + 2 + |i.refs|][j];
    }
    assert GetBytes(b, p + 2, |i.refs|) == i.refs;
  }

  lemma DecodeRange(b: seq<Byte>, p: int, i: Instr)
    requires At(b, p, Encode(i)) && Encodable(i)
    requires i.IRange?
    ensures Decode(b, p) == Some(i)
  {
    hide U16, U32, GetU16, GetU32, GetNums, Nums;
    var n := |i.bounds| / 2;
    ReadByte(b, p, Encode(i));
    AtSplit(b, p, [Opcode(i)], U16(n) + Nums(i.wide, i.bounds));
    AtSplit(b, p + 1, U16(n), Nums(i.wide, i.bounds));
    ReadU16(b, p + 1, n);
    ReadNums(i.wide, b, p + 3, i.bounds);
  }

  lemma DecodeChar(b: seq<Byte>, p: int, i: Instr)
    requires At(b, p, Encode(i)) && Encodable(i)
    requires i.IChar?
    ensures Decode(b, p) == Some(i)
  {
    hide U16, U32, GetU16, GetU32, GetNums, Nums, Size;
    ReadByte(b, p, Encode(i));
    AtSplit(b, p, [Opcode(i)], Operands(i));
    if i.c <= 0xFFFF { ReadU16(b, p + 1, i.c); } else { ReadU32(b, p + 1, i.c); }
  }

  lemma DecodeShort(b: seq<Byte>, p: int, i: Instr)
    requires At(b, p, Encode(i)) && Encodable(i)
    requires i.ISave? || i.IReset? || i.ISetPos? || i.ICheckAdvance? || Operands(i) == []
    ensures Decode(b, p) == Some(i)
  {
    hide U16, U32, GetU16, GetU32, GetNums, Nums;
    ReadByte(b, p, Encode(i));
  }

  /** An encoded instruction is fetched as it was written. */
  lemma DecodeEncode(b: seq<Byte>, p: int, i: Instr)
    requires At(b, p, Encode(i)) && Encodable(i)
    ensures Decode(b, p) == Some(i)
  {
    hide Encode, Decode;
    match i
    case IChar(_, _) => DecodeChar(b, p, i);
    case IGoto(_) => DecodeJump(b, p, i);
    case ISplit(_, _) => DecodeJump(b, p, i);
    case ILook(_, _) => DecodeJump(b, p, i);
    case ILoop(_, _) => DecodeLoop(b, p, i);
    case ISetCounter(_, _) => DecodeCounter(b, p, i);
    case ILoopSplit(_, _, _, _, _) => DecodeLoopSplit(b, p, i);
    case IBackRef(_, _, _) => DecodeBackRef(b, p, i);
    case IRange(_, _, _) => DecodeRange(b, p, i);
    case _ => DecodeShort(b, p, i);
  }

  lemma {:induction false} LenAppend(x: seq<Instr>, y: seq<Instr>)
    ensures Len(x + y) == Len(x) + Len(y)
  {
    if x == [] {
      assert x + y == y;
    } else {
      assert (x + y)[1..] == x[1..] + y;
      LenAppend(x[1..], y);
    }
  }

  lemma {:induction false} EncodeAppend(x: seq<Instr>, y: seq<Instr>)
    ensures EncodeAll(x + y) == EncodeAll(x) + EncodeAll(y)
  {
    hide Encode;
    if x == [] {
      assert x + y == y;
    } else {
      assert (x + y)[1..] == x[1..] + y;
      EncodeAppend(x[1..], y);
      JoinBytes(Encode(x[0]), EncodeAll(x[1..]), EncodeAll(y));
    }
  }

  lemma JoinBytes(x: seq<Byte>, y: seq<Byte>, z: seq<Byte>)
    ensures x + y + z == x + (y + z)
  {
  }
}
