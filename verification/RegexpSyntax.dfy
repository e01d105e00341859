/** Patterns, after the character-level syntax has been read. */
module RegexpSyntax {

  /** `INT32_MAX`, which the parser uses for an unbounded repetition. */
  const INFINITE: nat := 0x7FFF_FFFF
  const UINT32_MAX: nat := 0xFFFF_FFFF
  const CODE_POINT_MAX: nat := 0x10FFFF

  /** `Class` holds the endpoint array of a character set: the set is the union of the
      half-open intervals [points[0], points[1]), [points[2], points[3]), ...; when `icase`
      is set it is already closed under `lre_canonicalize`.
      `BackRef` lists the captures one name may stand for. */
  datatype Re =
    | Empty
    | Char(c: int, icase: bool)
    | Dot(all: bool)
    | Space(neg: bool)
    | Class(points: seq<int>, icase: bool)
    | LineStart(multi: bool)
    | LineEnd(multi: bool)
    | WordBoundary(neg: bool, icase: bool)
    | BackRef(refs: seq<nat>, icase: bool)
    | Group(body: Re)
    | Look(neg: bool, behind: bool, body: Re)
    | Cat(left: Re, right: Re)
    | Alt(left: Re, right: Re)
    | Quant(body: Re, min: nat, max: nat, greedy: bool)

  /** How many capturing groups open inside `re`. */
  function Count(re: Re): nat {
    match re
    case Group(body) => 1 + Count(body)
    case Look(_, _, body) => Count(body)
    case Cat(l, r) => Count(l) + Count(r)
    case Alt(l, r) => Count(l) + Count(r)
    case Quant(body, _, _, _) => Count(body)
    case _ => 0
  }

  /** An atom that matches exactly one character. */
  predicate IsAtom(re: Re) {
    re.Char? || re.Dot? || re.Space? || re.Class?
  }

  /** Endpoint arrays as the set operations of libunicode.c leave them. */
  predicate Normalised(points: seq<int>) {
    && |points| % 2 == 0
    && (forall i | 0 <= i < |points| :: 0 <= points[i] <= UINT32_MAX)
    && forall i, j | 0 <= i < j < |points| :: points[i] < points[j]
  }

  predicate InClass(points: seq<int>, c: int)
    requires |points| % 2 == 0
  {
    exists i | 0 <= i < |points| / 2 :: points[2 * i] <= c < points[2 * i + 1]
  }

  /** What the parser guarantees of the patterns it accepts. */
  predicate WellFormed(re: Re) {
    match re
    case Char(c, _) => 0 <= c <= CODE_POINT_MAX
    case Class(points, _) => Normalised(points)
    case BackRef(refs, _) => |refs| <= 255
    case Group(body) => WellFormed(body)
    case Look(_, _, body) => WellFormed(body)
    case Cat(l, r) => WellFormed(l) && WellFormed(r)
    case Alt(l, r) => WellFormed(l) && WellFormed(r)
    case Quant(body, min, max, _) => min <= max <= INFINITE && WellFormed(body)
    case _ => true
  }

  /** Back references name captures of the pattern; `n` is their number, the overall match
      included. */
  predicate RefersBelow(re: Re, n: nat) {
    match re
    case BackRef(refs, _) => forall i | 0 <= i < |refs| :: refs[i] < n
    case Group(body) => RefersBelow(body, n)
    case Look(_, _, body) => RefersBelow(body, n)
    case Cat(l, r) => RefersBelow(l, n) && RefersBelow(r, n)
    case Alt(l, r) => RefersBelow(l, n) && RefersBelow(r, n)
    case Quant(body, _, _, _) => RefersBelow(body, n)
    case _ => true
  }

  /** The number of intervals of a class is stored in 16 bits (`too many ranges`). */
  predicate RangesFit(re: Re) {
    match re
    case Class(points, _) => |points| / 2 < 65535
    case Group(body) => RangesFit(body)
    case Look(_, _, body) => RangesFit(body)
    case Cat(l, r) => RangesFit(l) && RangesFit(r)
    case Alt(l, r) => RangesFit(l) && RangesFit(r)
    case Quant(body, _, _, _) => RangesFit(body)
    case _ => true
  }

  /** The repetition counters are 31 bits wide, so an unbounded repetition with `min`
      mandatory rounds is faithful on subjects of at most `INFINITE - min` units. */
  predicate CountersSuffice(re: Re, len: nat) {
    match re
    case Group(body) => CountersSuffice(body, len)
    case Look(_, _, body) => CountersSuffice(body, len)
    case Cat(l, r) => CountersSuffice(l, len) && CountersSuffice(r, len)
    case Alt(l, r) => CountersSuffice(l, len) && CountersSuffice(r, len)
    case Quant(body, min, max, _) =>
      (max == INFINITE ==> min + len <= INFINITE) && CountersSuffice(body, len)
    case _ => true
  }

  lemma PairShape(re: Re)
    requires WellFormed(re) && (re.Cat? || re.Alt?)
    ensures WellFormed(re.left) && WellFormed(re.right) && Count(re) == Count(re.left) + Count(re.right)
    ensures RangesFit(re) <==> RangesFit(re.left) && RangesFit(re.right)
  {
    hide Normalised;
  }
}
