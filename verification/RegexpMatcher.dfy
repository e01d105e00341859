/** The meaning of a pattern: section 22.2.2 of ECMA-262, with the continuation of each
    matcher replaced by the list of everything it would be tried with, in order. */
module RegexpMatcher {
  import opened Options
  import opened RegexpInput
  import opened RegexpSyntax

  datatype Capture = Undefined | Span(start: int, end: int)

  /** A MatchState: the end index and the captures. */
  datatype State = State(pos: int, caps: seq<Capture>)

  datatype Bound = Infinite | Finite(n: nat)

  function Upper(max: nat): Bound {
    if max == INFINITE then Infinite else Finite(max)
  }

  predicate ValidCapture(env: Env, c: Capture) {
    c.Span? ==> c.start <= c.end && Boundary(env, c.start) && Boundary(env, c.end)
  }

  predicate Valid(env: Env, x: State) {
    && Boundary(env, x.pos)
    && forall k | 0 <= k < |x.caps| :: ValidCapture(env, x.caps[k])
  }

  /** `y` can follow `x` in the given direction. */
  predicate Follows(env: Env, fwd: bool, x: State, y: State) {
    && Valid(env, y)
    && |y.caps| == |x.caps|
    && (if fwd then x.pos <= y.pos else y.pos <= x.pos)
  }

  predicate AllFollow(env: Env, fwd: bool, x: State, ys: seq<State>) {
    forall i | 0 <= i < |ys| :: Follows(env, fwd, x, ys[i])
  }

  predicate Applies(env: Env, re: Re, base: nat, x: State) {
    && Valid(env, x)
    && base + Count(re) <= |x.caps|
    && WellFormed(re)
    && RefersBelow(re, |x.caps|)
  }

  /** How far `x` is from the end of the subject, in the given direction. */
  function Distance(env: Env, fwd: bool, x: State): nat
    requires Boundary(env, x.pos)
  {
    if fwd then env.Len() - x.pos else x.pos
  }

  lemma PosInRange(env: Env, x: State)
    requires Valid(env, x)
    ensures 0 <= x.pos <= env.Len()
  {
  }

  /** CharacterSetMatcher's test on one character. */
  ghost predicate Accepts(env: Env, re: Re, c: int)
    requires IsAtom(re)
    requires re.Class? ==> Normalised(re.points)
  {
    match re
    case Char(d, icase) => env.Fold(icase, c) == env.Fold(icase, d)
    case Dot(all) => all || !IsLineTerminator(c)
    case Space(neg) => IsSpace(c) != neg
    case Class(points, icase) => InClass(points, env.Fold(icase, c))
  }

  ghost function OneChar(env: Env, re: Re, fwd: bool, x: State): (ys: seq<State>)
    requires IsAtom(re) && WellFormed(re) && Valid(env, x)
    ensures AllFollow(env, fwd, x, ys)
  {
    if fwd then
      if x.pos < env.Len() && Accepts(env, re, CharAt(env, x.pos, env.Len())) then
        NextIsBoundary(env, x.pos, env.Len());
        [x.(pos := Next(env, x.pos, env.Len()))]
      else []
    else
      if 0 < x.pos && Accepts(env, re, CharBefore(env, x.pos, 0)) then
        PrevIsBoundary(env, x.pos, 0);
        [x.(pos := Prev(env, x.pos, 0))]
      else []
  }

  predicate AtLineStart(env: Env, multi: bool, p: int)
    requires 0 <= p <= env.Len()
  {
    p == 0 || (multi && IsLineTerminator(CharBefore(env, p, 0)))
  }

  predicate AtLineEnd(env: Env, multi: bool, p: int)
    requires 0 <= p <= env.Len()
  {
    p == env.Len() || (multi && IsLineTerminator(CharAt(env, p, env.Len())))
  }

  predicate AtWordBoundary(env: Env, icase: bool, p: int)
    requires 0 <= p <= env.Len()
  {
    (0 < p && IsWord(CharBefore(env, p, 0), icase)) !=
    (p < env.Len() && IsWord(CharAt(env, p, env.Len()), icase))
  }

  /** The position after repeating units [s, e) from `p` on, if they are there. */
  function RepeatForward(env: Env, icase: bool, s: int, e: int, p: int): (r: Option<int>)
    requires 0 <= s && e <= env.Len() && 0 <= p <= env.Len()
    ensures r.Some? ==> p <= r.value <= env.Len()
    ensures r.Some? && Boundary(env, s) && Boundary(env, e) && Boundary(env, p) ==> Boundary(env, r.value)
    decreases e - s
  {
    if e <= s then Some(p)
    else if p == env.Len() then None
    else if env.Fold(icase, CharAt(env, s, e)) != env.Fold(icase, CharAt(env, p, env.Len())) then None
    else RepeatForward(env, icase, Next(env, s, e), e, Next(env, p, env.Len()))
  }

  /** The position before repeating units [s, e) so that they end at `p`. */
  function RepeatBackward(env: Env, icase: bool, s: int, e: int, p: int): (r: Option<int>)
    requires 0 <= s && e <= env.Len() && 0 <= p <= env.Len()
    ensures r.Some? ==> 0 <= r.value <= p
    ensures r.Some? && Boundary(env, s) && Boundary(env, e) && Boundary(env, p) ==> Boundary(env, r.value)
    decreases e - s
  {
    if e <= s then Some(p)
    else if p == 0 then None
    else if env.Fold(icase, CharBefore(env, e, s)) != env.Fold(icase, CharBefore(env, p, 0)) then None
    else RepeatBackward(env, icase, s, Prev(env, e, s), Prev(env, p, 0))
  }

  /** BackreferenceMatcher: the first capture of the list that took part, or nothing. */
  ghost function BackReference(env: Env, fwd: bool, refs: seq<nat>, icase: bool, x: State): (ys: seq<State>)
    requires Valid(env, x) && forall i | 0 <= i < |refs| :: refs[i] < |x.caps|
    ensures AllFollow(env, fwd, x, ys)
  {
    if refs == [] then [x]
    else match x.caps[refs[0]]
      case Undefined => BackReference(env, fwd, refs[1..], icase, x)
      case Span(s, e) =>
        assert ValidCapture(env, x.caps[refs[0]]);
        var r := if fwd then RepeatForward(env, icase, s, e, x.pos) else RepeatBackward(env, icase, s, e, x.pos);
        if r.Some? then [x.(pos := r.value)] else []
  }

  function Close(fwd: bool, k: nat, from: int, y: State): State
    requires k < |y.caps|
  {
    y.(caps := y.caps[k := if fwd then Span(from, y.pos) else Span(y.pos, from)])
  }

  /** Sets capture `k` of every state to the text between `from` and its position. */
  function CloseAll(fwd: bool, k: nat, from: int, ys: seq<State>): (zs: seq<State>)
    requires forall i | 0 <= i < |ys| :: k < |ys[i].caps|
    ensures |zs| == |ys|
    ensures forall i | 0 <= i < |ys| :: zs[i] == Close(fwd, k, from, ys[i])
  {
    seq(|ys|, i requires 0 <= i < |ys| => Close(fwd, k, from, ys[i]))
  }

  /** Undefines the captures lo .. lo + n - 1. */
  function Reset(x: State, lo: nat, n: nat): (y: State)
    requires lo + n <= |x.caps|
    ensures y.pos == x.pos && |y.caps| == |x.caps|
    ensures forall k | 0 <= k < |x.caps| :: y.caps[k] == if lo <= k < lo + n then Undefined else x.caps[k]
  {
    x.(caps := seq(|x.caps|, k requires 0 <= k < |x.caps| => if lo <= k < lo + n then Undefined else x.caps[k]))
  }

  /** Drops the states that have not moved from `p`. */
  function Moved(ys: seq<State>, p: int): (zs: seq<State>)
    ensures forall i | 0 <= i < |zs| :: zs[i] in ys && zs[i].pos != p
  {
    if ys == [] then [] else (if ys[0].pos == p then [] else [ys[0]]) + Moved(ys[1..], p)
  }

  /** All the ways to match `re` from `x`, best first.  `base` is the number of captures
      that open to the left of `re`. */
  ghost function Match(env: Env, re: Re, fwd: bool, base: nat, x: State): (ys: seq<State>)
    requires Applies(env, re, base, x)
    ensures AllFollow(env, fwd, x, ys)
    decreases re, 0
  {
    match re
    case Empty => [x]
    case Char(_, _) => OneChar(env, re, fwd, x)
    case Dot(_) => OneChar(env, re, fwd, x)
    case Space(_) => OneChar(env, re, fwd, x)
    case Class(_, _) => OneChar(env, re, fwd, x)
    case LineStart(multi) => if AtLineStart(env, multi, x.pos) then [x] else []
    case LineEnd(multi) => if AtLineEnd(env, multi, x.pos) then [x] else []
    case WordBoundary(neg, icase) => if AtWordBoundary(env, icase, x.pos) != neg then [x] else []
    case BackRef(refs, icase) => BackReference(env, fwd, refs, icase, x)
    case Group(body) => CloseAll(fwd, base, x.pos, Match(env, body, fwd, base + 1, x))
    case Look(neg, behind, body) =>
      var ys := Match(env, body, !behind, base, x);
      if neg then if ys == [] then [x] else []
      else if ys == [] then [] else [ys[0].(pos := x.pos)]
    case Cat(l, r) =>
      if fwd then MatchAll(env, r, fwd, base + Count(l), x, Match(env, l, fwd, base, x))
      else MatchAll(env, l, fwd, base, x, Match(env, r, fwd, base + Count(l), x))
    case Alt(l, r) => Match(env, l, fwd, base, x) + Match(env, r, fwd, base + Count(l), x)
    case Quant(body, min, max, greedy) => Repeat(env, body, fwd, base, min, Upper(max), greedy, x)
  }

  /** Matches `re` from every state of `xs` in turn. */
  ghost function MatchAll(env: Env, re: Re, fwd: bool, base: nat, x0: State, xs: seq<State>): (ys: seq<State>)
    requires AllFollow(env, fwd, x0, xs) && Applies(env, re, base, x0)
    ensures AllFollow(env, fwd, x0, ys)
    decreases re, 1, |xs|
  {
    if xs == [] then []
    else Match(env, re, fwd, base, xs[0]) + MatchAll(env, re, fwd, base, x0, xs[1..])
  }

  /** RepeatMatcher. */
  ghost function Repeat(env: Env, body: Re, fwd: bool, base: nat, min: nat, max: Bound, greedy: bool, x: State): (ys: seq<State>)
    requires Applies(env, body, base, x)
    ensures AllFollow(env, fwd, x, ys)
    decreases body, 1, min, Distance(env, fwd, x)
  {
    if max == Finite(0) then [x]
    else
      var again := Round(env, body, fwd, base, min, max, greedy, x);
      if min != 0 then again
      else if greedy then again + [x]
      else [x] + again
  }

  /** One more round of the loop, then whatever RepeatMatcher allows after it. */
  ghost function Round(env: Env, body: Re, fwd: bool, base: nat, min: nat, max: Bound, greedy: bool, x: State): (ys: seq<State>)
    requires Applies(env, body, base, x) && max != Finite(0)
    ensures AllFollow(env, fwd, x, ys)
    decreases body, 1, min, Distance(env, fwd, x), 1
  {
    var ys := Match(env, body, fwd, base, Reset(x, base, Count(body)));
    assert AllFollow(env, fwd, x, ys);
    var max' := if max.Infinite? then max else Finite(max.n - 1);
    if min != 0 then RepeatAll(env, body, fwd, base, min - 1, max', greedy, x, env.Len() + 1, ys)
    else RepeatAll(env, body, fwd, base, 0, max', greedy, x, Distance(env, fwd, x), Moved(ys, x.pos))
  }

  /** Goes on with the loop from every state of `xs` in turn. */
  ghost function RepeatAll(env: Env, body: Re, fwd: bool, base: nat, min: nat, max: Bound, greedy: bool,
                           x0: State, d: nat, xs: seq<State>): (ys: seq<State>)
    requires AllFollow(env, fwd, x0, xs) && Applies(env, body, base, x0)
    requires forall i | 0 <= i < |xs| :: Distance(env, fwd, xs[i]) < d
    ensures AllFollow(env, fwd, x0, ys)
    decreases body, 1, min, d, 0, |xs|
  {
    if xs == [] then []
    else
      assert Distance(env, fwd, xs[0]) < d;
      Repeat(env, body, fwd, base, min, max, greedy, xs[0])
      + RepeatAll(env, body, fwd, base, min, max, greedy, x0, d, xs[1..])
  }

  // ----- one level of `Match` at a time -----

  lemma MatchGroup(env: Env, re: Re, fwd: bool, base: nat, x: State)
    requires Applies(env, re, base, x) && re.Group?
    ensures Match(env, re, fwd, base, x) == CloseAll(fwd, base, x.pos, Match(env, re.body, fwd, base + 1, x))
  {
    hide Valid, Normalised, AllFollow, AtLineStart, AtLineEnd, AtWordBoundary, CloseAll, Repeat, MatchAll, OneChar, BackReference;
  }

  lemma MatchLook(env: Env, re: Re, fwd: bool, base: nat, x: State)
    requires Applies(env, re, base, x) && re.Look?
    ensures var ys := Match(env, re.body, !re.behind, base, x);
            Match(env, re, fwd, base, x) ==
            if re.neg then if ys == [] then [x] else [] else if ys == [] then [] else [ys[0].(pos := x.pos)]
  {
    hide Valid, Normalised, AllFollow, AtLineStart, AtLineEnd, AtWordBoundary, CloseAll, Repeat, MatchAll, OneChar, BackReference;
  }

  lemma MatchCat(env: Env, re: Re, fwd: bool, base: nat, x: State)
    requires Applies(env, re, base, x) && re.Cat?
    ensures var rb := base + Count(re.left);
            Match(env, re, fwd, base, x) ==
            if fwd then MatchAll(env, re.right, fwd, rb, x, Match(env, re.left, fwd, base, x))
            else MatchAll(env, re.left, fwd, base, x, Match(env, re.right, fwd, rb, x))
  {
    hide Valid, Normalised, AllFollow, AtLineStart, AtLineEnd, AtWordBoundary, CloseAll, Repeat, MatchAll, OneChar, BackReference;
  }

  lemma MatchAlt(env: Env, re: Re, fwd: bool, base: nat, x: State)
    requires Applies(env, re, base, x) && re.Alt?
    ensures Match(env, re, fwd, base, x) ==
            Match(env, re.left, fwd, base, x) + Match(env, re.right, fwd, base + Count(re.left), x)
  {
    hide Valid, Normalised, AllFollow, AtLineStart, AtLineEnd, AtWordBoundary, CloseAll, Repeat, MatchAll, OneChar, BackReference;
  }

  lemma MatchQuant(env: Env, re: Re, fwd: bool, base: nat, x: State)
    requires Applies(env, re, base, x) && re.Quant?
    ensures Match(env, re, fwd, base, x) == Repeat(env, re.body, fwd, base, re.min, Upper(re.max), re.greedy, x)
  {
    hide Valid, Normalised, AllFollow, AtLineStart, AtLineEnd, AtWordBoundary, CloseAll, Repeat, MatchAll, OneChar, BackReference;
  }
}
