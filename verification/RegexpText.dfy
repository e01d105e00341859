/** The subject as a text of characters: what the tests at a position and the back references mean. */
module RegexpText {
  import opened Options
  import opened Surrogates
  import opened RegexpInput
  import opened RegexpSyntax
  import opened RegexpMatcher
  import T = Transcoding

  /** The characters of the units [s, e). */
  function Chars(env: Env, s: int, e: int): seq<int>
    requires 0 <= s && e <= env.Len()
    decreases e - s
  {
    if s >= e then [] else [CharAt(env, s, e)] + Chars(env, Next(env, s, e), e)
  }

  lemma {:induction false} CharsJoin(env: Env, s: int, m: int, e: int)
    requires Boundary(env, s) && Boundary(env, m) && Boundary(env, e) && s <= m <= e
    ensures Chars(env, s, e) == Chars(env, s, m) + Chars(env, m, e)
    decreases m - s
  {
    if s < m {
      NextIsBoundary(env, s, m);
      NextIsBoundary(env, s, e);
      CharsJoin(env, Next(env, s, m), m, e);
    }
  }

  /** Reading forward reads the first character, reading backward the last. */
  lemma CharsEnds(env: Env, s: int, e: int)
    requires Boundary(env, s) && Boundary(env, e) && s < e
    ensures var t := Chars(env, s, e);
            && t == [CharAt(env, s, e)] + Chars(env, Next(env, s, e), e)
            && t == Chars(env, s, Prev(env, e, s)) + [CharBefore(env, e, s)]
  {
    PrevIsBoundary(env, e, s);
    var p := Prev(env, e, s);
    CharsJoin(env, s, p, e);
    NextIsBoundary(env, p, e);
  }

  // ----- the characters are those of UTF-16 -----

  /** The units of a text. */
  function UnitsOf(env: Env, t: seq<int>): seq<int> {
    if t == [] then [] else (if env.pairs && 0x10000 <= t[0] < 0x110000 then T.Pair(t[0]) else [t[0]]) + UnitsOf(env, t[1..])
  }

  predicate SixteenBit(env: Env) {
    forall i | 0 <= i < env.Len() :: 0 <= env.units[i] < 0x10000
  }

  /** The characters stand for the units, and no pair is left apart. */
  lemma {:induction false} CharsAreUnits(env: Env, s: int, e: int)
    requires SixteenBit(env) && 0 <= s <= e <= env.Len()
    ensures UnitsOf(env, Chars(env, s, e)) == env.units[s..e]
    decreases e - s
  {
    if s < e {
      var t, q := Chars(env, s, e), Next(env, s, e);
      CharsAreUnits(env, q, e);
      assert t[1..] == Chars(env, q, e);
      hide Chars, UnitsOf, T.Pair;
      OneUnits(env, s, e, t);
      assert env.units[s..e] == env.units[s..q] + env.units[q..e];
    }
  }

  lemma OneUnits(env: Env, s: int, e: int, t: seq<int>)
    requires SixteenBit(env) && 0 <= s < e <= env.Len() && t != [] && t[0] == CharAt(env, s, e)
    ensures UnitsOf(env, t) == env.units[s..Next(env, s, e)] + UnitsOf(env, t[1..])
  {
    if PairAt(env, s, e) {
      T.PairBack(env.units[s], env.units[s + 1]);
    }
  }

  lemma {:induction false} NoPairApart(env: Env, s: int, e: int, i: nat)
    requires SixteenBit(env) && env.pairs && 0 <= s <= e <= env.Len() && i + 1 < |Chars(env, s, e)|
    ensures !(IsHi(Chars(env, s, e)[i]) && IsLo(Chars(env, s, e)[i + 1]))
    decreases e - s
  {
    var q := Next(env, s, e);
    if i > 0 {
      NoPairApart(env, q, e, i - 1);
    } else {
      assert Chars(env, q, e)[0] == CharAt(env, q, e);
    }
  }

  /** Without pairs every unit is a character. */
  lemma {:induction false} CharsUnpaired(env: Env, s: int, e: int)
    requires !env.pairs && 0 <= s <= e <= env.Len()
    ensures Chars(env, s, e) == env.units[s..e]
    decreases e - s
  {
    if s < e {
      CharsUnpaired(env, s + 1, e);
      assert env.units[s..e] == [env.units[s]] + env.units[s + 1..e];
    }
  }

  // ----- back references -----

  /** Two texts are equal character by character, up to folding. */
  ghost predicate Same(env: Env, icase: bool, t: seq<int>, u: seq<int>) {
    |t| == |u| && forall i | 0 <= i < |t| :: env.Fold(icase, t[i]) == env.Fold(icase, u[i])
  }

  lemma SameFirst(env: Env, icase: bool, a: int, t: seq<int>, b: int, u: seq<int>)
    ensures Same(env, icase, [a] + t, [b] + u) <==> env.Fold(icase, a) == env.Fold(icase, b) && Same(env, icase, t, u)
  {
    var x, y := [a] + t, [b] + u;
    if Same(env, icase, x, y) {
      assert x[0] == a && y[0] == b;
      forall i | 0 <= i < |t| ensures env.Fold(icase, t[i]) == env.Fold(icase, u[i]) {
        assert x[i + 1] == t[i] && y[i + 1] == u[i];
      }
    }
  }

  lemma SameLast(env: Env, icase: bool, t: seq<int>, a: int, u: seq<int>, b: int)
    ensures Same(env, icase, t + [a], u + [b]) <==> env.Fold(icase, a) == env.Fold(icase, b) && Same(env, icase, t, u)
  {
    var x, y := t + [a], u + [b];
    if Same(env, icase, x, y) {
      assert x[|t|] == a && y[|u|] == b;
      forall i | 0 <= i < |t| ensures env.Fold(icase, t[i]) == env.Fold(icase, u[i]) {
        assert x[i] == t[i] && y[i] == u[i];
      }
    }
  }

  /** The text between p and q repeats the text of the units [s, e). */
  ghost predicate Repeats(env: Env, icase: bool, s: int, e: int, p: int, q: int)
    requires 0 <= s && e <= env.Len()
  {
    Boundary(env, p) && Boundary(env, q) && p <= q && Same(env, icase, Chars(env, s, e), Chars(env, p, q))
  }

  /** Going forward a back reference ends at q exactly if the text up to q repeats the capture; so there is none
      if no text does. */
  lemma {:induction false} RepeatForwardIs(env: Env, icase: bool, s: int, e: int, p: int, q: int)
    requires Boundary(env, s) && Boundary(env, e) && Boundary(env, p) && s <= e
    ensures RepeatForward(env, icase, s, e, p) == Some(q) <==> Repeats(env, icase, s, e, p, q)
    decreases e - s
  {
    hide Same, CharAt, Next, Boundary;
    InText(env, s, e, p);
    NothingRepeats(env, icase, s, e, p, q);
    if Repeats(env, icase, s, e, p, q) {
      RepeatsInText(env, icase, s, e, p, q);
    }
    if s < e && p < env.Len() {
      NextIsBoundary(env, s, e);
      NextIsBoundary(env, p, env.Len());
      RepeatForwardIs(env, icase, Next(env, s, e), e, Next(env, p, env.Len()), q);
      if Boundary(env, q) && p < q {
        InText(env, p, q, q);
        NextIsBoundary(env, p, q);
        SameFirst(env, icase, CharAt(env, s, e), Chars(env, Next(env, s, e), e), CharAt(env, p, q), Chars(env, Next(env, p, q), q));
      }
    }
  }

  lemma InText(env: Env, s: int, e: int, p: int)
    requires Boundary(env, s) && Boundary(env, e) && Boundary(env, p)
    ensures 0 <= s <= env.Len() && 0 <= e <= env.Len() && 0 <= p <= env.Len() && Boundary(env, env.Len()) && Boundary(env, 0)
  {
  }

  lemma RepeatsInText(env: Env, icase: bool, s: int, e: int, p: int, q: int)
    requires 0 <= s && e <= env.Len() && Repeats(env, icase, s, e, p, q)
    ensures 0 <= p <= q <= env.Len()
  {
  }

  lemma NothingRepeats(env: Env, icase: bool, s: int, e: int, p: int, q: int)
    requires Boundary(env, s) && Boundary(env, e) && Boundary(env, p) && s <= e
    ensures s == e ==> (Repeats(env, icase, s, e, p, q) <==> q == p) && (Repeats(env, icase, s, e, q, p) <==> q == p)
    ensures s < e && q <= p ==> !Repeats(env, icase, s, e, p, q)
    ensures s < e && p <= q ==> !Repeats(env, icase, s, e, q, p)
  {
    hide CharAt, Next;
  }

  /** The same going backward. */
  lemma {:induction false} RepeatBackwardIs(env: Env, icase: bool, s: int, e: int, p: int, q: int)
    requires Boundary(env, s) && Boundary(env, e) && Boundary(env, p) && s <= e
    ensures RepeatBackward(env, icase, s, e, p) == Some(q) <==> Repeats(env, icase, s, e, q, p)
    decreases e - s
  {
    hide Same, CharAt, CharBefore, Prev, Next, Boundary, Chars;
    InText(env, s, e, p);
    NothingRepeats(env, icase, s, e, p, q);
    if Repeats(env, icase, s, e, q, p) {
      RepeatsInText(env, icase, s, e, q, p);
    }
    if s < e && p > 0 {
      PrevIsBoundary(env, e, s);
      PrevIsBoundary(env, p, 0);
      RepeatBackwardIs(env, icase, s, Prev(env, e, s), Prev(env, p, 0), q);
      if Boundary(env, q) && q < p {
        InText(env, q, p, p);
        PrevIsBoundary(env, p, q);
        CharsEnds(env, s, e);
        CharsEnds(env, q, p);
        SameLast(env, icase, Chars(env, s, Prev(env, e, s)), CharBefore(env, e, s), Chars(env, q, Prev(env, p, q)), CharBefore(env, p, q));
      }
    }
  }

  /** The first of the captures that took part. */
  ghost predicate FirstSet(refs: seq<nat>, caps: seq<Capture>, k: nat)
    requires forall i | 0 <= i < |refs| :: refs[i] < |caps|
  {
    k < |refs| && caps[refs[k]].Span? && forall i | 0 <= i < k :: caps[refs[i]].Undefined?
  }

  /** A back reference matches nothing if none of its captures took part, and else the text of the first. */
  lemma {:induction false} BackReferenceIs(env: Env, fwd: bool, refs: seq<nat>, icase: bool, x: State, y: State)
    requires Valid(env, x) && forall i | 0 <= i < |refs| :: refs[i] < |x.caps|
    ensures |BackReference(env, fwd, refs, icase, x)| <= 1
    ensures (forall i | 0 <= i < |refs| :: x.caps[refs[i]].Undefined?) ==> BackReference(env, fwd, refs, icase, x) == [x]
    ensures forall k: nat | FirstSet(refs, x.caps, k) ::
              var c := x.caps[refs[k]];
              y in BackReference(env, fwd, refs, icase, x) <==>
                y == x.(pos := y.pos)
                && if fwd then Repeats(env, icase, c.start, c.end, x.pos, y.pos) else Repeats(env, icase, c.start, c.end, y.pos, x.pos)
  {
    hide Repeats, RepeatForward, RepeatBackward, Boundary;
    if refs != [] {
      match x.caps[refs[0]]
      case Undefined =>
        BackReferenceIs(env, fwd, refs[1..], icase, x, y);
        forall k: nat | FirstSet(refs, x.caps, k) ensures k > 0 && FirstSet(refs[1..], x.caps, k - 1) {
        }
      case Span(s, e) =>
        assert ValidCapture(env, x.caps[refs[0]]);
        forall k: nat | FirstSet(refs, x.caps, k) ensures k == 0 {
        }
        if fwd {
          RepeatForwardIs(env, icase, s, e, x.pos, y.pos);
        } else {
          RepeatBackwardIs(env, icase, s, e, x.pos, y.pos);
        }
    }
  }

  // ----- single characters and positions -----

  /** A character test moves over one character that it accepts. */
  lemma OneCharIs(env: Env, re: Re, fwd: bool, x: State, y: State)
    requires IsAtom(re) && WellFormed(re) && Valid(env, x)
    ensures y in OneChar(env, re, fwd, x) <==>
              var (p, q) := if fwd then (x.pos, y.pos) else (y.pos, x.pos);
              && y == x.(pos := y.pos) && Boundary(env, y.pos) && p < q
              && var t := Chars(env, p, q); |t| == 1 && Accepts(env, re, t[0])
  {
    hide Accepts, CharAt, CharBefore, Next, Prev, Chars;
    EmptyIfNone(env, x.pos, x.pos);
    var (p, q) := if fwd then (x.pos, y.pos) else (y.pos, x.pos);
    if fwd && x.pos < env.Len() {
      NextIsBoundary(env, x.pos, env.Len());
      var z := Next(env, x.pos, env.Len());
      CharsEnds(env, x.pos, z);
      NextIsBoundary(env, x.pos, z);
      EmptyIfNone(env, z, z);
      if Boundary(env, y.pos) && p < q {
        CharsEnds(env, p, q);
        NextIsBoundary(env, p, q);
        EmptyIfNone(env, Next(env, p, q), q);
      }
    }
    if !fwd && 0 < x.pos {
      PrevIsBoundary(env, x.pos, 0);
      var z := Prev(env, x.pos, 0);
      CharsEnds(env, z, x.pos);
      PrevIsBoundary(env, x.pos, z);
      EmptyIfNone(env, z, z);
      if Boundary(env, y.pos) && p < q {
        CharsEnds(env, p, q);
        PrevIsBoundary(env, q, p);
        EmptyIfNone(env, p, Prev(env, q, p));
      }
    }
  }

  lemma EmptyIfNone(env: Env, s: int, e: int)
    requires 0 <= s <= e <= env.Len()
    ensures Chars(env, s, e) == [] <==> s == e
  {
  }

  /** The tests at a position look at the last character before it and the first after it. */
  lemma PositionsAre(env: Env, multi: bool, icase: bool, p: int)
    requires Boundary(env, p)
    ensures var before, after := Chars(env, 0, p), Chars(env, p, env.Len());
            && (AtLineStart(env, multi, p) <==> before == [] || (multi && IsLineTerminator(before[|before| - 1])))
            && (AtLineEnd(env, multi, p) <==> after == [] || (multi && IsLineTerminator(after[0])))
            && (AtWordBoundary(env, icase, p) <==>
                  (before != [] && IsWord(before[|before| - 1], icase)) != (after != [] && IsWord(after[0], icase)))
  {
    hide CharAt, CharBefore, Next, Prev, Chars, IsWord, IsLineTerminator;
    EmptyIfNone(env, 0, p);
    EmptyIfNone(env, p, env.Len());
    if p > 0 {
      CharsEnds(env, 0, p);
    }
    if p < env.Len() {
      CharsEnds(env, p, env.Len());
    }
  }
}
