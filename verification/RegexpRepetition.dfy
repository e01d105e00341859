/** Facts about RepeatMatcher that the loops of the byte code rely on. */
module RegexpRepetition {
  import opened RegexpInput
  import opened RegexpSyntax
  import opened RegexpMatcher

  /** What follows a round from `x` that ended in `y`: nothing if an optional round did not move. */
  ghost function Tail(env: Env, body: Re, fwd: bool, base: nat, min: nat, max: Bound, greedy: bool, x: State, y: State): seq<State>
    requires Applies(env, body, base, y) && max != Finite(0)
  {
    if min == 0 && y.pos == x.pos then []
    else Repeat(env, body, fwd, base, if min == 0 then 0 else min - 1,
                if max.Infinite? then max else Finite(max.n - 1), greedy, y)
  }

  function Flatten(zss: seq<seq<State>>): seq<State> {
    if zss == [] then [] else zss[0] + Flatten(zss[1..])
  }

  ghost function Tails(env: Env, body: Re, fwd: bool, base: nat, min: nat, max: Bound, greedy: bool, x: State, ys: seq<State>): (zss: seq<seq<State>>)
    requires Applies(env, body, base, x) && AllFollow(env, fwd, x, ys) && max != Finite(0)
    ensures |zss| == |ys|
    ensures forall i | 0 <= i < |ys| :: Applies(env, body, base, ys[i]) && zss[i] == Tail(env, body, fwd, base, min, max, greedy, x, ys[i])
  {
    if ys == [] then []
    else
      assert Follows(env, fwd, x, ys[0]);
      [Tail(env, body, fwd, base, min, max, greedy, x, ys[0])] + Tails(env, body, fwd, base, min, max, greedy, x, ys[1..])
  }

  /** A round is its continuations, one after the other. */
  lemma RoundIsTails(env: Env, body: Re, fwd: bool, base: nat, min: nat, max: Bound, greedy: bool, x: State)
    requires Applies(env, body, base, x) && max != Finite(0)
    ensures var ys := Match(env, body, fwd, base, Reset(x, base, Count(body)));
            && AllFollow(env, fwd, x, ys)
            && Round(env, body, fwd, base, min, max, greedy, x) == Flatten(Tails(env, body, fwd, base, min, max, greedy, x, ys))
  {
    hide Match, Tails, Repeat, RepeatAll, Moved;
    var ys := Match(env, body, fwd, base, Reset(x, base, Count(body)));
    assert AllFollow(env, fwd, x, ys);
    if min == 0 {
      OptionalTails(env, body, fwd, base, max, greedy, x, ys);
    } else {
      MandatoryTails(env, body, fwd, base, min, max, greedy, x, env.Len() + 1, ys);
    }
  }

  lemma {:induction false} MandatoryTails(env: Env, body: Re, fwd: bool, base: nat, min: nat, max: Bound, greedy: bool, x: State,
                                          d: nat, ys: seq<State>)
    requires Applies(env, body, base, x) && max != Finite(0) && min != 0
    requires AllFollow(env, fwd, x, ys) && forall i | 0 <= i < |ys| :: Distance(env, fwd, ys[i]) < d
    ensures RepeatAll(env, body, fwd, base, min - 1, if max.Infinite? then max else Finite(max.n - 1), greedy, x, d, ys)
            == Flatten(Tails(env, body, fwd, base, min, max, greedy, x, ys))
    decreases |ys|
  {
    hide Repeat, Match;
    if ys != [] {
      assert Follows(env, fwd, x, ys[0]);
      MandatoryTails(env, body, fwd, base, min, max, greedy, x, d, ys[1..]);
      var zss := Tails(env, body, fwd, base, min, max, greedy, x, ys);
      assert zss[1..] == Tails(env, body, fwd, base, min, max, greedy, x, ys[1..]);
    }
  }

  lemma {:induction false} OptionalTails(env: Env, body: Re, fwd: bool, base: nat, max: Bound, greedy: bool, x: State, ys: seq<State>)
    requires Applies(env, body, base, x) && max != Finite(0)
    requires AllFollow(env, fwd, x, ys)
    ensures RepeatAll(env, body, fwd, base, 0, if max.Infinite? then max else Finite(max.n - 1), greedy, x,
                      Distance(env, fwd, x), Moved(ys, x.pos))
            == Flatten(Tails(env, body, fwd, base, 0, max, greedy, x, ys))
    decreases |ys|
  {
    hide Repeat, Match;
    if ys != [] {
      assert Follows(env, fwd, x, ys[0]);
      OptionalTails(env, body, fwd, base, max, greedy, x, ys[1..]);
      var zss := Tails(env, body, fwd, base, 0, max, greedy, x, ys);
      assert zss[1..] == Tails(env, body, fwd, base, 0, max, greedy, x, ys[1..]);
      if ys[0].pos == x.pos {
        assert Moved(ys, x.pos) == Moved(ys[1..], x.pos);
      } else {
        var moved := Moved(ys, x.pos);
        assert moved == [ys[0]] + Moved(ys[1..], x.pos);
        assert moved[1..] == Moved(ys[1..], x.pos);
      }
    }
  }

  // ----- a bound on the number of rounds -----

  /** Every round past the mandatory ones moves, so a counter of `min` plus the distance to the
      end of the subject is as good as no counter at all. */
  lemma {:induction false} FiniteSuffices(env: Env, body: Re, fwd: bool, base: nat, min: nat, n: nat, greedy: bool, x: State)
    requires Applies(env, body, base, x) && min + Distance(env, fwd, x) <= n
    ensures Repeat(env, body, fwd, base, min, Infinite, greedy, x) == Repeat(env, body, fwd, base, min, Finite(n), greedy, x)
    decreases min, Distance(env, fwd, x), 1
  {
    hide Match, RepeatAll, Moved, Count, WellFormed, RefersBelow;
    var ys := Match(env, body, fwd, base, Reset(x, base, Count(body)));
    assert AllFollow(env, fwd, x, ys);
    if n == 0 {
      NoneMoved(env, fwd, x, ys);
      NoMore(env, body, fwd, base, greedy, x);
    } else if min == 0 {
      AllFinite(env, body, fwd, base, 0, n - 1, greedy, x, Distance(env, fwd, x), Moved(ys, x.pos));
    } else {
      forall i | 0 <= i < |ys|
        ensures min - 1 + Distance(env, fwd, ys[i]) <= n - 1
      {
        assert Follows(env, fwd, x, ys[i]);
      }
      AllFinite(env, body, fwd, base, min - 1, n - 1, greedy, x, env.Len() + 1, ys);
    }
  }

  lemma NoMore(env: Env, body: Re, fwd: bool, base: nat, greedy: bool, x: State)
    requires Applies(env, body, base, x)
    ensures RepeatAll(env, body, fwd, base, 0, Infinite, greedy, x, 0, []) == []
  {
  }

  lemma {:induction false} NoneMoved(env: Env, fwd: bool, x: State, ys: seq<State>)
    requires Valid(env, x) && Distance(env, fwd, x) == 0 && AllFollow(env, fwd, x, ys)
    ensures Moved(ys, x.pos) == []
  {
    if ys != [] {
      assert Follows(env, fwd, x, ys[0]);
      NoneMoved(env, fwd, x, ys[1..]);
    }
  }

  lemma {:induction false} AllFinite(env: Env, body: Re, fwd: bool, base: nat, min: nat, n: nat, greedy: bool, x: State,
                                     d: nat, ys: seq<State>)
    requires Applies(env, body, base, x) && AllFollow(env, fwd, x, ys)
    requires forall i | 0 <= i < |ys| :: Distance(env, fwd, ys[i]) < d && min + Distance(env, fwd, ys[i]) <= n
    ensures RepeatAll(env, body, fwd, base, min, Infinite, greedy, x, d, ys)
            == RepeatAll(env, body, fwd, base, min, Finite(n), greedy, x, d, ys)
    decreases min, d, 0, |ys|
  {
    hide Match, Repeat;
    if ys != [] {
      assert Distance(env, fwd, ys[0]) < d;
      FiniteSuffices(env, body, fwd, base, min, n, greedy, ys[0]);
      AllFinite(env, body, fwd, base, min, n, greedy, x, d, ys[1..]);
    }
  }
}
