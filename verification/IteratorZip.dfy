/** The helper object that `Iterator.zip` returns, against iterators that may do anything, calling the helper
    again included. */
module IteratorZip {
  import opened Options

  /** A thrown value; `truthy` is its truth value, which the code looks at. */
  datatype Thrown = Thrown(truthy: bool, id: int) | RunningZipper | MismatchedInputs

  /** What calling `next`, reading `done`, reading `value` and closing lead to. */
  datatype CallReply = Result | Throws(e: Thrown)
  datatype DoneReply = NotDone | IsDone | DoneThrows(e: Thrown)
  datatype ValueReply = Value(v: int) | ValueThrows(e: Thrown)
  datatype ReturnReply = Returned | NoMethod | Failed(e: Thrown)

  /** What is done to a slot. */
  datatype Event = Next(called: CallReply) | ReadDone(done: DoneReply) | ReadValue(value: ValueReply) | Return(closed: ReturnReply)

  /** A call of the helper's own `next` or `return`, and what it leads to; `Bug` is its InternalError. */
  datatype Call = CallNext | CallReturn
  datatype Outcome = Yielded(results: seq<int>) | Finished | Threw(e: Thrown) | Bug

  /** Something is done to a slot, or the code that runs for a slot calls the helper. */
  datatype Entry = Did(slot: nat, event: Event) | Inner(during: nat, call: Call, outcome: Outcome)

  /** What the iterators do next, given all that happened so far: any functions at all. Before each reply the
      iterator may make any calls of the helper. */
  datatype World = World(
    reenter: (seq<Entry>, nat) -> seq<Call>,
    next: (seq<Entry>, nat) -> CallReply,
    done: (seq<Entry>, nat) -> DoneReply,
    value: (seq<Entry>, nat) -> ValueReply,
    close: (seq<Entry>, nat) -> ReturnReply)

  datatype Mode = Shortest | Longest | Strict

  datatype State = New | Suspend | Execute | Complete

  predicate Truthy(e: Thrown) {
    e.Thrown? ==> e.truthy
  }

  // ----- traces -----

  /** What was done, slot by slot, in order. */
  type Trace = seq<(nat, Event)>

  /** What was done in a history, without the calls from inside. */
  function Done(history: seq<Entry>): Trace {
    if history == [] then []
    else
      var last := history[|history| - 1];
      Done(history[..|history| - 1]) + if last.Did? then [(last.slot, last.event)] else []
  }

  /** The events of one slot. */
  function Of(history: seq<Entry>, i: nat): seq<Event> {
    if history == [] then []
    else
      var last := history[|history| - 1];
      Of(history[..|history| - 1], i) + if last.Did? && last.slot == i then [last.event] else []
  }

  lemma Push(history: seq<Entry>, entry: Entry, i: nat)
    ensures Of(history + [entry], i) == Of(history, i) + if entry.Did? && entry.slot == i then [entry.event] else []
    ensures Done(history + [entry]) == Done(history) + if entry.Did? then [(entry.slot, entry.event)] else []
  {
    assert (history + [entry])[..|history|] == history;
  }

  /** The slots in the order in which something was done to them. */
  function SlotsOf(t: Trace): seq<nat> {
    if t == [] then [] else SlotsOf(t[..|t| - 1]) + [t[|t| - 1].0]
  }

  /** The slots in the order in which their `next` was called. */
  function Asked(t: Trace): seq<nat> {
    if t == [] then [] else Asked(t[..|t| - 1]) + if t[|t| - 1].1.Next? then [t[|t| - 1].0] else []
  }

  /** The first thing that `next`, `done` or `value` threw. */
  function FirstThrow(t: Trace): Option<Thrown> {
    if t == [] then None
    else if FirstThrow(t[..|t| - 1]).Some? then FirstThrow(t[..|t| - 1])
    else ThrownBy(t[|t| - 1].1)
  }

  function ThrownBy(event: Event): Option<Thrown> {
    match event
    case Next(Throws(e)) => Some(e)
    case ReadDone(DoneThrows(e)) => Some(e)
    case ReadValue(ValueThrows(e)) => Some(e)
    case _ => None
  }

  /** The first failure to close that counts: the code looks at the truth value of what was thrown. */
  function FirstFailure(t: Trace): Option<Thrown> {
    if t == [] then None
    else if FirstFailure(t[..|t| - 1]).Some? then FirstFailure(t[..|t| - 1])
    else FailedBy(t[|t| - 1].1)
  }

  function FailedBy(event: Event): Option<Thrown> {
    match event
    case Return(Failed(e)) => if Truthy(e) then Some(e) else None
    case _ => None
  }

  /** Some slot was done, was not done, was closed. */
  predicate Has(t: Trace, event: Event) {
    exists k | 0 <= k < |t| :: t[k].1 == event
  }

  predicate Closes(t: Trace) {
    exists k | 0 <= k < |t| :: t[k].1.Return?
  }

  lemma TracePush(t: Trace, i: nat, event: Event)
    ensures var u := t + [(i, event)];
            && SlotsOf(u) == SlotsOf(t) + [i] && Asked(u) == Asked(t) + (if event.Next? then [i] else [])
            && FirstThrow(u) == (if FirstThrow(t).Some? then FirstThrow(t) else ThrownBy(event))
            && FirstFailure(u) == (if FirstFailure(t).Some? then FirstFailure(t) else FailedBy(event))
            && (Closes(u) <==> Closes(t) || event.Return?)
            && (CallThrew(u) <==> CallThrew(t) || (event.Next? && event.called.Throws?))
    ensures forall x: Event :: Has(t + [(i, event)], x) <==> Has(t, x) || x == event
  {
    var u := t + [(i, event)];
    assert u[..|t|] == t;
    assert u[|t|].1 == event;
    forall k | 0 <= k < |t| ensures u[k] == t[k] {
    }
  }

  /** The slots in use below k, from the last to the first. */
  function Down(open: seq<bool>, k: nat): seq<nat>
    requires k <= |open|
  {
    if k == 0 then [] else (if open[k - 1] then [k - 1] else []) + Down(open, k - 1)
  }

  /** The slots in use below k, from the first to the last. */
  function Up(open: seq<bool>, k: nat): seq<nat>
    requires k <= |open|
  {
    if k == 0 then [] else Up(open, k - 1) + if open[k - 1] then [k - 1] else []
  }

  lemma {:induction false} UpPrefix(open: seq<bool>, k: nat)
    requires k <= |open|
    ensures Up(open, k) <= Up(open, |open|)
    decreases |open| - k
  {
    if k < |open| {
      UpPrefix(open, k + 1);
    }
  }

  /** Closing adds no throw of the other kinds, and its first failure is the first at all. */
  lemma {:induction false} TraceClose(t: Trace, added: Trace)
    requires forall k | 0 <= k < |added| :: added[k].1.Return?
    ensures var u := t + added;
            && FirstThrow(u) == FirstThrow(t) && Asked(u) == Asked(t) && (CallThrew(u) <==> CallThrew(t))
            && FirstFailure(u) == (if FirstFailure(t).Some? then FirstFailure(t) else FirstFailure(added))
    ensures forall x: Event | !x.Return? :: Has(t + added, x) <==> Has(t, x)
  {
    hide FirstThrow, FirstFailure, Asked, Has, Closes, CallThrew;
    if added == [] {
      assert t + added == t;
      NoTrace();
    } else {
      var rest, last := added[..|added| - 1], added[|added| - 1];
      TraceClose(t, rest);
      assert t + added == t + rest + [(last.0, last.1)] && added == rest + [(last.0, last.1)];
      TracePush(t + rest, last.0, last.1);
      TracePush(rest, last.0, last.1);
    }
  }

  lemma {:induction false} NoFailure(t: Trace)
    requires !Closes(t)
    ensures FirstFailure(t).None?
  {
    if t != [] {
      var u := t[..|t| - 1];
      forall k | 0 <= k < |u| ensures !u[k].1.Return? {
        assert u[k] == t[k];
      }
      NoFailure(u);
    }
  }

  /** Some call of `next` threw. */
  predicate CallThrew(t: Trace) {
    exists k | 0 <= k < |t| :: t[k].1.Next? && t[k].1.called.Throws?
  }

  /** Every slot is given up: a call of `next` threw, a shortest zip had a slot done, or a strict zip had one slot done
      and another not. */
  predicate GivesUp(mode: Mode, t: Trace) {
    || CallThrew(t)
    || (FirstThrow(t).None? && mode == Shortest && Has(t, ReadDone(IsDone)))
    || (FirstThrow(t).None? && mode == Strict && Has(t, ReadDone(IsDone)) && Has(t, ReadDone(NotDone)))
  }

  /** What `next` leads to, given what was done during the call. */
  predicate Lawful(outcome: Outcome, mode: Mode, t: Trace) {
    if FirstThrow(t).Some? then outcome == Threw(FirstThrow(t).value)
    else if mode == Strict && Has(t, ReadDone(IsDone)) && Has(t, ReadDone(NotDone)) then outcome == Threw(MismatchedInputs)
    else if mode == Shortest && Has(t, ReadDone(IsDone)) then outcome == Closed(t)
    else if Has(t, ReadDone(NotDone)) then outcome.Yielded?
    else outcome == Finished
  }

  /** What closing leads to. */
  function Closed(t: Trace): Outcome {
    if FirstFailure(t).Some? then Threw(FirstFailure(t).value) else Finished
  }

  // ----- what a round has done -----

  /** Slots below i were asked; so many were done, and so many gave values. */
  ghost predicate Reported(i: nat, dones: nat, values: nat, open: seq<bool>, t: Trace)
    requires i <= |open|
  {
    && FirstThrow(t).None? && !CallThrew(t) && !Closes(t) && Asked(t) == Up(open, i)
    && (Has(t, ReadDone(IsDone)) <==> dones > 0) && (Has(t, ReadDone(NotDone)) <==> values > 0)
  }

  predicate Returns(t: Trace) {
    forall k | 0 <= k < |t| :: t[k].1.Return?
  }

  /** A slot was asked, and so many of its events happened. */
  function Round1(t: Trace, i: nat, called: CallReply): Trace {
    t + [(i, Next(called))]
  }

  function Round2(t: Trace, i: nat, done: DoneReply): Trace {
    Round1(t, i, Result) + [(i, ReadDone(done))]
  }

  function Round3(t: Trace, i: nat, value: ValueReply): Trace {
    Round2(t, i, NotDone) + [(i, ReadValue(value))]
  }

  lemma NothingReported(open: seq<bool>)
    ensures Reported(0, 0, 0, open, [])
  {
  }

  lemma SlotUnused(i: nat, dones: nat, values: nat, open: seq<bool>, t: Trace)
    requires i < |open| && !open[i] && Reported(i, dones, values, open, t)
    ensures Reported(i + 1, dones, values, open, t)
  {
    assert Up(open, i) + [] == Up(open, i);
  }

  lemma AskFailed(i: nat, dones: nat, values: nat, open: seq<bool>, t: Trace, e: Thrown, closed: Trace, mode: Mode)
    requires i < |open| && open[i] && Reported(i, dones, values, open, t) && Returns(closed)
    ensures var u := Round1(t, i, Throws(e)) + closed;
            Lawful(Threw(e), mode, u) && GivesUp(mode, u) && Asked(u) == Up(open, i + 1)
  {
    hide FirstThrow, FirstFailure, Asked, Has, Closes, CallThrew;
    TracePush(t, i, Next(Throws(e)));
    TraceClose(Round1(t, i, Throws(e)), closed);
  }

  lemma DoneFailed(i: nat, dones: nat, values: nat, open: seq<bool>, t: Trace, e: Thrown, mode: Mode)
    requires i < |open| && open[i] && Reported(i, dones, values, open, t)
    ensures var u := Round2(t, i, DoneThrows(e));
            Lawful(Threw(e), mode, u) && !GivesUp(mode, u) && !Closes(u) && Asked(u) == Up(open, i + 1)
  {
    hide FirstThrow, FirstFailure, Asked, Has, Closes, CallThrew;
    TracePush(t, i, Next(Result));
    TracePush(Round1(t, i, Result), i, ReadDone(DoneThrows(e)));
  }

  lemma ValueFailed(i: nat, dones: nat, values: nat, open: seq<bool>, t: Trace, e: Thrown, mode: Mode)
    requires i < |open| && open[i] && Reported(i, dones, values, open, t)
    ensures var u := Round3(t, i, ValueThrows(e));
            Lawful(Threw(e), mode, u) && !GivesUp(mode, u) && !Closes(u) && Asked(u) == Up(open, i + 1)
  {
    hide FirstThrow, FirstFailure, Asked, Has, Closes, CallThrew;
    TracePush(t, i, Next(Result));
    TracePush(Round1(t, i, Result), i, ReadDone(NotDone));
    TracePush(Round2(t, i, NotDone), i, ReadValue(ValueThrows(e)));
  }

  lemma GaveValue(i: nat, dones: nat, values: nat, open: seq<bool>, t: Trace, v: int)
    requires i < |open| && open[i] && Reported(i, dones, values, open, t)
    ensures Reported(i + 1, dones, values + 1, open, Round3(t, i, Value(v)))
  {
    hide FirstThrow, FirstFailure, Asked, Has, Closes, CallThrew;
    TracePush(t, i, Next(Result));
    TracePush(Round1(t, i, Result), i, ReadDone(NotDone));
    TracePush(Round2(t, i, NotDone), i, ReadValue(Value(v)));
  }

  lemma Mismatched(i: nat, dones: nat, values: nat, open: seq<bool>, t: Trace, done: DoneReply, closed: Trace)
    requires i < |open| && open[i] && Reported(i, dones, values, open, t) && Returns(closed)
    requires (done.NotDone? && dones > 0) || (done.IsDone? && values > 0)
    ensures var u := Round2(t, i, done) + closed;
            Lawful(Threw(MismatchedInputs), Strict, u) && GivesUp(Strict, u) && Asked(u) == Up(open, i + 1)
  {
    hide FirstThrow, FirstFailure, Asked, Has, Closes, CallThrew;
    TracePush(t, i, Next(Result));
    TracePush(Round1(t, i, Result), i, ReadDone(done));
    TraceClose(Round2(t, i, done), closed);
  }

  lemma WasDone(i: nat, dones: nat, values: nat, open: seq<bool>, t: Trace)
    requires i < |open| && open[i] && Reported(i, dones, values, open, t)
    ensures Reported(i + 1, dones + 1, values, open, Round2(t, i, IsDone))
  {
    hide FirstThrow, FirstFailure, Asked, Has, Closes, CallThrew;
    TracePush(t, i, Next(Result));
    TracePush(Round1(t, i, Result), i, ReadDone(IsDone));
  }

  /** A shortest zip has a slot done. */
  lemma ShortestEnds(i: nat, dones: nat, values: nat, open: seq<bool>, t: Trace, closed: Trace)
    requires i <= |open| && Reported(i, dones, values, open, t) && dones > 0 && Returns(closed)
    ensures var u := t + closed; Lawful(Closed(closed), Shortest, u) && GivesUp(Shortest, u) && Asked(u) == Up(open, i)
  {
    hide FirstThrow, FirstFailure, Asked, Has, Closes, CallThrew;
    TraceClose(t, closed);
    NoFailure(t);
  }

  /** The round ends without closing anything. */
  lemma RoundEnds(i: nat, dones: nat, values: nat, open: seq<bool>, t: Trace, mode: Mode, outcome: Outcome)
    requires i <= |open| && Reported(i, dones, values, open, t) && (mode == Shortest ==> dones == 0) && (mode == Strict && dones > 0 ==> values == 0)
    requires if values > 0 then outcome.Yielded? else outcome == Finished
    ensures Lawful(outcome, mode, t) && !GivesUp(mode, t) && !Closes(t)
  {
    hide FirstThrow, FirstFailure, Asked, Has, Closes, CallThrew;
  }

  lemma DownOnce(open: seq<bool>, k: nat)
    requires 0 < k <= |open|
    ensures Down(open, k) == (if open[k - 1] then [k - 1] else []) + Down(open, k - 1)
  {
  }

  lemma NoTrace()
    ensures SlotsOf([]) == [] && FirstFailure([]).None?
  {
  }

  lemma NothingBelow(open: seq<bool>)
    ensures Down(open, 0) == []
  {
  }

  /** Neither the end of the slot nor a failure. */
  predicate GoesOn(event: Event) {
    match event
    case Next(called) => called.Result?
    case ReadDone(done) => done.NotDone?
    case ReadValue(value) => value.Value?
    case Return(_) => false
  }

  /** The order in which a slot is used: `next`, then `done`, then `value` unless it is closed before that. */
  predicate Follows(event: Event, event': Event) {
    && GoesOn(event)
    && match event
       case Next(_) => event'.ReadDone?
       case ReadDone(_) => event'.ReadValue? || event'.Return?
       case _ => event'.Next? || event'.Return?
  }

  predicate May(t: seq<Event>, event: Event) {
    if t == [] then event.Next? || event.Return? else Follows(t[|t| - 1], event)
  }

  /** Done, failed or closed. */
  predicate Ended(t: seq<Event>) {
    t != [] && !GoesOn(t[|t| - 1])
  }

  /** Its next round may begin. */
  predicate Ready(t: seq<Event>) {
    t == [] || (t[|t| - 1].ReadValue? && GoesOn(t[|t| - 1]))
  }

  predicate Closable(t: seq<Event>) {
    Ready(t) || t[|t| - 1] == ReadDone(NotDone)
  }

  /** A slot is used in order, and nothing happens to it once it is done, failed or closed. */
  predicate Proper(t: seq<Event>) {
    forall k | 0 <= k < |t| :: May(t[..k], t[k])
  }

  lemma ProperPush(t: seq<Event>, event: Event)
    requires Proper(t) && May(t, event)
    ensures Proper(t + [event])
  {
    forall k | 0 <= k < |t| + 1 ensures May((t + [event])[..k], (t + [event])[k]) {
      assert (t + [event])[..k] == t[..k];
      assert k == |t| ==> t[..k] == t;
    }
  }

  lemma InOrder(t: seq<Event>, i: nat)
    requires Proper(t) && i + 1 < |t|
    ensures Follows(t[i], t[i + 1])
  {
    assert May(t[..i + 1], t[i + 1]);
  }

  /** Nothing follows the end of a slot. */
  lemma NothingAfter(t: seq<Event>, i: nat)
    requires Proper(t) && i < |t| && !GoesOn(t[i])
    ensures i == |t| - 1
  {
    if i < |t| - 1 {
      InOrder(t, i);
    }
  }

  /** A slot with a proper trace is closed at most once, and that is the last thing that happens. */
  lemma ClosedAtMostOnce(t: seq<Event>, i: nat, j: nat)
    requires Proper(t) && i < |t| && j < |t| && t[i].Return? && t[j].Return?
    ensures i == j == |t| - 1
  {
    NothingAfter(t, i);
    NothingAfter(t, j);
  }

  /** Calls made by the iterators themselves find the helper running or complete. */
  predicate Refused(history: seq<Entry>) {
    forall k | 0 <= k < |history| && history[k].Inner? :: history[k].outcome in {Threw(RunningZipper), Finished}
  }

  function Count(open: seq<bool>): nat {
    if open == [] then 0 else Count(open[..|open| - 1]) + if open[|open| - 1] then 1 else 0
  }

  lemma {:induction false} CountAll(open: seq<bool>)
    ensures Count(open) <= |open|
    ensures (forall i | 0 <= i < |open| :: open[i]) ==> Count(open) == |open|
    ensures Count(open) == 0 <==> forall i | 0 <= i < |open| :: !open[i]
  {
    if open != [] {
      CountAll(open[..|open| - 1]);
    }
  }

  lemma {:induction false} CountClosed(open: seq<bool>, i: nat)
    requires i < |open| && open[i]
    ensures Count(open[i := false]) == Count(open) - 1
  {
    var n := |open| - 1;
    if i == n {
      assert open[i := false][..n] == open[..n];
    } else {
      assert open[i := false][..n] == open[..n][i := false];
      CountClosed(open[..n], i);
    }
  }

  class Zipper {
    const world: World
    const mode: Mode
    const count: nat
    const pads: seq<int>
    var open: seq<bool>
    var alive: int
    var state: State
    var history: seq<Entry>

    /** What holds at every moment, in the middle of a call too. */
    ghost predicate Always()
      reads this
    {
      |open| == count == |pads| && Refused(history) && forall i | 0 <= i < count :: Proper(Of(history, i))
    }

    /** What every call keeps about the slots. */
    ghost predicate Slots()
      reads this
    {
      Always() && forall i | 0 <= i < count && !open[i] :: Ended(Of(history, i))
    }

    /** The slots that are still in use are those whose next round may begin. */
    ghost predicate Live()
      reads this
    {
      Slots() && forall i | 0 <= i < count && open[i] :: Ready(Of(history, i))
    }

    ghost predicate AllOpen()
      requires |open| == count
      reads this
    {
      forall i | 0 <= i < count :: open[i]
    }

    ghost predicate AllClosed()
      requires |open| == count
      reads this
    {
      forall i | 0 <= i < count :: !open[i]
    }

    /** What holds between the calls from outside. */
    ghost predicate Valid()
      reads this
    {
      && Slots()
      && (state != Execute ==> Live())
      && (state == New ==> AllOpen() && alive == count)
      && (state == Suspend ==> if mode == Longest then alive == Count(open) && alive >= 1 else AllOpen())
      && (state == Complete ==> AllClosed())
    }

    /** Calls do something only in these states. */
    predicate Active()
      reads this
    {
      state == New || state == Suspend
    }

    /** When the helper may be called: at any moment when it is running or complete. */
    ghost predicate Callable()
      reads this
    {
      if Active() then Valid() else Always()
    }

    /** The helper as `zip` returns it, with one pad for each iterator. */
    constructor (world: World, mode: Mode, pads: seq<int>)
      ensures Valid() && state == New && this.world == world && this.mode == mode && this.pads == pads && history == []
    {
      this.world, this.mode, this.pads, this.count := world, mode, pads, |pads|;
      open := seq(|pads|, _ => true);
      alive := |pads|;
      state := New;
      history := [];
    }

    /** The fields other than the history have these values. */
    ghost predicate Fixed(open0: seq<bool>, alive0: int, state0: State)
      reads this
    {
      open == open0 && alive == alive0 && state == state0
    }

    /** Something is done to a slot. */
    method Log(i: nat, event: Event)
      requires Always() && i < count && May(Of(history, i), event)
      modifies this`history
      ensures Always() && history == old(history) + [Did(i, event)]
      ensures forall j | 0 <= j < count :: Of(history, j) == old(Of(history, j)) + if i == j then [event] else []
      ensures Done(history) == old(Done(history)) + [(i, event)]
    {
      hide Of, Done, Proper, May;
      ghost var was := history;
      history := history + [Did(i, event)];
      Push(was, Did(i, event), i);
      forall j | 0 <= j < count
        ensures Of(history, j) == Of(was, j) + if i == j then [event] else []
        ensures Proper(Of(history, j))
      {
        Push(was, Did(i, event), j);
        if i == j {
          ProperPush(Of(was, i), event);
        } else {
          assert Of(was, j) + [] == Of(was, j);
        }
      }
    }

    /** Code that runs for slot i calls the helper, as often as it likes: every call is refused. */
    method Reenter(i: nat)
      requires Always() && !Active()
      modifies this
      ensures Always() && Fixed(old(open), old(alive), old(state))
      ensures forall j | 0 <= j < count :: Of(history, j) == old(Of(history, j))
      ensures Done(history) == old(Done(history))
      decreases 0, 1
    {
      hide Of, Done, Proper;
      var calls := world.reenter(history, i);
      for k := 0 to |calls|
        invariant Always() && Fixed(old(open), old(alive), old(state))
        invariant forall j | 0 <= j < count :: Of(history, j) == old(Of(history, j))
        invariant Done(history) == old(Done(history))
      {
        var outcome;
        ghost var did;
        if calls[k].CallNext? {
          outcome, did := NextResult();
        } else {
          outcome, did := ReturnResult();
        }
        LogInner(i, calls[k], outcome);
      }
    }

    method LogInner(i: nat, call: Call, outcome: Outcome)
      requires Always() && outcome in {Threw(RunningZipper), Finished}
      modifies this`history
      ensures Always() && history == old(history) + [Inner(i, call, outcome)]
      ensures forall j | 0 <= j < count :: Of(history, j) == old(Of(history, j))
      ensures Done(history) == old(Done(history))
    {
      hide Of, Done, Proper;
      ghost var was := history;
      history := history + [Inner(i, call, outcome)];
      Push(was, Inner(i, call, outcome), 0);
      assert Done(was) + [] == Done(was);
      forall j | 0 <= j < count ensures Of(history, j) == Of(was, j) {
        Push(was, Inner(i, call, outcome), j);
        assert Of(was, j) + [] == Of(was, j);
      }
    }

    /** `closeall`: every slot in use is closed once, from the last to the first; a slot is given up before its
        iterator runs; the first failure that counts is reported */
    method CloseAll() returns (ex: Option<Thrown>, ghost added: Trace)
      requires Slots() && !Active() && forall i | 0 <= i < count && open[i] :: Closable(Of(history, i))
      modifies this
      ensures Live() && AllClosed() && state == old(state) && alive == old(alive)
      ensures forall i | 0 <= i < count && !old(open[i]) :: Of(history, i) == old(Of(history, i))
      ensures forall i | 0 <= i < count && old(open[i]) :: ClosedOnce(old(Of(history, i)), Of(history, i))
      ensures Done(history) == old(Done(history)) + added && SlotsOf(added) == Down(old(open), count)
      ensures (forall k | 0 <= k < |added| :: added[k].1.Return?) && ex == FirstFailure(added)
      decreases 0, 3
    {
      hide Of, Done, Down, SlotsOf, Proper, Closable, Ended, Ready, ClosedOnce, FirstFailure;
      ex, added := None, [];
      ghost var was, open0 := history, open;
      NoTrace();
      for k := count downto 0
        invariant state == old(state) && alive == old(alive) && ex == FirstFailure(added)
        invariant Slots() && Closing(k, was, open0) && Counting(k, was, open0, added)
      {
        var used := open[k];
        DownOnce(open0, k + 1);
        open := open[k := false];
        if used {
          var reply := Close(k);
          TracePush(added, k, Return(reply));
          assert Done(was) + added + [(k, Return(reply))] == Done(was) + (added + [(k, Return(reply))]);
          added := added + [(k, Return(reply))];
          if ex.None? && reply.Failed? && Truthy(reply.e) {
            ex := Some(reply.e);
          }
        }
      }
      NothingBelow(open0);
    }

    /** `closeall` after the events t of a round */
    method CloseAfter(ghost was: seq<Entry>, ghost t: Trace) returns (ex: Option<Thrown>, ghost closed: Trace)
      requires Slots() && !Active() && (forall i | 0 <= i < count && open[i] :: Closable(Of(history, i))) && Done(history) == Done(was) + t
      modifies this
      ensures Live() && AllClosed() && state == old(state) && alive == old(alive)
      ensures Done(history) == Done(was) + (t + closed) && Returns(closed) && ex == FirstFailure(closed)
      decreases 0, 4
    {
      hide Of, Done, Down, SlotsOf, Proper, Closable, Ended, Ready, ClosedOnce, FirstFailure;
      ex, closed := CloseAll();
      assert Done(was) + t + closed == Done(was) + (t + closed);
    }

    /** The slots from k on were closed. */
    ghost predicate Closing(k: nat, was: seq<Entry>, open0: seq<bool>)
      reads this
    {
      && |open| == |open0| == count && (forall i | k <= i < count :: !open[i]) && (forall i | 0 <= i < count && i < k :: open[i] == open0[i])
      && (forall i | 0 <= i < count && (i < k || !open0[i]) :: Of(history, i) == Of(was, i))
      && (forall i | k <= i < count && open0[i] :: ClosedOnce(Of(was, i), Of(history, i)))
    }

    ghost predicate Counting(k: nat, was: seq<Entry>, open0: seq<bool>, added: Trace)
      requires k <= |open0|
      reads this
    {
      && Done(history) == Done(was) + added && SlotsOf(added) + Down(open0, k) == Down(open0, |open0|)
      && forall x | 0 <= x < |added| :: added[x].1.Return?
    }

    /** `close` on a slot that was just given up */
    method Close(k: nat) returns (reply: ReturnReply)
      requires Always() && !Active() && k < count && Closable(Of(history, k))
      modifies this
      ensures Always() && Fixed(old(open), old(alive), old(state))
      ensures forall j | 0 <= j < count && j != k :: Of(history, j) == old(Of(history, j))
      ensures Ended(Of(history, k)) && ClosedOnce(old(Of(history, k)), Of(history, k))
      ensures Done(history) == old(Done(history)) + [(k, Return(reply))]
      decreases 0, 2
    {
      hide Of, Done, Proper;
      Reenter(k);
      reply := world.close(history, k);
      Log(k, Return(reply));
    }

    /** The other slots are as they were. */
    ghost predicate Others(i: nat, was: seq<Entry>)
      reads this
    {
      forall j | 0 <= j < count && j != i :: Of(history, j) == Of(was, j)
    }

    method CallSlot(i: nat) returns (reply: CallReply)
      requires Always() && !Active() && i < count && Ready(Of(history, i))
      modifies this
      ensures Always() && Fixed(old(open), old(alive), old(state)) && Others(i, old(history))
      ensures Of(history, i) == old(Of(history, i)) + [Next(reply)] && Done(history) == old(Done(history)) + [(i, Next(reply))]
      decreases 0, 2
    {
      hide Of, Done, Proper;
      Reenter(i);
      reply := world.next(history, i);
      Log(i, Next(reply));
    }

    method GetDone(i: nat, ghost t: seq<Event>) returns (reply: DoneReply)
      requires Always() && !Active() && i < count && Of(history, i) == t + [Next(Result)]
      modifies this
      ensures Always() && Fixed(old(open), old(alive), old(state)) && Others(i, old(history))
      ensures Of(history, i) == t + [Next(Result), ReadDone(reply)] && Done(history) == old(Done(history)) + [(i, ReadDone(reply))]
      decreases 0, 2
    {
      hide Of, Done, Proper;
      Reenter(i);
      reply := world.done(history, i);
      Log(i, ReadDone(reply));
    }

    method GetValue(i: nat, ghost t: seq<Event>) returns (reply: ValueReply)
      requires Always() && !Active() && i < count && Of(history, i) == t + [Next(Result), ReadDone(NotDone)]
      modifies this
      ensures Always() && Fixed(old(open), old(alive), old(state)) && Others(i, old(history))
      ensures Of(history, i) == t + [Next(Result), ReadDone(NotDone), ReadValue(reply)]
      ensures Done(history) == old(Done(history)) + [(i, ReadValue(reply))]
      decreases 0, 2
    {
      hide Of, Done, Proper;
      Reenter(i);
      reply := world.value(history, i);
      Log(i, ReadValue(reply));
    }

    /** The first n results: the value that a slot gave since `was`, or its pad. */
    ghost predicate Collected(results: seq<int>, was: seq<Entry>, n: nat)
      requires |open| == count == |pads| && n <= count
      reads this
    {
      |results| == n
      && forall j | 0 <= j < n ::
           if open[j] then Of(history, j) == Of(was, j) + [Next(Result), ReadDone(NotDone), ReadValue(Value(results[j]))]
           else results[j] == pads[j]
    }

    /** Where a round of calls stands after i slots. */
    ghost predicate Progress(i: nat, dones: nat, values: nat)
      requires |open| == count && i <= count
      reads this
    {
      && (values == 0 ==> forall j | 0 <= j < i :: !open[j])
      && (values > 0 ==> exists j | 0 <= j < i :: open[j])
      && (mode == Shortest ==> AllOpen() && dones == 0)
      && (mode == Strict ==> (dones > 0 ==> values == 0) && (dones == 0 ==> AllOpen()) && forall j | i <= j < count :: open[j])
      && (mode == Longest ==> alive == Count(open))
    }

    /** What the round did so far. */
    ghost predicate Told(i: nat, dones: nat, values: nat, was: seq<Entry>, open0: seq<bool>, t: Trace)
      requires i <= count
      reads this
    {
      && |open0| == |open| == count && (forall j | i <= j < count :: open[j] == open0[j])
      && Done(history) == Done(was) + t && Reported(i, dones, values, open0, t)
    }

    /** After i slots of a round. */
    ghost predicate Round(i: nat, dones: nat, values: nat, results: seq<int>, was: seq<Entry>)
      reads this
    {
      && Live() && state == Execute && i <= count && Collected(results, was, i) && Progress(i, dones, values)
      && forall j | i <= j < count :: Of(history, j) == Of(was, j)
    }

    /** `next`; in the states in which the code of an iterator can call it, nothing changes.  What it leads to is told
        by what it did. */
    method NextResult() returns (outcome: Outcome, ghost added: Trace)
      requires Callable()
      modifies this
      ensures Callable() && outcome != Bug
      ensures old(state) == Execute ==> outcome == Threw(RunningZipper)
      ensures old(state) == Complete ==> outcome == Finished
      ensures !old(Active()) ==> Fixed(old(open), old(alive), old(state)) && history == old(history)
      ensures old(Active()) ==> Valid() && (outcome.Finished? ==> state == Complete) && (outcome.Threw? ==> state == Execute)
      ensures old(Active()) ==> Done(history) == old(Done(history)) + added && Lawful(outcome, mode, added)
      ensures old(Active()) ==> if GivesUp(mode, added) then AllClosed() else !Closes(added)
      ensures old(Active()) ==> Asked(added) <= Up(old(open), count) && (outcome.Yielded? ==> Asked(added) == Up(old(open), count))
      ensures outcome.Yielded? ==> state == Suspend && Collected(outcome.results, old(history), count)
      decreases if Active() then 1 else 0, 0
    {
      hide Of, Done, Count, Proper, Ended, Ready, Asked, Lawful, GivesUp, Closes, Up, Reported;
      added := [];
      if state == Execute {
        return Threw(RunningZipper), added;
      }
      if state == Complete {
        return Finished, added;
      }
      CountAll(open);
      state := Execute;
      ghost var open0 := open;
      var stop, values, results;
      stop, values, results, added := AskAll();
      if stop.Some? {
        return stop.value, added;
      }
      CountAll(open);
      if values == 0 {
        state := Complete;
        return Finished, added;
      }
      state := Suspend;
      return Yielded(results), added;
    }

    /** The loop over the slots. */
    method AskAll() returns (stop: Option<Outcome>, values: nat, results: seq<int>, ghost added: Trace)
      requires Live() && state == Execute && (mode == Longest ==> alive == Count(open)) && (mode != Longest ==> AllOpen())
      modifies this
      ensures Done(history) == old(Done(history)) + added && Asked(added) <= Up(old(open), count)
      ensures |open| == count && if GivesUp(mode, added) then AllClosed() else !Closes(added)
      ensures if stop.Some? then Stopped(stop.value) && Lawful(stop.value, mode, added) && !stop.value.Yielded?
              else
                && Live() && state == Execute && Asked(added) == Up(old(open), count) && Collected(results, old(history), count)
                && Lawful(if values > 0 then Yielded(results) else Finished, mode, added)
                && exists dones :: Progress(count, dones, values)
      decreases 0, 8
    {
      hide Of, Done, Count, Proper, Ended, Ready, Asked, Lawful, GivesUp, Closes, Up, Reported;
      var dones: nat;
      dones, values, results, added, stop := 0, 0, [], [], None;
      ghost var open0 := open;
      NothingReported(open);
      assert Done(history) + [] == Done(history);
      for i := 0 to count
        invariant stop.None? && Round(i, dones, values, results, old(history)) && Told(i, dones, values, old(history), open0, added)
      {
        stop, dones, values, results, added := Visit(i, dones, values, results, old(history), open0, added);
        UpPrefix(open0, i + 1);
        if stop.Some? {
          return;
        }
      }
      RoundEnds(count, dones, values, open0, added, mode, if values > 0 then Yielded(results) else Finished);
      AskedAll(count, dones, values, open0, added);
    }

    /** The call ends before all slots were visited. */
    ghost predicate Stopped(outcome: Outcome)
      reads this
    {
      Valid() && ((outcome.Threw? && state == Execute) || (outcome.Finished? && state == Complete))
    }

    /** So it ends with a result that what was done tells. */
    ghost predicate Judged(outcome: Outcome, was: seq<Entry>, asked: seq<nat>, t: Trace)
      requires |open| == count
      reads this
    {
      && Done(history) == Done(was) + t && Lawful(outcome, mode, t) && !outcome.Yielded? && Asked(t) == asked
      && if GivesUp(mode, t) then AllClosed() else !Closes(t)
    }

    /** The body of the loop: one slot of the round, which may end it. */
    method Visit(i: nat, dones0: nat, values0: nat, results0: seq<int>, ghost was: seq<Entry>, ghost open0: seq<bool>, ghost t0: Trace)
      returns (stop: Option<Outcome>, dones: nat, values: nat, results: seq<int>, ghost t: Trace)
      requires i < count && Round(i, dones0, values0, results0, was) && Told(i, dones0, values0, was, open0, t0)
      modifies this
      ensures if stop.Some? then Stopped(stop.value) && Judged(stop.value, was, Up(open0, i + 1), t)
              else Round(i + 1, dones, values, results, was) && Told(i + 1, dones, values, was, open0, t)
      decreases 0, 7
    {
      hide Of, Done, Count, Proper, Reported, Lawful, GivesUp, Asked, Up, Closes;
      dones, values, results, t := dones0, values0, results0, t0;
      stop := None;
      if !open[i] {
        if mode != Longest {
          return Some(Bug), dones, values, results, t;
        }
        SlotUnused(i, dones, values, open0, t);
        results := results + [pads[i]];
        return;
      }
      ghost var d := Done(was);
      var called := CallSlot(i);
      Extends(d, t0, (i, Next(called)));
      if called.Throws? {
        alive := 0;
        open := open[i := false];
        var _, closed := CloseAfter(was, Round1(t0, i, called));
        AskFailed(i, dones, values, open0, t0, called.e, closed, mode);
        t := Round1(t0, i, called) + closed;
        return Some(Threw(called.e)), dones, values, results, t;
      }
      assert d + t0 + [(i, Next(called))] == d + Round1(t0, i, called);
      stop, dones, values, results, t := Answer(i, dones, values, results, was, open0, t0);
    }

    /** The slot has answered: whether it is done, and its value. */
    ghost predicate Asking(i: nat, was: seq<Entry>, open0: seq<bool>)
      reads this
    {
      && Slots() && state == Execute && i < count && open[i] && |open0| == count && (forall j | i <= j < count :: open[j] == open0[j])
      && Of(history, i) == Of(was, i) + [Next(Result)] && Ready(Of(was, i))
      && (forall j | 0 <= j < count && open[j] && j != i :: Ready(Of(history, j)))
      && forall j | i < j < count :: Of(history, j) == Of(was, j)
    }

    method Answer(i: nat, dones0: nat, values0: nat, results0: seq<int>, ghost was: seq<Entry>, ghost open0: seq<bool>, ghost t0: Trace)
      returns (stop: Option<Outcome>, dones: nat, values: nat, results: seq<int>, ghost t: Trace)
      requires Asking(i, was, open0) && Collected(results0, was, i) && Progress(i, dones0, values0)
      requires Reported(i, dones0, values0, open0, t0) && Done(history) == Done(was) + Round1(t0, i, Result)
      modifies this
      ensures if stop.Some? then Stopped(stop.value) && Judged(stop.value, was, Up(open0, i + 1), t)
              else Round(i + 1, dones, values, results, was) && Told(i + 1, dones, values, was, open0, t)
      decreases 0, 6
    {
      hide Of, Done, Count, Proper, Reported, Lawful, GivesUp, Asked, Up, Closes;
      dones, values, results, t := dones0, values0, results0, t0;
      stop := None;
      ghost var d := Done(was);
      var done := GetDone(i, Of(was, i));
      t := Round2(t0, i, done);
      Extends(d, Round1(t0, i, Result), (i, ReadDone(done)));
      if done.DoneThrows? {
        DoneFailed(i, dones, values, open0, t0, done.e, mode);
        return Some(Threw(done.e)), dones, values, results, t;
      }
      if done.NotDone? {
        if mode == Strict && dones > 0 {
          var _, closed := CloseAfter(was, t);
          Mismatched(i, dones, values, open0, t0, done, closed);
          return Some(Threw(MismatchedInputs)), dones, values, results, t + closed;
        }
        var value := GetValue(i, Of(was, i));
        Extends(d, t, (i, ReadValue(value)));
        t := Round3(t0, i, value);
        if value.ValueThrows? {
          ValueFailed(i, dones, values, open0, t0, value.e, mode);
          return Some(Threw(value.e)), dones, values, results, t;
        }
        GaveValue(i, dones, values, open0, t0, value.v);
        results := results + [value.v];
        values := values + 1;
        return;
      }
      stop, t := Drop(i, dones, values, was, open0, t0);
      dones := dones + 1;
      results := results + [pads[i]];
    }

    /** A slot is done. */
    method Drop(i: nat, dones: nat, values: nat, ghost was: seq<Entry>, ghost open0: seq<bool>, ghost t0: Trace)
      returns (stop: Option<Outcome>, ghost t: Trace)
      requires Slots() && i < count && open[i] && state == Execute && Progress(i, dones, values) && Ended(Of(history, i))
      requires forall j | 0 <= j < count && open[j] && j != i :: Ready(Of(history, j))
      requires |open0| == count && open0[i] && Reported(i, dones, values, open0, t0) && Done(history) == Done(was) + Round2(t0, i, IsDone)
      modifies this
      ensures stop.None? ==> Live() && open == old(open)[i := false] && state == Execute && Progress(i + 1, dones + 1, values) && history == old(history)
      ensures stop.None? ==> Done(history) == Done(was) + t && Reported(i + 1, dones + 1, values, open0, t)
      ensures stop.Some? ==> Stopped(stop.value) && Judged(stop.value, was, Up(open0, i + 1), t)
      decreases 0, 5
    {
      hide Of, Done, Count, Proper, Ended, Ready, Reported, Lawful, GivesUp, Asked, Up, Closes, ClosedOnce;
      ghost var given := 0;
      if values > 0 {
        given :| 0 <= given < i && open[given];
      }
      CountClosed(open, i);
      alive := alive - 1;
      open := open[i := false];
      assert values > 0 ==> 0 <= given < i + 1 && open[given];
      CountAll(open);
      stop := None;
      t := Round2(t0, i, IsDone);
      WasDone(i, dones, values, open0, t0);
      AskedAll(i + 1, dones + 1, values, open0, t);
      if mode == Shortest {
        var ex, closed := CloseAfter(was, t);
        ShortestEnds(i + 1, dones + 1, values, open0, t, closed);
        t := t + closed;
        if ex.Some? {
          stop := Some(Threw(ex.value));
        } else {
          state := Complete;
          stop := Some(Finished);
        }
      } else if mode == Longest {
        if alive < 1 {
          RoundEnds(i + 1, dones + 1, values, open0, t, mode, Finished);
          state := Complete;
          stop := Some(Finished);
        }
      } else if values > 0 {
        var _, closed := CloseAfter(was, t);
        Mismatched(i, dones, values, open0, t0, IsDone, closed);
        t := t + closed;
        stop := Some(Threw(MismatchedInputs));
      }
    }

    /** `return`; in the states in which the code of an iterator can call it, nothing changes */
    method ReturnResult() returns (outcome: Outcome, ghost added: Trace)
      requires Callable()
      modifies this
      ensures Callable() && outcome != Bug && !outcome.Yielded?
      ensures old(state) == Execute ==> outcome == Threw(RunningZipper)
      ensures old(state) == Complete ==> outcome == Finished
      ensures !old(Active()) ==> Fixed(old(open), old(alive), old(state)) && history == old(history)
      ensures old(Active()) ==> Valid() && AllClosed() && outcome == Closed(added)
      ensures old(Active()) ==> Done(history) == old(Done(history)) + added && Returns(added) && SlotsOf(added) == Down(old(open), count)
      ensures old(Active()) ==>
                forall i | 0 <= i < count ::
                  if old(open[i]) then ClosedOnce(old(Of(history, i)), Of(history, i)) else Of(history, i) == old(Of(history, i))
      ensures outcome.Finished? ==> state == Complete
      ensures outcome.Threw? ==> state == Execute || old(state) == New
      decreases if Active() then 1 else 0, 0
    {
      added := [];
      if state == Execute {
        return Threw(RunningZipper), added;
      }
      if state == Complete {
        return Finished, added;
      }
      state := if state == New then Complete else Execute;
      var ex;
      ex, added := CloseAll();
      if ex.Some? {
        return Threw(ex.value), added;
      }
      state := Complete;
      return Finished, added;
    }
  }

  lemma Extends(d: Trace, t: Trace, x: (nat, Event))
    ensures d + t + [x] == d + (t + [x])
  {
  }

  lemma AskedAll(i: nat, dones: nat, values: nat, open: seq<bool>, t: Trace)
    requires i <= |open| && Reported(i, dones, values, open, t)
    ensures Asked(t) == Up(open, i)
  {
  }

  /** t' is t and one close. */
  ghost predicate ClosedOnce(t: seq<Event>, t': seq<Event>) {
    exists reply: ReturnReply :: t' == t + [Return(reply)]
  }

  // ----- whole runs -----

  /** Any calls from outside, in any order, with any calls from inside: every slot keeps a proper trace, the
      calls from inside are refused, and the helper never runs into its InternalError. */
  method Run(world: World, mode: Mode, pads: seq<int>, calls: seq<Call>) returns (outcomes: seq<Outcome>, history: seq<Entry>)
    ensures |outcomes| == |calls| && Bug !in outcomes
    ensures Refused(history) && forall i | 0 <= i < |pads| :: Proper(Of(history, i))
  {
    var z := new Zipper(world, mode, pads);
    outcomes := [];
    for k := 0 to |calls|
      invariant z.Valid() && z.pads == pads && |outcomes| == k && Bug !in outcomes
    {
      var outcome;
      ghost var did;
      if calls[k].CallNext? {
        outcome, did := z.NextResult();
      } else {
        outcome, did := z.ReturnResult();
      }
      outcomes := outcomes + [outcome];
    }
    history := z.history;
  }
}
