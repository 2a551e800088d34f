/** The two message queues of a WHAD device (whad/device/device.py): a reply
    queue fed through a mutable filter, and a background queue for the rest.
    Every callback, thread step and queue operation is one atomic action, so a
    list of actions is any interleaving of the threads. */
module Router {
  import opened ByteStrings
  import opened Messages

  datatype Arrival = Arrival(message: Message, toReplies: bool)

  datatype Fate = Returned | Dispatched | Lost

  datatype Departure = Departure(message: Message, fromReplies: bool, fate: Fate)

  /** The fields of the device, then what has happened so far. */
  datatype State = State(
    background: seq<Message>,
    replies: seq<Message>,
    filter: Option<Filter>,
    isOpen: bool,
    closing: bool,
    attached: bool,
    arrivals: seq<Arrival>,
    departures: seq<Departure>)

  const INITIAL: State := State([], [], None, false, false, false, [], [])

  datatype Action =
    | Arrive(message: Message)
    | SetFilter(filter: Option<Filter>)
    | Attach
    | Open
    | Process
    | WaitPop
    | BeginClose
    | EndClose

  predicate Matches(s: State, m: Message) {
    s.filter.Some? && s.filter.value(m)
  }

  /** `on_message_received`. */
  function Receive(s: State, m: Message): State {
    if s.closing then s
    else if Matches(s, m) then s.(replies := s.replies + [m], arrivals := s.arrivals + [Arrival(m, true)])
    else s.(background := s.background + [m], arrivals := s.arrivals + [Arrival(m, false)])
  }

  /** `process_messages`: nothing leaves while no connector is set. */
  function ProcessOne(s: State): State {
    if !s.attached || s.background == [] then s
    else s.(background := s.background[1..],
            departures := s.departures + [Departure(s.background[0], false, Dispatched)])
  }

  /** What becomes of a message that the waiter takes from the reply queue. With
      no filter set, calling it fails and the message is gone. */
  function WaiterFate(s: State, m: Message): Fate {
    if s.filter.None? then Lost else if s.filter.value(m) then Returned else Dispatched
  }

  /** The queue operation inside `wait_for_message`. */
  function TakeReply(s: State): State {
    if s.replies == [] then s
    else s.(replies := s.replies[1..],
            departures := s.departures + [Departure(s.replies[0], true, WaiterFate(s, s.replies[0]))])
  }

  function Step(s: State, a: Action): State {
    match a
    case Arrive(m) => Receive(s, m)
    case SetFilter(f) => s.(filter := f)
    case Attach => s.(attached := true)
    case Open => s.(isOpen := true)
    case Process => ProcessOne(s)
    case WaitPop => TakeReply(s)
    case BeginClose => if s.isOpen && !s.closing then s.(closing := true) else s
    case EndClose => s.(isOpen := false, closing := false)
  }

  function Run(s: State, actions: seq<Action>): State
    decreases |actions|
  {
    if actions == [] then s else Run(Step(s, actions[0]), actions[1..])
  }

  // ----- Conservation and order -----

  function Arrived(arrivals: seq<Arrival>, toReplies: bool): seq<Message> {
    if arrivals == [] then []
    else
      var n := |arrivals| - 1;
      Arrived(arrivals[..n], toReplies) +
      if arrivals[n].toReplies == toReplies then [arrivals[n].message] else []
  }

  function Departed(departures: seq<Departure>, fromReplies: bool): seq<Message> {
    if departures == [] then []
    else
      var n := |departures| - 1;
      Departed(departures[..n], fromReplies) +
      if departures[n].fromReplies == fromReplies then [departures[n].message] else []
  }

  /** Each queue holds, in order, what was routed to it and has not left it. */
  ghost predicate InOrder(s: State) {
    && Arrived(s.arrivals, true) == Departed(s.departures, true) + s.replies
    && Arrived(s.arrivals, false) == Departed(s.departures, false) + s.background
  }

  lemma ArrivedSnoc(arrivals: seq<Arrival>, a: Arrival, toReplies: bool)
    ensures Arrived(arrivals + [a], toReplies) ==
            Arrived(arrivals, toReplies) + if a.toReplies == toReplies then [a.message] else []
  {
    assert (arrivals + [a])[..|arrivals|] == arrivals;
  }

  lemma DepartedSnoc(departures: seq<Departure>, d: Departure, fromReplies: bool)
    ensures Departed(departures + [d], fromReplies) ==
            Departed(departures, fromReplies) + if d.fromReplies == fromReplies then [d.message] else []
  {
    assert (departures + [d])[..|departures|] == departures;
  }

  lemma FirstLeaves(departed: seq<Message>, queue: seq<Message>)
    requires queue != []
    ensures (departed + [queue[0]]) + queue[1..] == departed + queue
  {
  }

  lemma ReceiveKeepsOrder(s: State, m: Message)
    requires InOrder(s)
    ensures InOrder(Receive(s, m))
  {
    ArrivedSnoc(s.arrivals, Arrival(m, Matches(s, m)), true);
    ArrivedSnoc(s.arrivals, Arrival(m, Matches(s, m)), false);
    AppendAssociates(Departed(s.departures, true), s.replies, [m]);
    AppendAssociates(Departed(s.departures, false), s.background, [m]);
  }

  lemma ProcessKeepsOrder(s: State)
    requires InOrder(s)
    ensures InOrder(ProcessOne(s))
  {
    if s.background != [] {
      var d := Departure(s.background[0], false, Dispatched);
      DepartedSnoc(s.departures, d, true);
      DepartedSnoc(s.departures, d, false);
      FirstLeaves(Departed(s.departures, false), s.background);
    }
  }

  lemma TakeKeepsOrder(s: State)
    requires InOrder(s)
    ensures InOrder(TakeReply(s))
  {
    if s.replies != [] {
      var t, d := TakeReply(s), Departure(s.replies[0], true, WaiterFate(s, s.replies[0]));
      assert t.departures == s.departures + [d] && t.arrivals == s.arrivals && t.replies == s.replies[1..];
      DepartedSnoc(s.departures, d, true);
      DepartedSnoc(s.departures, d, false);
      assert Departed(t.departures, false) == Departed(s.departures, false);
      FirstLeaves(Departed(s.departures, true), s.replies);
    }
  }

  lemma StepKeepsOrder(s: State, a: Action)
    requires InOrder(s)
    ensures InOrder(Step(s, a))
  {
    match a
    case Arrive(m) => ReceiveKeepsOrder(s, m);
    case Process => ProcessKeepsOrder(s);
    case WaitPop => TakeKeepsOrder(s);
    case _ =>
  }

  lemma {:induction false} RunKeepsOrder(s: State, actions: seq<Action>)
    requires InOrder(s)
    ensures InOrder(Run(s, actions))
    decreases |actions|
  {
    if actions != [] {
      StepKeepsOrder(s, actions[0]);
      RunKeepsOrder(Step(s, actions[0]), actions[1..]);
    }
  }

  function ArrivedBag(arrivals: seq<Arrival>): multiset<Message> {
    if arrivals == [] then multiset{}
    else ArrivedBag(arrivals[..|arrivals| - 1]) + multiset{arrivals[|arrivals| - 1].message}
  }

  function DepartedBag(departures: seq<Departure>, fate: Fate): multiset<Message> {
    if departures == [] then multiset{}
    else
      var d := departures[|departures| - 1];
      DepartedBag(departures[..|departures| - 1], fate) +
      if d.fate == fate then multiset{d.message} else multiset{}
  }

  lemma {:induction false} ArrivedBagSplits(arrivals: seq<Arrival>)
    ensures ArrivedBag(arrivals) == multiset(Arrived(arrivals, true)) + multiset(Arrived(arrivals, false))
  {
    if arrivals != [] {
      ArrivedBagSplits(arrivals[..|arrivals| - 1]);
    }
  }

  function DepartedTotal(departures: seq<Departure>): multiset<Message> {
    if departures == [] then multiset{}
    else DepartedTotal(departures[..|departures| - 1]) + multiset{departures[|departures| - 1].message}
  }

  lemma {:induction false} DepartedTotalByFate(departures: seq<Departure>)
    ensures DepartedTotal(departures) ==
            DepartedBag(departures, Returned) + DepartedBag(departures, Dispatched) + DepartedBag(departures, Lost)
  {
    if departures != [] {
      DepartedTotalByFate(departures[..|departures| - 1]);
    }
  }

  lemma {:induction false} DepartedTotalByQueue(departures: seq<Departure>)
    ensures DepartedTotal(departures) == multiset(Departed(departures, true)) + multiset(Departed(departures, false))
  {
    if departures != [] {
      DepartedTotalByQueue(departures[..|departures| - 1]);
    }
  }

  lemma BagOfAppend(whole: seq<Message>, a: seq<Message>, b: seq<Message>)
    requires whole == a + b
    ensures multiset(whole) == multiset(a) + multiset(b)
  {
  }

  lemma BagsBalance(s: State)
    requires InOrder(s)
    ensures ArrivedBag(s.arrivals) == multiset(s.background) + multiset(s.replies) + DepartedTotal(s.departures)
  {
    ArrivedBagSplits(s.arrivals);
    DepartedTotalByQueue(s.departures);
    BagOfAppend(Arrived(s.arrivals, true), Departed(s.departures, true), s.replies);
    BagOfAppend(Arrived(s.arrivals, false), Departed(s.departures, false), s.background);
  }

  /** In every reachable state, each accepted message is in exactly one of the two
      queues, dispatched, returned to a waiter, or lost by a waiter with no filter. */
  lemma Conservation(actions: seq<Action>)
    ensures var s := Run(INITIAL, actions);
            ArrivedBag(s.arrivals) ==
              multiset(s.background) + multiset(s.replies)
              + (DepartedBag(s.departures, Returned) + DepartedBag(s.departures, Dispatched)
                 + DepartedBag(s.departures, Lost))
  {
    var s := Run(INITIAL, actions);
    assert InOrder(s) by { RunKeepsOrder(INITIAL, actions); }
    BagsBalance(s);
    DepartedTotalByFate(s.departures);
  }

  /** No waiter takes a message while no filter is set. */
  ghost predicate WaitersHaveFilters(s: State, actions: seq<Action>)
    decreases |actions|
  {
    actions == [] ||
    (&& (actions[0] == WaitPop ==> s.filter.Some? || s.replies == [])
     && WaitersHaveFilters(Step(s, actions[0]), actions[1..]))
  }

  predicate NothingLost(s: State) {
    forall d :: d in s.departures ==> d.fate != Lost
  }

  lemma StepLogsOne(s: State, a: Action)
    ensures s.departures <= Step(s, a).departures && s.arrivals <= Step(s, a).arrivals
  {
  }

  lemma {:induction false} StepOnlyLogs(s: State, actions: seq<Action>)
    ensures var t := Run(s, actions); s.departures <= t.departures && s.arrivals <= t.arrivals
    decreases |actions|
  {
    if actions != [] {
      StepLogsOne(s, actions[0]);
      StepOnlyLogs(Step(s, actions[0]), actions[1..]);
    }
  }

  /** Messages get lost exactly in the runs where a waiter finds one with no filter set. */
  lemma {:induction false} LostOnlyWithoutFilter(s: State, actions: seq<Action>)
    requires NothingLost(s)
    ensures NothingLost(Run(s, actions)) <==> WaitersHaveFilters(s, actions)
    decreases |actions|
  {
    if actions != [] {
      var t := Step(s, actions[0]);
      if actions[0] == WaitPop && s.filter.None? && s.replies != [] {
        StepOnlyLogs(t, actions[1..]);
        var d := t.departures[|s.departures|];
        assert d.fate == Lost && d in Run(s, actions).departures;
      } else {
        assert NothingLost(t);
        LostOnlyWithoutFilter(t, actions[1..]);
      }
    }
  }

  /** Every reply was queued under a filter, so none is queued while there has been none. */
  lemma {:induction false} WaitersFindFilters(s: State, actions: seq<Action>)
    requires s.filter.None? ==> s.replies == []
    requires SetFilter(None) !in actions
    ensures WaitersHaveFilters(s, actions)
    decreases |actions|
  {
    if actions != [] {
      assert actions[0] != SetFilter(None);
      WaitersFindFilters(Step(s, actions[0]), actions[1..]);
    }
  }

  /** So nothing is ever lost unless somebody clears the filter. */
  lemma LostOnlyAfterClearing(actions: seq<Action>)
    requires SetFilter(None) !in actions
    ensures NothingLost(Run(INITIAL, actions))
  {
    WaitersFindFilters(INITIAL, actions);
    LostOnlyWithoutFilter(INITIAL, actions);
  }

  lemma {:induction false} NoneLostInBag(departures: seq<Departure>)
    requires forall d :: d in departures ==> d.fate != Lost
    ensures DepartedBag(departures, Lost) == multiset{}
  {
    if departures != [] {
      NoneLostInBag(departures[..|departures| - 1]);
    }
  }

  /** Then each accepted message is in a queue, dispatched, or returned to a waiter. */
  lemma ConservationWithoutLoss(actions: seq<Action>)
    requires SetFilter(None) !in actions
    ensures var s := Run(INITIAL, actions);
            ArrivedBag(s.arrivals) ==
              multiset(s.background) + multiset(s.replies)
              + (DepartedBag(s.departures, Returned) + DepartedBag(s.departures, Dispatched))
  {
    Conservation(actions);
    LostOnlyAfterClearing(actions);
    NoneLostInBag(Run(INITIAL, actions).departures);
  }

  lemma RunCons(s: State, a: Action, rest: seq<Action>)
    ensures Run(s, [a] + rest) == Run(Step(s, a), rest)
  {
    assert ([a] + rest)[1..] == rest;
  }

  /** A loss: a reply is queued under a filter, the filter is cleared, and a waiter comes. */
  lemma LosingRun(f: Filter, m: Message)
    requires f(m)
    ensures var t := Run(INITIAL, [SetFilter(Some(f)), Arrive(m), SetFilter(None), WaitPop]);
            t.replies == [] && t.background == [] && t.departures == [Departure(m, true, Lost)]
  {
    var s1 := Step(INITIAL, SetFilter(Some(f)));
    var s2 := Step(s1, Arrive(m));
    var s3 := Step(s2, SetFilter(None));
    RunCons(INITIAL, SetFilter(Some(f)), [Arrive(m), SetFilter(None), WaitPop]);
    RunCons(s1, Arrive(m), [SetFilter(None), WaitPop]);
    RunCons(s2, SetFilter(None), [WaitPop]);
    RunCons(s3, WaitPop, []);
  }

  lemma StepWithoutConnector(s: State, a: Action)
    requires !s.attached && a != Attach
    ensures var t := Step(s, a);
            && !t.attached && s.background <= t.background
            && Departed(t.departures, false) == Departed(s.departures, false)
  {
    if a == WaitPop && s.replies != [] {
      DepartedSnoc(s.departures, Departure(s.replies[0], true, WaiterFate(s, s.replies[0])), false);
    }
  }

  /** While no connector is set, the background queue only grows. */
  lemma {:induction false} BackgroundWaitsForConnector(s: State, actions: seq<Action>)
    requires !s.attached && Attach !in actions
    ensures s.background <= Run(s, actions).background
    ensures Departed(Run(s, actions).departures, false) == Departed(s.departures, false)
    decreases |actions|
  {
    if actions != [] {
      StepWithoutConnector(s, actions[0]);
      BackgroundWaitsForConnector(Step(s, actions[0]), actions[1..]);
    }
  }

  /** From the moment a filter is installed until the next change, every message
      is routed by that filter, whatever the threads do in between. */
  lemma {:induction false} RoutedByInstalledFilter(s: State, f: Filter, actions: seq<Action>)
    requires s.filter == Some(f)
    requires forall a :: a in actions ==> !a.SetFilter?
    ensures var t := Run(s, actions);
            && |s.arrivals| <= |t.arrivals|
            && forall i :: |s.arrivals| <= i < |t.arrivals| ==> t.arrivals[i].toReplies == f(t.arrivals[i].message)
    decreases |actions|
  {
    if actions != [] {
      var t := Step(s, actions[0]);
      RoutedByInstalledFilter(t, f, actions[1..]);
      StepOnlyLogs(t, actions[1..]);
    }
  }

  /** A message handed over while the device is closing enters no queue. That
      includes the NOP which `close` sends to wake up `process_messages`. */
  lemma ClosingDropsNop(s: State, nop: Message)
    requires s.isOpen
    ensures var t := Run(s, [BeginClose, Arrive(nop), EndClose]);
            t == s.(isOpen := false, closing := false)
  {
    var closing := Step(s, BeginClose);
    assert [BeginClose, Arrive(nop), EndClose][1..] == [Arrive(nop), EndClose];
    assert Run(closing, [Arrive(nop), EndClose]) == Run(closing, [EndClose]) by {
      assert [Arrive(nop), EndClose][1..] == [EndClose];
    }
    assert Run(closing, [EndClose]) == Step(closing, EndClose);
  }

  /** Closing does something exactly to a device that is open and not closing already. */
  lemma ClosesIfOpen(s: State)
    ensures Step(s, BeginClose) == s <==> !s.isOpen || s.closing
    ensures !s.closing ==> Step(Step(s, Open), BeginClose).closing
  {
  }

  // ----- Waiting for a message -----

  datatype Outcome =
    | Reply(message: Message)
    | NoReply
    | NoFilterSet
    | DispatchRaised(message: Message)

  /** What the other threads may do while one waits: deliver messages, process the
      background queue, close the device. */
  type Background = a: Action | a.Arrive? || a.Process? || a.BeginClose? || a.EndClose? witness Process

  /** The loop of `wait_for_message`. Before each `get` the other threads take the steps of
      the next batch; the waiter gives up when the queue is empty and no batch is left. */
  function Wait(s: State, batches: seq<seq<Background>>): (Outcome, State)
    decreases |batches|, |s.replies|
  {
    var t := if batches == [] then s else Run(s, batches[0]);
    var rest := if batches == [] then [] else batches[1..];
    if t.replies == [] then
      if batches == [] then (NoReply, t) else Wait(t, rest)
    else
      var m := t.replies[0];
      match WaiterFate(t, m)
      case Lost => (NoFilterSet, TakeReply(t))
      case Returned => (Reply(m), TakeReply(t))
      case Dispatched =>
        if Refused(m) then (DispatchRaised(m), TakeReply(t)) else Wait(TakeReply(t), rest)
  }

  /** The messages that join the reply queue in the steps of a batch. */
  function Joining(f: Filter, isOpen: bool, closing: bool, actions: seq<Background>): seq<Message>
    decreases |actions|
  {
    if actions == [] then []
    else
      match actions[0]
      case Arrive(m) => (if !closing && f(m) then [m] else []) + Joining(f, isOpen, closing, actions[1..])
      case BeginClose => Joining(f, isOpen, isOpen || closing, actions[1..])
      case EndClose => Joining(f, false, false, actions[1..])
      case Process => Joining(f, isOpen, closing, actions[1..])
  }

  /** What the waiter leaves to others stays in order: the departures from the reply queue. */
  function FromReplies(departures: seq<Departure>): seq<Departure> {
    if departures == [] then []
    else
      var d := departures[|departures| - 1];
      FromReplies(departures[..|departures| - 1]) + if d.fromReplies then [d] else []
  }

  lemma FromRepliesSnoc(departures: seq<Departure>, d: Departure)
    ensures FromReplies(departures + [d]) == FromReplies(departures) + if d.fromReplies then [d] else []
  {
    assert (departures + [d])[..|departures|] == departures;
  }

  lemma {:induction false} FromRepliesCount(departures: seq<Departure>)
    ensures |FromReplies(departures)| == |Departed(departures, true)|
  {
    if departures != [] {
      FromRepliesCount(departures[..|departures| - 1]);
    }
  }

  /** The outcome, and what leaves the reply queue, when these are all the replies there
      are: every message before the first match is dispatched, in order and once; the match
      is returned; a refused message before it ends the wait. */
  function Verdict(f: Filter, replies: seq<Message>): (Outcome, seq<Departure>) {
    if replies == [] then (NoReply, [])
    else
      var m := replies[0];
      if f(m) then (Reply(m), [Departure(m, true, Returned)])
      else if Refused(m) then (DispatchRaised(m), [Departure(m, true, Dispatched)])
      else
        var (outcome, more) := Verdict(f, replies[1..]);
        (outcome, [Departure(m, true, Dispatched)] + more)
  }

  /** The index of the first message that `f` accepts, or the length. */
  function FirstMatch(f: Filter, q: seq<Message>): (i: nat)
    ensures i <= |q|
    ensures i < |q| ==> f(q[i])
    ensures forall j :: 0 <= j < i ==> !f(q[j])
  {
    if q == [] then 0 else if f(q[0]) then 0 else 1 + FirstMatch(f, q[1..])
  }

  function DispatchedAll(q: seq<Message>): (r: seq<Departure>)
    ensures |r| == |q|
  {
    seq(|q|, i requires 0 <= i < |q| => Departure(q[i], true, Dispatched))
  }

  lemma DispatchedCons(m: Message, q: seq<Message>, k: nat)
    requires k <= |q|
    ensures DispatchedAll(([m] + q)[..k + 1]) == [Departure(m, true, Dispatched)] + DispatchedAll(q[..k])
  {
    assert ([m] + q)[..k + 1] == [m] + q[..k];
  }

  /** The verdict by the first match and the first refused message. */
  function VerdictAt(f: Filter, replies: seq<Message>): (Outcome, seq<Departure>) {
    var i, r := FirstMatch(f, replies), FirstMatch(Refused, replies);
    if r < i then (DispatchRaised(replies[r]), DispatchedAll(replies[..r + 1]))
    else if i < |replies| then (Reply(replies[i]), DispatchedAll(replies[..i]) + [Departure(replies[i], true, Returned)])
    else (NoReply, DispatchedAll(replies))
  }

  lemma VerdictAtCons(f: Filter, m: Message, rest: seq<Message>)
    requires !f(m) && !Refused(m)
    ensures VerdictAt(f, [m] + rest) == (VerdictAt(f, rest).0, [Departure(m, true, Dispatched)] + VerdictAt(f, rest).1)
  {
    var i, r := FirstMatch(f, rest), FirstMatch(Refused, rest);
    assert ([m] + rest)[1..] == rest;
    assert FirstMatch(f, [m] + rest) == i + 1 && FirstMatch(Refused, [m] + rest) == r + 1;
    if r < i {
      DispatchedCons(m, rest, r + 1);
    } else if i < |rest| {
      DispatchedCons(m, rest, i);
      AppendAssociates([Departure(m, true, Dispatched)], DispatchedAll(rest[..i]), [Departure(rest[i], true, Returned)]);
    } else {
      DispatchedCons(m, rest, i);
      assert rest[..i] == rest && ([m] + rest)[..i + 1] == [m] + rest;
    }
  }

  lemma {:induction false} VerdictIs(f: Filter, replies: seq<Message>)
    ensures Verdict(f, replies) == VerdictAt(f, replies)
  {
    if replies != [] {
      var m, rest := replies[0], replies[1..];
      assert replies == [m] + rest;
      if f(m) {
        assert FirstMatch(f, replies) == 0;
        assert DispatchedAll(replies[..0]) + [Departure(m, true, Returned)] == [Departure(m, true, Returned)];
      } else if Refused(m) {
        assert FirstMatch(Refused, replies) == 0 && FirstMatch(f, replies) > 0;
        assert DispatchedAll(replies[..1]) == [Departure(m, true, Dispatched)];
      } else {
        VerdictIs(f, rest);
        VerdictAtCons(f, m, rest);
      }
    }
  }

  /** All the replies there will be: those queued and those that join in the batches. */
  function AllReplies(s: State, f: Filter, batches: seq<seq<Background>>): seq<Message> {
    s.replies + Joining(f, s.isOpen, s.closing, Concat(batches))
  }

  /** What the waiter will find is the same in both states. */
  ghost predicate SameReplies(f: Filter, s: State, before: seq<Background>, t: State, later: seq<Background>) {
    && t.filter == s.filter && FromReplies(t.departures) == FromReplies(s.departures)
    && t.replies + Joining(f, t.isOpen, t.closing, later) == s.replies + Joining(f, s.isOpen, s.closing, before)
  }

  lemma ArriveStep(s: State, f: Filter, m: Message, later: seq<Background>)
    requires s.filter == Some(f)
    ensures SameReplies(f, s, [Arrive(m)] + later, Receive(s, m), later)
  {
    assert ([Arrive(m)] + later)[1..] == later;
    if !s.closing && f(m) {
      AppendAssociates(s.replies, [m], Joining(f, s.isOpen, s.closing, later));
    }
  }

  lemma ProcessStep(s: State, f: Filter, later: seq<Background>)
    ensures SameReplies(f, s, [Process] + later, ProcessOne(s), later)
  {
    assert ([Process] + later)[1..] == later;
    if s.attached && s.background != [] {
      FromRepliesSnoc(s.departures, Departure(s.background[0], false, Dispatched));
    }
  }

  /** One step moves a reply from the future into the queue, and nothing else about them. */
  lemma BackgroundStep(s: State, f: Filter, a: Background, later: seq<Background>)
    requires s.filter == Some(f)
    ensures SameReplies(f, s, [a] + later, Step(s, a), later)
  {
    match a
    case Arrive(m) => ArriveStep(s, f, m, later);
    case Process => ProcessStep(s, f, later);
    case BeginClose => assert ([a] + later)[1..] == later;
    case EndClose => assert ([a] + later)[1..] == later;
  }

  lemma {:induction false} BatchKeepsReplies(s: State, f: Filter, batch: seq<Background>, later: seq<Background>)
    requires s.filter == Some(f)
    ensures SameReplies(f, s, batch + later, Run(s, batch), later)
    decreases |batch|
  {
    if batch == [] {
      assert batch + later == later;
    } else {
      var a := batch[0];
      assert batch + later == [a] + (batch[1..] + later);
      BackgroundStep(s, f, a, batch[1..] + later);
      BatchKeepsReplies(Step(s, a), f, batch[1..], later);
    }
  }

  /** Whatever the other threads do meanwhile, the outcome of a wait and what leaves the
      reply queue are the verdict on all the replies there are. */
  lemma {:induction false} WaitOutcome(s: State, f: Filter, batches: seq<seq<Background>>)
    requires s.filter == Some(f)
    ensures var (outcome, left) := Verdict(f, AllReplies(s, f, batches));
            && Wait(s, batches).0 == outcome
            && FromReplies(Wait(s, batches).1.departures) == FromReplies(s.departures) + left
    decreases |batches|, |s.replies|
  {
    var t := if batches == [] then s else Run(s, batches[0]);
    var rest := if batches == [] then [] else batches[1..];
    if batches != [] {
      BatchKeepsReplies(s, f, batches[0], Concat(rest));
    }
    assert AllReplies(t, f, rest) == AllReplies(s, f, batches);
    if t.replies == [] {
      if batches != [] {
        WaitOutcome(t, f, rest);
      }
    } else {
      TakeFirst(t, f, rest);
      var m := t.replies[0];
      if !f(m) && !Refused(m) {
        WaitOutcome(TakeReply(t), f, rest);
        AppendAssociates(FromReplies(s.departures), [Departure(m, true, Dispatched)],
                         Verdict(f, AllReplies(TakeReply(t), f, rest)).1);
      }
    }
  }

  lemma TakeFirst(s: State, f: Filter, batches: seq<seq<Background>>)
    requires s.filter == Some(f) && s.replies != []
    ensures AllReplies(s, f, batches) == [s.replies[0]] + AllReplies(TakeReply(s), f, batches)
    ensures FromReplies(TakeReply(s).departures)
            == FromReplies(s.departures) + [Departure(s.replies[0], true, WaiterFate(s, s.replies[0]))]
  {
    FromRepliesSnoc(s.departures, Departure(s.replies[0], true, WaiterFate(s, s.replies[0])));
    AppendAssociates([s.replies[0]], s.replies[1..], Joining(f, s.isOpen, s.closing, Concat(batches)));
    assert s.replies == [s.replies[0]] + s.replies[1..];
  }

  /** With no other thread at work, nothing else changes. */
  lemma {:induction false} WaitAlone(s: State, f: Filter)
    requires s.filter == Some(f)
    ensures var (outcome, left) := Verdict(f, s.replies);
            && |left| <= |s.replies|
            && Wait(s, []) == (outcome, s.(replies := s.replies[|left|..], departures := s.departures + left))
    decreases |s.replies|
  {
    if s.replies == [] {
      assert s.departures + [] == s.departures;
    } else {
      var m, t := s.replies[0], TakeReply(s);
      if !f(m) && !Refused(m) {
        WaitAlone(t, f);
        var left := Verdict(f, s.replies[1..]).1;
        AppendAssociates(s.departures, [Departure(m, true, Dispatched)], left);
        assert s.replies[1..][|left|..] == s.replies[|left| + 1..];
      }
    }
  }

  /** With a match in the queue, the waiter returns the earliest one, and has dispatched
      every message before it once, in order. */
  lemma WaitReturnsQueued(s: State, f: Filter, batches: seq<seq<Background>>)
    requires s.filter == Some(f)
    requires var i := FirstMatch(f, s.replies); i < |s.replies| && i <= FirstMatch(Refused, s.replies)
    ensures var i := FirstMatch(f, s.replies);
            && Wait(s, batches).0 == Reply(s.replies[i])
            && FromReplies(Wait(s, batches).1.departures)
               == FromReplies(s.departures) + (DispatchedAll(s.replies[..i]) + [Departure(s.replies[i], true, Returned)])
  {
    WaitOutcome(s, f, batches);
    VerdictIs(f, s.replies);
    VerdictOnPrefix(f, s.replies, Joining(f, s.isOpen, s.closing, Concat(batches)));
  }

  /** If a refused message comes before any match, dispatching it ends the wait. */
  lemma WaitRaises(s: State, f: Filter, batches: seq<seq<Background>>)
    requires s.filter == Some(f)
    requires FirstMatch(Refused, s.replies) < FirstMatch(f, s.replies)
    ensures var r := FirstMatch(Refused, s.replies);
            && Wait(s, batches).0 == DispatchRaised(s.replies[r])
            && FromReplies(Wait(s, batches).1.departures) == FromReplies(s.departures) + DispatchedAll(s.replies[..r + 1])
  {
    WaitOutcome(s, f, batches);
    VerdictIs(f, s.replies);
    VerdictOnPrefix(f, s.replies, Joining(f, s.isOpen, s.closing, Concat(batches)));
  }

  /** A verdict that is reached within `replies` does not change with what comes later. */
  lemma {:induction false} VerdictOnPrefix(f: Filter, replies: seq<Message>, later: seq<Message>)
    ensures Verdict(f, replies).0 != NoReply ==> Verdict(f, replies + later) == Verdict(f, replies)
    ensures Verdict(f, replies).0 == NoReply ==>
              Verdict(f, replies + later) == (Verdict(f, later).0, DispatchedAll(replies) + Verdict(f, later).1)
  {
    if replies == [] {
      assert replies + later == later && DispatchedAll(replies) + Verdict(f, later).1 == Verdict(f, later).1;
    } else {
      var m, rest := replies[0], replies[1..];
      assert (replies + later)[0] == m && (replies + later)[1..] == rest + later;
      VerdictOnPrefix(f, rest, later);
      if !f(m) && !Refused(m) && Verdict(f, rest).0 == NoReply {
        assert DispatchedAll(replies) == [Departure(m, true, Dispatched)] + DispatchedAll(rest);
        AppendAssociates([Departure(m, true, Dispatched)], DispatchedAll(rest), Verdict(f, later).1);
      }
    }
  }

  /** Without a match in the queue, the whole queue is dispatched first; then the first
      match that comes in is returned, and the waiter gives up exactly when none does. */
  lemma WaitReturnsFirstArrival(s: State, f: Filter, batches: seq<seq<Background>>)
    requires s.filter == Some(f)
    requires FirstMatch(f, s.replies) == |s.replies| == FirstMatch(Refused, s.replies)
    ensures var incoming := Joining(f, s.isOpen, s.closing, Concat(batches));
            && Wait(s, batches).0 == (if incoming == [] then NoReply else Reply(incoming[0]))
            && FromReplies(Wait(s, batches).1.departures)
               == FromReplies(s.departures)
                  + (DispatchedAll(s.replies) + if incoming == [] then [] else [Departure(incoming[0], true, Returned)])
  {
    var incoming := Joining(f, s.isOpen, s.closing, Concat(batches));
    WaitOutcome(s, f, batches);
    VerdictIs(f, s.replies);
    VerdictOnPrefix(f, s.replies, incoming);
    JoiningMatches(f, s.isOpen, s.closing, Concat(batches));
  }

  lemma {:induction false} JoiningMatches(f: Filter, isOpen: bool, closing: bool, actions: seq<Background>)
    ensures forall m :: m in Joining(f, isOpen, closing, actions) ==> f(m)
    decreases |actions|
  {
    if actions != [] {
      match actions[0]
      case Arrive(_) => JoiningMatches(f, isOpen, closing, actions[1..]);
      case BeginClose => JoiningMatches(f, isOpen, isOpen || closing, actions[1..]);
      case EndClose => JoiningMatches(f, false, false, actions[1..]);
      case Process => JoiningMatches(f, isOpen, closing, actions[1..]);
    }
  }

  // ----- Commands -----

  /** `send_command`: install the filter, write, wait. */
  function Command(s: State, f: Filter, batches: seq<seq<Background>>): (Outcome, State) {
    Wait(Step(s, SetFilter(Some(f))), batches)
  }

  /** The reply given back is not among the messages that had already arrived when
      the command was issued: reply number `n` left, and fewer than `n` had come. */
  predicate FreshReply(s: State, t: State) {
    |Departed(t.departures, true)| > |Arrived(s.arrivals, true)|
  }

  /** More replies have left than were queued exactly if none of those queued matched. */
  lemma VerdictGoesBeyond(f: Filter, queued: seq<Message>, incoming: seq<Message>)
    requires Verdict(f, queued + incoming).0.Reply?
    ensures |Verdict(f, queued + incoming).1| > |queued| <==> forall m :: m in queued ==> !f(m)
  {
    var i := FirstMatch(f, queued);
    VerdictIs(f, queued);
    VerdictOnPrefix(f, queued, incoming);
    if i < |queued| {
      assert queued[i] in queued;
    } else {
      ReplyLeaves(f, incoming);
    }
  }

  lemma {:induction false} ReplyLeaves(f: Filter, replies: seq<Message>)
    ensures Verdict(f, replies).0.Reply? ==> |Verdict(f, replies).1| >= 1
  {
  }

  /** A command is answered by a message that arrived after it was issued if and
      only if no earlier message in the reply queue passes its filter. The filter
      of an earlier command stays installed, so a late answer can be such a message. */
  lemma CommandAnswerIsFresh(s: State, f: Filter, batches: seq<seq<Background>>)
    requires InOrder(s)
    ensures var (outcome, t) := Command(s, f, batches);
            outcome.Reply? ==>
              (FreshReply(s, t) <==> forall m :: m in s.replies ==> !f(m))
  {
    var t := Command(s, f, batches).1;
    WaitOutcome(Step(s, SetFilter(Some(f))), f, batches);
    FromRepliesCount(s.departures);
    FromRepliesCount(t.departures);
    if Command(s, f, batches).0.Reply? {
      VerdictGoesBeyond(f, s.replies, Joining(f, s.isOpen, s.closing, Concat(batches)));
    }
  }

  /** What answers a command passes its filter. Under the default filter that is a command
      result, never another generic message nor one of another category. */
  lemma AnswerPasses(s: State, f: Filter, batches: seq<seq<Background>>)
    ensures var outcome := Command(s, f, batches).0;
            outcome.Reply? ==>
              && f(outcome.message)
              && (f == IsCommandResult ==> outcome.message.category in {Generic(CommandResult), Generic(UnsupportedDomain)})
  {
    var s1 := Step(s, SetFilter(Some(f)));
    WaitOutcome(s1, f, batches);
    VerdictIs(f, AllReplies(s1, f, batches));
  }

  /** Both kinds of command result do answer one. */
  lemma DefaultFilterAccepts(m: Message)
    ensures IsCommandResult(m) <==> m.category in {Generic(CommandResult), Generic(UnsupportedDomain)}
    ensures Refused(m) <==> m.category == Generic(UnsupportedDomain)
  {
  }

  /** A late answer: two messages passed the filter of the command before, which returned
      the first. The next command is answered with the second, even with no arrival. */
  lemma StaleAnswer(f: Filter, first: Message, second: Message, batches: seq<seq<Background>>)
    requires f(first) && f(second)
    ensures var s := Run(INITIAL, [Open, SetFilter(Some(f)), Arrive(first), Arrive(second), WaitPop]);
            var (outcome, t) := Command(s, f, batches);
            outcome == Reply(second) && !FreshReply(s, t) && (batches == [] ==> t.arrivals == s.arrivals)
  {
    var s1 := Step(INITIAL, Open);
    var s2 := Step(s1, SetFilter(Some(f)));
    var s3 := Step(s2, Arrive(first));
    var s4 := Step(s3, Arrive(second));
    RunCons(INITIAL, Open, [SetFilter(Some(f)), Arrive(first), Arrive(second), WaitPop]);
    RunCons(s1, SetFilter(Some(f)), [Arrive(first), Arrive(second), WaitPop]);
    RunCons(s2, Arrive(first), [Arrive(second), WaitPop]);
    RunCons(s3, Arrive(second), [WaitPop]);
    RunCons(s4, WaitPop, []);
    var s := Step(s4, WaitPop);
    assert s.replies == [second];
    RunKeepsOrder(INITIAL, [Open, SetFilter(Some(f)), Arrive(first), Arrive(second), WaitPop]);
    CommandAnswerIsFresh(s, f, batches);
    WaitReturnsQueued(Step(s, SetFilter(Some(f))), f, batches);
  }

  // ----- Waiting is a run -----

  lemma {:induction false} RunAppend(s: State, a: seq<Action>, b: seq<Action>)
    ensures Run(s, a + b) == Run(Run(s, a), b)
    decreases |a|
  {
    if a == [] {
      assert a + b == b;
    } else {
      assert (a + b)[1..] == a[1..] + b;
      RunAppend(Step(s, a[0]), a[1..], b);
    }
  }

  /** The state a waiter leaves is reached by the steps of the batches and takings alone, so
      all that holds of runs holds of waiting. */
  lemma {:induction false} WaitIsRun(s: State, batches: seq<seq<Background>>) returns (actions: seq<Action>)
    ensures Run(s, actions) == Wait(s, batches).1
    ensures forall a :: a in actions ==> a.WaitPop? || exists b :: b in batches && a in b
    decreases |batches|, |s.replies|
  {
    var t := if batches == [] then s else Run(s, batches[0]);
    var first: seq<Action> := if batches == [] then [] else batches[0];
    var rest := if batches == [] then [] else batches[1..];
    var later: seq<Action> := [];
    if t.replies == [] {
      if batches != [] {
        later := WaitIsRun(t, rest);
      }
    } else {
      if WaiterFate(t, t.replies[0]) == Dispatched && !Refused(t.replies[0]) {
        later := WaitIsRun(TakeReply(t), rest);
      }
      RunCons(t, WaitPop, later);
      later := [WaitPop] + later;
    }
    RunAppend(s, first, later);
    actions := first + later;
  }

  function Arrivals(batch: seq<Message>): (r: seq<Action>)
    ensures forall a :: a in r ==> a.Arrive?
  {
    if batch == [] then [] else [Arrive(batch[0])] + Arrivals(batch[1..])
  }

  /** The messages of one `on_data_received` call. */
  function Deliver(s: State, batch: seq<Message>): State
    decreases |batch|
  {
    if batch == [] then s else Deliver(Receive(s, batch[0]), batch[1..])
  }

  lemma {:induction false} DeliverIsRun(s: State, batch: seq<Message>)
    ensures Deliver(s, batch) == Run(s, Arrivals(batch))
    decreases |batch|
  {
    if batch != [] {
      DeliverIsRun(Receive(s, batch[0]), batch[1..]);
      RunCons(s, Arrive(batch[0]), Arrivals(batch[1..]));
    }
  }

  lemma DeliverKeepsOrder(s: State, batch: seq<Message>)
    requires InOrder(s)
    ensures InOrder(Deliver(s, batch))
  {
    DeliverIsRun(s, batch);
    RunKeepsOrder(s, Arrivals(batch));
  }

  lemma WaitKeepsOrder(s: State, batches: seq<seq<Background>>)
    requires InOrder(s)
    ensures InOrder(Wait(s, batches).1)
  {
    var actions := WaitIsRun(s, batches);
    RunKeepsOrder(s, actions);
  }

  // ----- What the callbacks get -----

  /** The messages dispatched, in order. */
  function DispatchedMessages(departures: seq<Departure>): seq<Message> {
    if departures == [] then []
    else
      var n := |departures| - 1;
      DispatchedMessages(departures[..n]) +
      if departures[n].fate == Dispatched then [departures[n].message] else []
  }

  lemma DispatchedSnoc(departures: seq<Departure>, d: Departure)
    ensures DispatchedMessages(departures + [d]) ==
            if d.fate == Dispatched then DispatchedMessages(departures) + [d.message]
            else DispatchedMessages(departures)
  {
    assert (departures + [d])[..|departures|] == departures;
  }

  function ArrivalMessages(arrivals: seq<Arrival>): seq<Message> {
    if arrivals == [] then []
    else ArrivalMessages(arrivals[..|arrivals| - 1]) + [arrivals[|arrivals| - 1].message]
  }

  /** What the reader thread passes to `on_message_received` in a run. */
  function Incoming(actions: seq<Action>): seq<Message> {
    if actions == [] then []
    else (if actions[0].Arrive? then [actions[0].message] else []) + Incoming(actions[1..])
  }

  lemma AcceptStep(s: State, a: Action)
    requires !s.closing && a != BeginClose
    ensures !Step(s, a).closing
    ensures ArrivalMessages(Step(s, a).arrivals) == ArrivalMessages(s.arrivals) + if a.Arrive? then [a.message] else []
  {
    if a.Arrive? {
      assert Step(s, a).arrivals[..|s.arrivals|] == s.arrivals;
    } else {
      assert Step(s, a).arrivals == s.arrivals;
    }
  }

  /** While the device is not closing, everything that comes in is accepted. */
  lemma {:induction false} AllAccepted(s: State, actions: seq<Action>)
    requires !s.closing && BeginClose !in actions
    ensures ArrivalMessages(Run(s, actions).arrivals) == ArrivalMessages(s.arrivals) + Incoming(actions)
    decreases |actions|
  {
    if actions != [] {
      var a := actions[0];
      AcceptStep(s, a);
      AllAccepted(Step(s, a), actions[1..]);
      AppendAssociates(ArrivalMessages(s.arrivals), if a.Arrive? then [a.message] else [], Incoming(actions[1..]));
    }
  }

  /** From the start, and with each queue in order. */
  lemma AllAcceptedFromStart(actions: seq<Action>)
    requires BeginClose !in actions
    ensures ArrivalMessages(Run(INITIAL, actions).arrivals) == Incoming(actions) && InOrder(Run(INITIAL, actions))
  {
    AllAccepted(INITIAL, actions);
    RunKeepsOrder(INITIAL, actions);
    assert ArrivalMessages([]) + Incoming(actions) == Incoming(actions);
  }

  // ----- The background queue is worked off -----

  function Processes(n: nat): (r: seq<Action>)
    ensures |r| == n
  {
    if n == 0 then [] else [Process] + Processes(n - 1)
  }

  lemma {:induction false} ProcessAll(s: State)
    requires s.attached
    ensures var t := Run(s, Processes(|s.background|));
            && t.background == [] && t.replies == s.replies && t.arrivals == s.arrivals
            && DispatchedMessages(t.departures) == DispatchedMessages(s.departures) + s.background
    decreases |s.background|
  {
    if s.background == [] {
      assert DispatchedMessages(s.departures) + [] == DispatchedMessages(s.departures);
    } else {
      var t := ProcessOne(s);
      ProcessAll(t);
      RunCons(s, Process, Processes(|s.background| - 1));
      DispatchedSnoc(s.departures, Departure(s.background[0], false, Dispatched));
      AppendAssociates(DispatchedMessages(s.departures), [s.background[0]], s.background[1..]);
      assert s.background == [s.background[0]] + s.background[1..];
    }
  }

  /** Once a connector is set, as many turns of the processing thread as there are messages in
      the background queue dispatch them all, in order, and leave the reply queue alone. */
  lemma ProcessDrains(s: State)
    ensures var t := Run(s, [Attach] + Processes(|s.background|));
            && t.background == [] && t.replies == s.replies && t.arrivals == s.arrivals
            && DispatchedMessages(t.departures) == DispatchedMessages(s.departures) + s.background
  {
    RunCons(s, Attach, Processes(|s.background|));
    ProcessAll(Step(s, Attach));
  }
}
