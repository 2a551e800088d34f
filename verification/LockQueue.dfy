/** The parking queue of a device connector (whad/device/connector.py). Nothing here is
    atomic but single reads, writes and queue operations: `lock` sets the flag and then
    clears the queue; `unlock` pops packets one at a time, sees the queue empty, and then
    clears the flag; a packet is taken in by reading the flag and then parking it or handing
    it over. Any of these steps may come in between any others. */
module LockQueue {
  import opened ByteStrings

  datatype Unlocking = Idle | Draining | SawEmpty

  /** A packet being taken in, and what the flag said. */
  datatype Taking<T> = Taking(pdu: T, park: bool)

  /** The flag, the queue, where `unlock` stands, how many calls of `lock` have set the flag
      and not yet cleared the queue, and the packet being taken in; then the packets that
      came in and those handed over, in order. */
  datatype State<T> = State(
    locked: bool,
    queue: seq<T>,
    unlocking: Unlocking,
    locking: nat,
    taking: Option<Taking<T>>,
    arrivals: seq<T>,
    handed: seq<T>)

  datatype Action<T> =
    | Arrive(pdu: T)
    | Settle
    | LockBegin
    | LockEnd
    | UnlockBegin
    | UnlockPop
    | UnlockEnd

  function Fresh<T>(): State<T> {
    State(false, [], Idle, 0, None, [], [])
  }

  /** A packet message taken in by `on_domain_msg` with nothing in between; see
      `ReceiveIsRun`. */
  function Receive<T>(s: State<T>, pdu: T): State<T> {
    if s.locked then s.(queue := s.queue + [pdu], arrivals := s.arrivals + [pdu])
    else s.(handed := s.handed + [pdu], arrivals := s.arrivals + [pdu])
  }

  /** The second half: park the packet or hand it over, as the flag said before. */
  function SettleOne<T>(s: State<T>): State<T> {
    match s.taking
    case None => s
    case Some(t) =>
      if t.park then s.(taking := None, queue := s.queue + [t.pdu])
      else s.(taking := None, handed := s.handed + [t.pdu])
  }

  /** One non-blocking `get` of the drain loop. */
  function Pop<T>(s: State<T>): State<T> {
    if s.queue == [] then s.(unlocking := SawEmpty)
    else s.(queue := s.queue[1..], handed := s.handed + [s.queue[0]])
  }

  function Step<T>(s: State<T>, a: Action<T>): State<T> {
    match a
    case Arrive(pdu) =>
      if s.taking.Some? then s
      else s.(taking := Some(Taking(pdu, s.locked)), arrivals := s.arrivals + [pdu])
    case Settle => SettleOne(s)
    case LockBegin => s.(locked := true, locking := s.locking + 1)
    case LockEnd => if s.locking > 0 then s.(queue := [], locking := s.locking - 1) else s
    case UnlockBegin => if s.unlocking == Idle then s.(unlocking := Draining) else s
    case UnlockPop => if s.unlocking == Draining then Pop(s) else s
    case UnlockEnd => if s.unlocking == SawEmpty then s.(locked := false, unlocking := Idle) else s
  }

  function Run<T>(s: State<T>, actions: seq<Action<T>>): State<T>
    decreases |actions|
  {
    if actions == [] then s else Run(Step(s, actions[0]), actions[1..])
  }

  function InFlight<T>(s: State<T>): seq<T> {
    if s.taking.Some? then [s.taking.value.pdu] else []
  }

  /** What was handed over, then what is parked, then what is being taken in, is what came
      in, in order. */
  ghost predicate Fifo<T>(s: State<T>) {
    s.handed + s.queue + InFlight(s) == s.arrivals
  }

  /** The two guards: no packet is handed over past a backlog, and `lock` finds nothing to
      clear. */
  ghost predicate Safe<T>(s: State<T>, a: Action<T>) {
    && (a.Settle? && s.taking.Some? && !s.taking.value.park ==> s.queue == [])
    && (a.LockEnd? && s.locking > 0 ==> s.queue == [])
  }

  ghost predicate AllSafe<T>(s: State<T>, actions: seq<Action<T>>)
    decreases |actions|
  {
    actions == [] || (Safe(s, actions[0]) && AllSafe(Step(s, actions[0]), actions[1..]))
  }

  ghost predicate AlwaysFifo<T>(s: State<T>, actions: seq<Action<T>>)
    decreases |actions|
  {
    Fifo(s) && (actions == [] || AlwaysFifo(Step(s, actions[0]), actions[1..]))
  }

  /** Packets are told apart, as distinct objects are. */
  ghost predicate Distinct<T>(q: seq<T>) {
    forall i, j :: 0 <= i < j < |q| ==> q[i] != q[j]
  }

  ghost predicate NewArrival<T>(s: State<T>, a: Action<T>) {
    a.Arrive? ==> a.pdu !in s.arrivals
  }

  ghost predicate DistinctArrivals<T>(s: State<T>, actions: seq<Action<T>>)
    decreases |actions|
  {
    actions == [] || (NewArrival(s, actions[0]) && DistinctArrivals(Step(s, actions[0]), actions[1..]))
  }

  lemma SafeStepKeepsFifo<T>(s: State<T>, a: Action<T>)
    requires Fifo(s) && Safe(s, a)
    ensures Fifo(Step(s, a))
  {
    match a
    case Arrive(pdu) =>
      assert s.taking.None? ==> s.handed + s.queue + [pdu] == s.handed + s.queue + [] + [pdu];
    case Settle =>
      if s.taking.Some? {
        var p := [s.taking.value.pdu];
        AppendAssociates(s.handed, s.queue, p);
        assert s.handed + (s.queue + p) + [] == s.handed + s.queue + p;
        assert s.queue == [] ==> s.handed + p + s.queue + [] == s.handed + s.queue + p;
      }
    case UnlockPop =>
      if s.queue != [] {
        assert s.handed + [s.queue[0]] + s.queue[1..] == s.handed + s.queue;
      }
    case _ =>
  }

  lemma UnsafeStepBreaksFifo<T>(s: State<T>, a: Action<T>)
    requires Fifo(s) && !Safe(s, a) && Distinct(s.arrivals)
    ensures !Fifo(Step(s, a))
  {
    var t, k := Step(s, a), |s.handed|;
    match a
    case Settle =>
      var pdu := s.taking.value.pdu;
      assert s.arrivals[k] == s.queue[0] && s.arrivals[k + |s.queue|] == pdu;
      assert (t.handed + t.queue + InFlight(t))[k] == pdu && t.arrivals[k] == s.arrivals[k];
    case LockEnd =>
      assert |t.handed + t.queue + InFlight(t)| < |t.arrivals|;
    case _ =>
  }

  lemma StepKeepsDistinct<T>(s: State<T>, a: Action<T>)
    requires Distinct(s.arrivals) && NewArrival(s, a)
    ensures Distinct(Step(s, a).arrivals)
  {
  }

  /** Order is kept at every moment of a run exactly when every step is safe. */
  lemma {:induction false} FifoIffSafe<T>(s: State<T>, actions: seq<Action<T>>)
    requires Fifo(s) && Distinct(s.arrivals) && DistinctArrivals(s, actions)
    ensures AlwaysFifo(s, actions) <==> AllSafe(s, actions)
    decreases |actions|
  {
    if actions != [] {
      var t := Step(s, actions[0]);
      StepKeepsDistinct(s, actions[0]);
      if Safe(s, actions[0]) {
        SafeStepKeepsFifo(s, actions[0]);
        FifoIffSafe(t, actions[1..]);
      } else {
        UnsafeStepBreaksFifo(s, actions[0]);
      }
    }
  }

  lemma RunCons<T>(s: State<T>, a: Action<T>, rest: seq<Action<T>>)
    ensures Run(s, [a] + rest) == Run(Step(s, a), rest)
  {
    assert ([a] + rest)[1..] == rest;
  }

  /** Reading the flag and acting on it with nothing in between. */
  lemma ReceiveIsRun<T>(s: State<T>, pdu: T)
    requires s.taking.None?
    ensures Run(s, [Arrive(pdu), Settle]) == Receive(s, pdu)
  {
    var t := Step(s, Arrive(pdu));
    assert [Arrive(pdu), Settle] == [Arrive(pdu)] + [Settle];
    RunCons(s, Arrive(pdu), [Settle]);
    RunOne(t, Settle);
  }

  /** The window of `unlock`: a packet that comes in after the queue was seen empty
      and before the flag is cleared stays behind, and the next one overtakes it. */
  lemma OvertakenInTheWindow<T>(s: State<T>, late: T, next: T)
    requires Fifo(s) && s.locked && s.unlocking == Draining && s.queue == [] && s.taking.None? && late != next
    ensures var t := Run(s, [UnlockPop] + ([Arrive(late), Settle] + ([UnlockEnd] + [Arrive(next), Settle])));
            && !t.locked && t.queue == [late] && t.handed == s.handed + [next]
            && !Fifo(t)
  {
    var s1 := Step(s, UnlockPop);
    var s2 := Receive(s1, late);
    var s3 := Step(s2, UnlockEnd);
    var s4 := Receive(s3, next);
    RunCons(s, UnlockPop, [Arrive(late), Settle] + ([UnlockEnd] + [Arrive(next), Settle]));
    RunAppend(s1, [Arrive(late), Settle], [UnlockEnd] + [Arrive(next), Settle]);
    ReceiveIsRun(s1, late);
    RunCons(s2, UnlockEnd, [Arrive(next), Settle]);
    ReceiveIsRun(s3, next);
    assert (s4.handed + s4.queue + [])[|s.handed|] == next && s4.arrivals[|s.handed|] == late;
  }

  /** The same happens when the flag is read before, and the packet parked after, `unlock`
      has cleared it. */
  lemma ParkedTooLate<T>(s: State<T>, late: T, next: T)
    requires Fifo(s) && s.locked && s.unlocking == SawEmpty && s.queue == [] && s.taking.None? && late != next
    ensures var t := Run(s, [Arrive(late)] + ([UnlockEnd] + ([Settle] + [Arrive(next), Settle])));
            && !t.locked && t.queue == [late] && t.handed == s.handed + [next]
            && !Fifo(t)
  {
    var s1 := Step(s, Arrive(late));
    var s2 := Step(s1, UnlockEnd);
    var s3 := Step(s2, Settle);
    var s4 := Receive(s3, next);
    RunCons(s, Arrive(late), [UnlockEnd] + ([Settle] + [Arrive(next), Settle]));
    RunCons(s1, UnlockEnd, [Settle] + [Arrive(next), Settle]);
    RunCons(s2, Settle, [Arrive(next), Settle]);
    ReceiveIsRun(s3, next);
    assert (s4.handed + s4.queue + [])[|s.handed|] == next && s4.arrivals[|s.handed|] == late;
  }

  /** The window of `lock`: a packet that comes in between setting the flag and clearing the
      queue is thrown away. */
  lemma LostInsideLock<T>(pdu: T)
    ensures var t := Run(Fresh(), [LockBegin] + ([Arrive(pdu), Settle] + [LockEnd]));
            t.arrivals == [pdu] && t.handed == [] && t.queue == [] && t.taking.None? && !Fifo(t)
  {
    var s1 := Step(Fresh<T>(), LockBegin);
    var s2 := Receive(s1, pdu);
    RunCons(Fresh<T>(), LockBegin, [Arrive(pdu), Settle] + [LockEnd]);
    RunAppend(s1, [Arrive(pdu), Settle], [LockEnd]);
    ReceiveIsRun(s1, pdu);
    RunOne(s2, LockEnd);
  }

  /** While locked and not unlocking, nothing is handed over, but for a packet whose flag
      was read before. */
  lemma {:induction false} LockedHandsNothing<T>(s: State<T>, actions: seq<Action<T>>)
    requires s.locked && s.unlocking == Idle && (s.taking.Some? ==> s.taking.value.park)
    requires UnlockBegin !in actions
    ensures var t := Run(s, actions); t.handed == s.handed && t.locked && t.unlocking == Idle
    decreases |actions|
  {
    if actions != [] {
      LockedHandsNothing(Step(s, actions[0]), actions[1..]);
    }
  }

  // ----- What a caller can see to -----

  /** Nothing is parked inside `lock`, or after `unlock` has seen the queue empty; `unlock`
      does not clear the flag while a packet is about to be parked; and `lock` meets no
      backlog. */
  ghost predicate Quiet<T>(s: State<T>, a: Action<T>) {
    var parking := s.taking.Some? && s.taking.value.park;
    && (a.Settle? && parking ==> s.locking == 0 && s.unlocking != SawEmpty)
    && (a.UnlockEnd? && s.unlocking == SawEmpty ==> !parking)
    && (a.LockBegin? ==> s.queue == [])
  }

  ghost predicate AllQuiet<T>(s: State<T>, actions: seq<Action<T>>)
    decreases |actions|
  {
    actions == [] || (Quiet(s, actions[0]) && AllQuiet(Step(s, actions[0]), actions[1..]))
  }

  /** Nothing is parked in an unlocked connector, nor in one about to be unlocked or
      cleared; and a packet about to be handed over has nothing before it. */
  ghost predicate NoBacklog<T>(s: State<T>) {
    && (!s.locked || s.unlocking == SawEmpty || s.locking > 0 ==> s.queue == [])
    && (s.taking.Some? ==> if s.taking.value.park then s.locked else s.queue == [])
  }

  lemma {:induction false} QuietIsSafe<T>(s: State<T>, actions: seq<Action<T>>)
    requires NoBacklog(s) && AllQuiet(s, actions)
    ensures AllSafe(s, actions)
    decreases |actions|
  {
    if actions != [] {
      QuietIsSafe(Step(s, actions[0]), actions[1..]);
    }
  }

  /** So from a fresh connector on, order is kept at every moment of such a run. */
  lemma QuietRunsKeepFifo<T>(actions: seq<Action<T>>)
    requires AllQuiet(Fresh<T>(), actions) && DistinctArrivals(Fresh<T>(), actions)
    ensures AlwaysFifo(Fresh<T>(), actions)
  {
    QuietIsSafe(Fresh<T>(), actions);
    FifoIffSafe(Fresh<T>(), actions);
  }

  // ----- Whole calls of `lock` and `unlock` -----

  /** `lock`; `between` comes in after the flag is set and before the queue is cleared. */
  function Locked<T>(s: State<T>, between: seq<T>): State<T> {
    Step(ReceiveAll(Step(s, LockBegin), between), LockEnd)
  }

  /** A call of `lock` is a run; what was parked and what comes in between is lost, so it
      keeps the order exactly if there is neither. */
  lemma LockIsRun<T>(s: State<T>, between: seq<T>)
    requires s.taking.None?
    ensures Run(s, [LockBegin] + (Arrivals(between) + [LockEnd])) == Locked(s, between)
    ensures Locked(s, between) == s.(locked := true, queue := [], arrivals := s.arrivals + between)
    ensures Fifo(s) ==> (Fifo(Locked(s, between)) <==> s.queue == [] && between == [])
  {
    var t := Step(s, LockBegin);
    var u := ReceiveAll(t, between);
    ReceiveAllIs(t, between);
    ReceiveAllIsRun(t, between);
    RunCons(s, LockBegin, Arrivals(between) + [LockEnd]);
    RunAppend(t, Arrivals(between), [LockEnd]);
    RunOne(u, LockEnd);
    var after := Locked(s, between);
    assert |after.handed + after.queue + InFlight(after)| == |s.handed|;
    if Fifo(s) {
      assert |s.arrivals| == |s.handed| + |s.queue|;
      if s.queue == [] && between == [] {
        assert after.handed + [] + [] == s.handed + s.queue + [];
      }
    }
  }

  function ReceiveAll<T>(s: State<T>, pdus: seq<T>): State<T>
    decreases |pdus|
  {
    if pdus == [] then s else ReceiveAll(Receive(s, pdus[0]), pdus[1..])
  }

  /** The drain loop: before each `get`, the next batch of packets comes in. */
  function Drained<T>(s: State<T>, batches: seq<seq<T>>): State<T>
    decreases |batches|, |s.queue|
  {
    if batches == [] then
      if s.queue == [] then Pop(s) else Drained(Pop(s), [])
    else
      var t := ReceiveAll(s, batches[0]);
      if t.queue == [] then Pop(t) else Drained(Pop(t), batches[1..])
  }

  lemma DrainedUnfolds<T>(s: State<T>, batches: seq<seq<T>>)
    ensures var t := if batches == [] then s else ReceiveAll(s, batches[0]);
            Drained(s, batches) ==
              if t.queue == [] then Pop(t) else Drained(Pop(t), if batches == [] then [] else batches[1..])
  {
  }

  /** `unlock`; `late` comes in between the last `get` and clearing the flag. */
  function Unlocked<T>(s: State<T>, batches: seq<seq<T>>, late: seq<T>): State<T> {
    Step(ReceiveAll(Drained(Step(s, UnlockBegin), batches), late), UnlockEnd)
  }

  lemma {:induction false} RunAppend<T>(s: State<T>, a: seq<Action<T>>, b: seq<Action<T>>)
    ensures Run(s, a + b) == Run(Run(s, a), b)
    decreases |a|
  {
    if a == [] {
      assert a + b == b;
    } else {
      assert (a + b)[1..] == a[1..] + b;
      RunAppend(Step(s, a[0]), a[1..], b);
    }
  }

  lemma RunOne<T>(s: State<T>, a: Action<T>)
    ensures Run(s, [a]) == Step(s, a)
  {
    assert [a][1..] == [];
  }

  function Arrivals<T>(pdus: seq<T>): (r: seq<Action<T>>) {
    if pdus == [] then [] else [Arrive(pdus[0]), Settle] + Arrivals(pdus[1..])
  }

  lemma {:induction false} ReceiveAllIsRun<T>(s: State<T>, pdus: seq<T>)
    requires s.taking.None?
    ensures ReceiveAll(s, pdus) == Run(s, Arrivals(pdus))
    decreases |pdus|
  {
    if pdus != [] {
      ReceiveIsRun(s, pdus[0]);
      RunAppend(s, [Arrive(pdus[0]), Settle], Arrivals(pdus[1..]));
      ReceiveAllIsRun(Receive(s, pdus[0]), pdus[1..]);
    }
  }

  lemma {:induction false} ReceiveAllIs<T>(s: State<T>, pdus: seq<T>)
    ensures ReceiveAll(s, pdus) ==
            if s.locked then s.(queue := s.queue + pdus, arrivals := s.arrivals + pdus)
            else s.(handed := s.handed + pdus, arrivals := s.arrivals + pdus)
    decreases |pdus|
  {
    if pdus == [] {
      assert s.queue + [] == s.queue && s.arrivals + [] == s.arrivals && s.handed + [] == s.handed;
    } else {
      ReceiveAllIs(Receive(s, pdus[0]), pdus[1..]);
      var first, rest := [pdus[0]], pdus[1..];
      assert pdus == first + rest;
      AppendAssociates(s.queue, first, rest);
      AppendAssociates(s.arrivals, first, rest);
      AppendAssociates(s.handed, first, rest);
    }
  }

  lemma {:induction false} DrainedIsRun<T>(s: State<T>, batches: seq<seq<T>>) returns (actions: seq<Action<T>>)
    requires s.unlocking == Draining && s.taking.None?
    ensures Run(s, actions) == Drained(s, batches)
    ensures Drained(s, batches).unlocking == SawEmpty && Drained(s, batches).locked == s.locked
    ensures Drained(s, batches).queue == [] && Drained(s, batches).taking.None?
    decreases |batches|, |s.queue|
  {
    var came := if batches == [] then [] else Arrivals(batches[0]);
    var t := if batches == [] then s else ReceiveAll(s, batches[0]);
    if batches != [] {
      ReceiveAllIsRun(s, batches[0]);
      ReceiveAllIs(s, batches[0]);
    }
    RunAppend(s, came, [UnlockPop]);
    RunOne(t, UnlockPop);
    assert Run(s, came) == t;
    if t.queue == [] {
      actions := came + [UnlockPop];
    } else {
      var rest := DrainedIsRun(Pop(t), if batches == [] then [] else batches[1..]);
      RunAppend(s, came + [UnlockPop], rest);
      actions := came + [UnlockPop] + rest;
    }
  }

  /** A call of `unlock` is a run, so the theorems about runs hold of it. */
  lemma UnlockIsRun<T>(s: State<T>, batches: seq<seq<T>>, late: seq<T>) returns (actions: seq<Action<T>>)
    requires s.unlocking == Idle && s.taking.None?
    ensures Run(s, actions) == Unlocked(s, batches, late)
    ensures !Unlocked(s, batches, late).locked && Unlocked(s, batches, late).unlocking == Idle
    ensures Unlocked(s, batches, late).taking.None?
    ensures Unlocked(s, batches, late).queue == if s.locked then late else []
  {
    var t := Step(s, UnlockBegin);
    var drain := DrainedIsRun(t, batches);
    var u := Drained(t, batches);
    ReceiveAllIsRun(u, late);
    ReceiveAllIs(u, late);
    RunOne(s, UnlockBegin);
    RunAppend(s, [UnlockBegin], drain);
    RunAppend(s, [UnlockBegin] + drain, Arrivals(late));
    RunOne(ReceiveAll(u, late), UnlockEnd);
    RunAppend(s, [UnlockBegin] + drain + Arrivals(late), [UnlockEnd]);
    actions := [UnlockBegin] + drain + Arrivals(late) + [UnlockEnd];
  }

  lemma {:induction false} DrainedAlone<T>(s: State<T>)
    ensures Drained(s, []).handed == s.handed + s.queue && Drained(s, []).arrivals == s.arrivals
    decreases |s.queue|
  {
    if s.queue != [] {
      DrainedAlone(Pop(s));
      assert s.queue == [s.queue[0]] + s.queue[1..];
    }
  }

  /** `came` has come in and been handed over in order, and what was parked before it. */
  ghost predicate InOrderSince<T>(s: State<T>, t: State<T>, came: seq<T>) {
    t.handed == s.handed + (s.queue + came) && t.arrivals == s.arrivals + came
  }

  lemma InOrderOneBatch<T>(s: State<T>, t: State<T>, batch: seq<T>, came: seq<T>)
    requires s.locked && InOrderSince(ReceiveAll(s, batch), t, came)
    ensures InOrderSince(s, t, batch + came)
  {
    ReceiveAllIs(s, batch);
    AppendAssociates(s.queue, batch, came);
    AppendAssociates(s.arrivals, batch, came);
  }

  lemma InOrderOnePop<T>(s: State<T>, t: State<T>, came: seq<T>)
    requires s.queue != [] && InOrderSince(Pop(s), t, came)
    ensures InOrderSince(s, t, came)
  {
    AppendAssociates(s.handed, [s.queue[0]], s.queue[1..] + came);
    AppendAssociates([s.queue[0]], s.queue[1..], came);
    assert s.queue == [s.queue[0]] + s.queue[1..];
  }

  lemma {:induction false} DrainedInOrder<T>(s: State<T>, batches: seq<seq<T>>) returns (used: nat)
    requires s.locked
    ensures used <= |batches| && InOrderSince(s, Drained(s, batches), Concat(batches[..used]))
    decreases |batches|
  {
    if batches == [] {
      used := 0;
      DrainedAlone(s);
      assert s.queue + [] == s.queue && s.arrivals + [] == s.arrivals;
    } else {
      var t := ReceiveAll(s, batches[0]);
      ReceiveAllIs(s, batches[0]);
      var rest := 0;
      if t.queue != [] {
        rest := DrainedInOrder(Pop(t), batches[1..]);
        InOrderOnePop(t, Drained(s, batches), Concat(batches[1..][..rest]));
      }
      used := 1 + rest;
      InOrderOneBatch(s, Drained(s, batches), batches[0], Concat(batches[1..][..rest]));
      assert batches[..used][1..] == batches[1..][..rest];
    }
  }

  /** Unlocking a locked connector hands over what was parked, and what came in before the
      queue was seen empty, in order; what came in later stays behind. */
  lemma UnlockHandsOver<T>(s: State<T>, batches: seq<seq<T>>, late: seq<T>) returns (used: nat)
    requires s.locked && s.unlocking == Idle && s.taking.None?
    ensures used <= |batches|
    ensures var t := Unlocked(s, batches, late);
            && t.handed == s.handed + (s.queue + Concat(batches[..used]))
            && t.arrivals == s.arrivals + Concat(batches[..used]) + late && t.queue == late
  {
    var t := Step(s, UnlockBegin);
    used := DrainedInOrder(t, batches);
    var _ := DrainedIsRun(t, batches);
    ReceiveAllIs(Drained(t, batches), late);
  }
}
