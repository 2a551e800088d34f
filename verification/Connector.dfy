/** The device connector as an object (whad/device/connector.py). Each method is
    proved against the transition it makes in `LockQueue` and `Endpoint`. A
    parameter `batches` holds the messages that the other threads deliver while
    the method loops. */
module Connectors {
  import opened ByteStrings
  import opened Messages
  import LockQueue
  import Endpoint

  class Connector {
    var locked: bool
    var lockedPdus: seq<Message>
    var synchronous: bool
    var pendingPdus: seq<Bytes>
    var calls: seq<Endpoint.Call>
    ghost var history: LockQueue.State<Message>

    ghost predicate Valid()
      reads this
    {
      history.locked == locked && history.queue == lockedPdus && history.taking.None?
    }

    ghost function View(): Endpoint.State
      reads this
    {
      Endpoint.State(history, synchronous, pendingPdus, calls)
    }

    constructor ()
      ensures Valid()
      ensures View() == Endpoint.State(LockQueue.Fresh(), false, [], [])
    {
      locked, lockedPdus, synchronous, pendingPdus, calls := false, [], false, [], [];
      history := LockQueue.Fresh();
    }

    method AddLockedPdu(pdu: Message)
      requires Valid() && locked
      modifies this
      ensures Valid()
      ensures View() == old(View()).(lock := LockQueue.Receive(old(history), pdu))
    {
      history := LockQueue.Receive(history, pdu);
      lockedPdus := lockedPdus + [pdu];
    }

    method EnableSynchronous(enabled: bool)
      requires Valid()
      modifies this
      ensures Valid()
      ensures View() == old(View()).(synchronous := enabled, pending := if enabled then old(pendingPdus) else [])
    {
      if !enabled {
        pendingPdus := [];
      }
      synchronous := enabled;
    }

    method AddPendingPacket(packet: Bytes)
      requires Valid()
      modifies this
      ensures Valid()
      ensures View() ==
              old(View()).(pending := if old(synchronous) then old(pendingPdus) + [packet] else old(pendingPdus))
    {
      if synchronous {
        pendingPdus := pendingPdus + [packet];
      }
    }

    /** `wait_packet`: first in, first out; nothing when not in synchronous mode. */
    method WaitPacket() returns (packet: Option<Bytes>)
      requires Valid()
      modifies this
      ensures Valid()
      ensures !old(synchronous) || old(pendingPdus) == [] ==> packet == None && View() == old(View())
      ensures old(synchronous) && old(pendingPdus) != [] ==>
                && packet.Some? && [packet.value] + pendingPdus == old(pendingPdus)
                && View() == old(View()).(pending := pendingPdus)
    {
      if synchronous && pendingPdus != [] {
        packet := Some(pendingPdus[0]);
        pendingPdus := pendingPdus[1..];
      } else {
        packet := None;
      }
    }

    /** `on_packet_message` of the device this connector is attached to. */
    method OnPacketMessage(hub: Hub, m: Message)
      requires Valid()
      modifies this
      ensures Valid()
      ensures View() == Endpoint.HandOver(hub, old(View()), m)
    {
      match hub.toPacket(m)
      case None =>
      case Some(packet) =>
        if synchronous {
          AddPendingPacket(packet);
        } else {
          calls := calls + [Endpoint.OnPacket(packet)];
        }
    }

    /** `on_domain_msg` for a packet message. */
    method OnDomainPacket(hub: Hub, m: Message)
      requires Valid()
      modifies this
      ensures Valid()
      ensures View() == Endpoint.TakePacket(hub, old(View()), m)
    {
      if locked {
        AddLockedPdu(m);
      } else {
        history := LockQueue.Receive(history, m);
        OnPacketMessage(hub, m);
      }
    }

    /** Packets come in one after the other. */
    method OnDomainPackets(hub: Hub, batch: seq<Message>)
      requires Valid()
      modifies this
      ensures Valid() && locked == old(locked)
      ensures history == LockQueue.ReceiveAll(old(history), batch)
      ensures View() == Endpoint.HandOverAll(hub, old(View()), if locked then [] else batch).(lock := history)
    {
      var i := 0;
      ghost var start, done := View(), [];
      while i < |batch|
        invariant 0 <= i <= |batch| && Valid() && locked == old(locked)
        invariant done == if locked then [] else batch[..i]
        invariant LockQueue.ReceiveAll(history, batch[i..]) == LockQueue.ReceiveAll(old(history), batch)
        invariant View() == Endpoint.HandOverAll(hub, start, done).(lock := history)
      {
        assert batch[i..][1..] == batch[i + 1..] && batch[..i + 1] == batch[..i] + [batch[i]];
        if !locked {
          HandOverAllSnoc(hub, start, done, batch[i]);
          done := done + [batch[i]];
        }
        OnDomainPacket(hub, batch[i]);
        i := i + 1;
      }
      assert batch[..i] == batch;
    }

    /** `lock`: sets the flag, then clears whatever is parked; that is the backlog and what
        comes in `between` the two. */
    method Lock(hub: Hub, between: seq<Message>)
      requires Valid()
      modifies this
      ensures Valid() && locked && lockedPdus == []
      ensures View() == old(View()).(lock := LockQueue.Locked(old(history), between))
    {
      ghost var start := View();
      LockQueue.LockIsRun(history, between);
      history := LockQueue.Step(history, LockQueue.LockBegin);
      locked := true;
      OnDomainPackets(hub, between);
      history := LockQueue.Step(history, LockQueue.LockEnd);
      lockedPdus := [];
    }

    /** From `start` on, when `base` had been handed over, exactly `done` has been. */
    ghost predicate HandedOver(hub: Hub, start: Endpoint.State, base: seq<Message>, done: seq<Message>)
      reads this
    {
      && history.handed == base + done
      && View() == Endpoint.HandOverAll(hub, start, done).(lock := history)
    }

    /** One round of the drain loop. */
    method HandOverFirst(hub: Hub, ghost start: Endpoint.State, ghost base: seq<Message>, ghost done: seq<Message>)
      returns (ghost done': seq<Message>)
      requires Valid() && lockedPdus != [] && HandedOver(hub, start, base, done)
      modifies this
      ensures Valid() && locked == old(locked) && HandedOver(hub, start, base, done')
      ensures lockedPdus == old(lockedPdus)[1..]
      ensures history == LockQueue.Pop(old(history))
    {
      var m := lockedPdus[0];
      HandOverAllSnoc(hub, start, done, m);
      AppendAssociates(base, done, [m]);
      done' := done + [m];
      history := LockQueue.Pop(history);
      lockedPdus := lockedPdus[1..];
      OnPacketMessage(hub, m);
    }

    /** The drain loop of `unlock`. Before each `get`, the next batch of packets comes in. */
    method Drain(hub: Hub, batches: seq<seq<Message>>, ghost start: Endpoint.State, ghost base: seq<Message>)
      returns (ghost done: seq<Message>)
      requires Valid() && HandedOver(hub, start, base, [])
      modifies this
      ensures Valid() && locked == old(locked) && HandedOver(hub, start, base, done)
      ensures history == LockQueue.Drained(old(history), batches)
    {
      var used, empty := 0, false;
      done := [];
      assert batches[used..] == batches;
      while !empty
        invariant Valid() && locked == old(locked) && used <= |batches|
        invariant LockQueue.Drained(old(history), batches) ==
                  if empty then history else LockQueue.Drained(history, batches[used..])
        invariant HandedOver(hub, start, base, done)
        decreases |batches| - used, |lockedPdus|, !empty
      {
        LockQueue.DrainedUnfolds(history, batches[used..]);
        if used < |batches| {
          assert batches[used..][1..] == batches[used + 1..];
          done := TakeBatch(hub, batches[used], start, base, done);
          used := used + 1;
        }
        done, empty := HandOverNext(hub, start, base, done);
      }
    }

    /** The `get` of the loop, and what follows it. */
    method HandOverNext(hub: Hub, ghost start: Endpoint.State, ghost base: seq<Message>, ghost done: seq<Message>)
      returns (ghost done': seq<Message>, empty: bool)
      requires Valid() && HandedOver(hub, start, base, done)
      modifies this
      ensures Valid() && locked == old(locked) && HandedOver(hub, start, base, done')
      ensures history == LockQueue.Pop(old(history)) && (empty <==> old(lockedPdus) == [])
      ensures |lockedPdus| < |old(lockedPdus)| || (empty && lockedPdus == old(lockedPdus))
    {
      done', empty := done, lockedPdus == [];
      if empty {
        history := LockQueue.Pop(history);
      } else {
        done' := HandOverFirst(hub, start, base, done);
      }
    }

    /** A batch comes in after `done` has been handed over. */
    method TakeBatch(hub: Hub, batch: seq<Message>, ghost start: Endpoint.State, ghost base: seq<Message>, ghost done: seq<Message>)
      returns (ghost done': seq<Message>)
      requires Valid() && HandedOver(hub, start, base, done)
      modifies this
      ensures Valid() && locked == old(locked) && HandedOver(hub, start, base, done')
      ensures history == LockQueue.ReceiveAll(old(history), batch)
    {
      ghost var more := if locked then [] else batch;
      LockQueue.ReceiveAllIs(history, batch);
      HandOverAllAppend(hub, start, done, more);
      HandOverAllKeepsLock(hub, Endpoint.HandOverAll(hub, start, done), history, more);
      AppendAssociates(base, done, more);
      done' := done + more;
      assert base + [] == base && done + [] == done;
      OnDomainPackets(hub, batch);
    }

    /** `unlock`: hands over what is parked until the queue is seen empty, then clears
        the flag; `late` comes in between the two. When the connector was locked, `late` is
        what stays behind, and what was handed over is what was parked and then what came
        in, in order; when it was not, whatever comes in is handed over directly. */
    method Unlock(hub: Hub, batches: seq<seq<Message>>, late: seq<Message>) returns (ghost used: nat)
      requires Valid() && history.unlocking == LockQueue.Idle
      modifies this
      ensures Valid() && !locked && history.unlocking == LockQueue.Idle
      ensures history == LockQueue.Unlocked(old(history), batches, late)
      ensures lockedPdus == if old(locked) then late else []
      ensures old(history).handed <= history.handed
      ensures View() ==
              Endpoint.HandOverAll(hub, old(View()), history.handed[|old(history).handed|..]).(lock := history)
      ensures used <= |batches|
      ensures old(locked) ==>
                && history.handed == old(history).handed + (old(lockedPdus) + Concat(batches[..used]))
                && history.arrivals == old(history).arrivals + Concat(batches[..used]) + late
    {
      used := 0;
      if locked {
        used := LockQueue.UnlockHandsOver(history, batches, late);
      }
      ghost var start, base := View(), history.handed;
      ghost var _ := LockQueue.UnlockIsRun(history, batches, late);
      assert base + [] == base;
      history := LockQueue.Step(history, LockQueue.UnlockBegin);
      ghost var done := Drain(hub, batches, start, base);
      done := TakeBatch(hub, late, start, base, done);
      history := LockQueue.Step(history, LockQueue.UnlockEnd);
      assert history.handed[|base|..] == done;
      locked := false;
    }
  }

  lemma {:induction false} HandOverAllSnoc(hub: Hub, c: Endpoint.State, done: seq<Message>, m: Message)
    ensures Endpoint.HandOverAll(hub, c, done + [m]) == Endpoint.HandOver(hub, Endpoint.HandOverAll(hub, c, done), m)
    decreases |done|
  {
    if done == [] {
      assert done + [m] == [m];
      assert [m][1..] == [];
    } else {
      assert (done + [m])[1..] == done[1..] + [m];
      HandOverAllSnoc(hub, Endpoint.HandOver(hub, c, done[0]), done[1..], m);
    }
  }

  lemma {:induction false} HandOverAllAppend(hub: Hub, c: Endpoint.State, a: seq<Message>, b: seq<Message>)
    ensures Endpoint.HandOverAll(hub, c, a + b) == Endpoint.HandOverAll(hub, Endpoint.HandOverAll(hub, c, a), b)
    decreases |a|
  {
    if a == [] {
      assert a + b == b;
    } else {
      assert (a + b)[1..] == a[1..] + b;
      HandOverAllAppend(hub, Endpoint.HandOver(hub, c, a[0]), a[1..], b);
    }
  }

  /** Handing over does not look at the lock. */
  lemma {:induction false} HandOverAllKeepsLock(hub: Hub, c: Endpoint.State, lock: LockQueue.State<Message>, pdus: seq<Message>)
    ensures Endpoint.HandOverAll(hub, c.(lock := lock), pdus) == Endpoint.HandOverAll(hub, c, pdus).(lock := lock)
    decreases |pdus|
  {
    if pdus != [] {
      HandOverAllKeepsLock(hub, Endpoint.HandOver(hub, c, pdus[0]), lock, pdus[1..]);
    }
  }
}
