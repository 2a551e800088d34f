/** What a message does to the connector it is dispatched to
    (whad/device/device.py, whad/device/connector.py). */
module Endpoint {
  import opened ByteStrings
  import opened Messages
  import LockQueue

  /** One invocation of a connector callback. */
  datatype Call =
    | OnAnyMsg(message: Message)
    | OnDiscoveryMsg(message: Message)
    | OnGenericMsg(message: Message)
    | OnDomainMsg(message: Message)
    | OnEvent(event: Bytes)
    | OnPacket(packet: Bytes)

  datatype State = State(
    lock: LockQueue.State<Message>,
    synchronous: bool,
    pending: seq<Bytes>,
    calls: seq<Call>)

  /** `on_packet_message`. */
  function HandOver(hub: Hub, c: State, m: Message): State {
    match hub.toPacket(m)
    case None => c
    case Some(p) =>
      if c.synchronous then c.(pending := c.pending + [p]) else c.(calls := c.calls + [OnPacket(p)])
  }

  /** `on_domain_msg` for a packet: parked while locked, handed over otherwise. */
  function TakePacket(hub: Hub, c: State, m: Message): State {
    var parked := c.(lock := LockQueue.Receive(c.lock, m));
    if c.lock.locked then parked else HandOver(hub, parked, m)
  }

  /** `dispatch_message`, up to the exception that a refused domain raises. */
  function Dispatch(hub: Hub, c: State, m: Message): State {
    var seen := c.(calls := c.calls + [OnAnyMsg(m)]);
    match m.category
    case Discovery => seen.(calls := seen.calls + [OnDiscoveryMsg(m)])
    case Generic(kind) => if kind == UnsupportedDomain then seen else seen.(calls := seen.calls + [OnGenericMsg(m)])
    case Packet => TakePacket(hub, seen, m)
    case Event =>
      (match hub.toEvent(m)
       case Some(e) => seen.(calls := seen.calls + [OnEvent(e)])
       case None => seen)
    case OtherDomain => seen.(calls := seen.calls + [OnDomainMsg(m)])
    case NoDomain => seen
  }

  function DispatchAll(hub: Hub, c: State, messages: seq<Message>): State
    decreases |messages|
  {
    if messages == [] then c
    else Dispatch(hub, DispatchAll(hub, c, messages[..|messages| - 1]), messages[|messages| - 1])
  }

  function HandOverAll(hub: Hub, c: State, pdus: seq<Message>): State
    decreases |pdus|
  {
    if pdus == [] then c else HandOverAll(hub, HandOver(hub, c, pdus[0]), pdus[1..])
  }

  /** The packets that a list of packet messages stands for. */
  function PacketsOf(hub: Hub, pdus: seq<Message>): seq<Bytes> {
    if pdus == [] then []
    else
      (match hub.toPacket(pdus[0])
       case Some(p) => [p]
       case None => []) + PacketsOf(hub, pdus[1..])
  }

  function PacketCalls(packets: seq<Bytes>): (r: seq<Call>)
    ensures |r| == |packets|
  {
    seq(|packets|, i requires 0 <= i < |packets| => OnPacket(packets[i]))
  }

  /** Handing over a list delivers its packets once each, in order: to the pending
      queue in synchronous mode, to the `on_packet` callback otherwise. */
  lemma {:induction false} HandOverAllDelivers(hub: Hub, c: State, pdus: seq<Message>)
    ensures HandOverAll(hub, c, pdus) ==
            if c.synchronous then c.(pending := c.pending + PacketsOf(hub, pdus))
            else c.(calls := c.calls + PacketCalls(PacketsOf(hub, pdus)))
    decreases |pdus|
  {
    if pdus == [] {
      assert c.pending + [] == c.pending && c.calls + PacketCalls([]) == c.calls;
    } else {
      HandOverAllDelivers(hub, HandOver(hub, c, pdus[0]), pdus[1..]);
      match hub.toPacket(pdus[0])
      case None =>
        assert PacketsOf(hub, pdus) == PacketsOf(hub, pdus[1..]);
      case Some(p) =>
        var rest := PacketsOf(hub, pdus[1..]);
        assert PacketsOf(hub, pdus) == [p] + rest;
        assert c.pending + [p] + rest == c.pending + ([p] + rest);
        assert PacketCalls([p] + rest) == [OnPacket(p)] + PacketCalls(rest);
        assert c.calls + [OnPacket(p)] + PacketCalls(rest) == c.calls + PacketCalls([p] + rest);
    }
  }

  // ----- From dispatching to the packets that get through -----

  function PacketMessages(messages: seq<Message>): seq<Message> {
    if messages == [] then []
    else
      var front, m := messages[..|messages| - 1], messages[|messages| - 1];
      if m.category == Packet then PacketMessages(front) + [m] else PacketMessages(front)
  }

  /** The packets among the callbacks made. */
  function PacketsCalled(calls: seq<Call>): seq<Bytes> {
    if calls == [] then []
    else
      var front, x := calls[..|calls| - 1], calls[|calls| - 1];
      if x.OnPacket? then PacketsCalled(front) + [x.packet] else PacketsCalled(front)
  }

  /** What reached the application: pending packets in synchronous mode, callbacks
      otherwise. */
  function Delivered(c: State): seq<Bytes> {
    if c.synchronous then c.pending else PacketsCalled(c.calls)
  }

  lemma PacketsCalledSnoc(calls: seq<Call>, x: Call)
    ensures PacketsCalled(calls + [x]) ==
            if x.OnPacket? then PacketsCalled(calls) + [x.packet] else PacketsCalled(calls)
  {
    assert (calls + [x])[..|calls|] == calls;
  }

  lemma HandOverDelivers(hub: Hub, c: State, m: Message)
    ensures Delivered(HandOver(hub, c, m)) ==
            match hub.toPacket(m) case Some(p) => Delivered(c) + [p] case None => Delivered(c)
  {
    match hub.toPacket(m)
    case Some(p) => PacketsCalledSnoc(c.calls, OnPacket(p));
    case None =>
  }

  lemma {:induction false} PacketsOfSnoc(hub: Hub, pdus: seq<Message>, m: Message)
    ensures PacketsOf(hub, pdus + [m]) ==
            match hub.toPacket(m) case Some(p) => PacketsOf(hub, pdus) + [p] case None => PacketsOf(hub, pdus)
  {
    if pdus == [] {
      assert pdus + [m] == [m] && [m][1..] == [];
    } else {
      assert (pdus + [m])[1..] == pdus[1..] + [m];
      PacketsOfSnoc(hub, pdus[1..], m);
    }
  }

  lemma CallDelivers(c: State, x: Call)
    requires !x.OnPacket?
    ensures Delivered(c.(calls := c.calls + [x])) == Delivered(c)
  {
    PacketsCalledSnoc(c.calls, x);
  }

  lemma DispatchFeeds(hub: Hub, c: State, m: Message)
    ensures var t := Dispatch(hub, c, m);
            && t.synchronous == c.synchronous && t.lock.locked == c.lock.locked
            && t.lock == if m.category == Packet then LockQueue.Receive(c.lock, m) else c.lock
  {
  }

  lemma DispatchDelivers(hub: Hub, c: State, m: Message)
    ensures Delivered(Dispatch(hub, c, m)) ==
            if m.category == Packet && !c.lock.locked
            then (match hub.toPacket(m) case Some(p) => Delivered(c) + [p] case None => Delivered(c))
            else Delivered(c)
  {
    var seen := c.(calls := c.calls + [OnAnyMsg(m)]);
    CallDelivers(c, OnAnyMsg(m));
    match m.category
    case Discovery => CallDelivers(seen, OnDiscoveryMsg(m));
    case Generic(_) => CallDelivers(seen, OnGenericMsg(m));
    case Packet => HandOverDelivers(hub, seen.(lock := LockQueue.Receive(seen.lock, m)), m);
    case Event =>
      if hub.toEvent(m).Some? {
        CallDelivers(seen, OnEvent(hub.toEvent(m).value));
      }
    case OtherDomain => CallDelivers(seen, OnDomainMsg(m));
    case NoDomain =>
  }

  /** Dispatching a list of messages feeds exactly its packet messages, in order, to the
      lockable queue. */
  lemma {:induction false} DispatchAllFeeds(hub: Hub, c: State, messages: seq<Message>)
    ensures var t, pdus := DispatchAll(hub, c, messages), PacketMessages(messages);
            && t.synchronous == c.synchronous && t.lock.locked == c.lock.locked
            && t.lock.arrivals == c.lock.arrivals + pdus
            && t.lock.queue == (if c.lock.locked then c.lock.queue + pdus else c.lock.queue)
            && t.lock.handed == (if c.lock.locked then c.lock.handed else c.lock.handed + pdus)
  {
    if messages != [] {
      var front, m := messages[..|messages| - 1], messages[|messages| - 1];
      DispatchAllFeeds(hub, c, front);
      DispatchFeeds(hub, DispatchAll(hub, c, front), m);
      AppendAssociates(c.lock.arrivals, PacketMessages(front), [m]);
      AppendAssociates(c.lock.queue, PacketMessages(front), [m]);
      AppendAssociates(c.lock.handed, PacketMessages(front), [m]);
    }
  }

  /** Unlocked, exactly their packets reach the application, in order; locked, none does. */
  lemma {:induction false} DispatchAllDelivers(hub: Hub, c: State, messages: seq<Message>)
    ensures Delivered(DispatchAll(hub, c, messages))
            == if c.lock.locked then Delivered(c) else Delivered(c) + PacketsOf(hub, PacketMessages(messages))
  {
    if messages == [] {
      assert Delivered(c) + [] == Delivered(c);
    } else {
      var front, m := messages[..|messages| - 1], messages[|messages| - 1];
      DispatchAllFeeds(hub, c, front);
      DispatchAllDelivers(hub, c, front);
      DispatchDelivers(hub, DispatchAll(hub, c, front), m);
      PacketsOfSnoc(hub, PacketMessages(front), m);
    }
  }

  // ----- What the other callbacks get -----

  datatype Topic = AnyMessage | DiscoveryMessages | GenericMessages | DomainMessages

  function ToldBy(x: Call, topic: Topic): seq<Message> {
    match x
    case OnAnyMsg(m) => if topic == AnyMessage then [m] else []
    case OnDiscoveryMsg(m) => if topic == DiscoveryMessages then [m] else []
    case OnGenericMsg(m) => if topic == GenericMessages then [m] else []
    case OnDomainMsg(m) => if topic == DomainMessages then [m] else []
    case OnEvent(_) => []
    case OnPacket(_) => []
  }

  /** The messages a list of callbacks was given on a topic. */
  function Told(calls: seq<Call>, topic: Topic): seq<Message> {
    if calls == [] then [] else Told(calls[..|calls| - 1], topic) + ToldBy(calls[|calls| - 1], topic)
  }

  /** The topics of a message, by its category alone. */
  predicate Concerns(m: Message, topic: Topic) {
    || topic == AnyMessage
    || (topic == DiscoveryMessages && m.category == Discovery)
    || (topic == GenericMessages && m.category in {Generic(CommandResult), Generic(OtherGeneric)})
    || (topic == DomainMessages && m.category == OtherDomain)
  }

  function Concerning(messages: seq<Message>, topic: Topic): seq<Message> {
    if messages == [] then []
    else
      var m := messages[|messages| - 1];
      Concerning(messages[..|messages| - 1], topic) + if Concerns(m, topic) then [m] else []
  }

  /** The events a list of callbacks was given, and those that a list of messages carries. */
  function EventsCalled(calls: seq<Call>): seq<Bytes> {
    if calls == [] then []
    else
      var x := calls[|calls| - 1];
      EventsCalled(calls[..|calls| - 1]) + if x.OnEvent? then [x.event] else []
  }

  function EventsOf(hub: Hub, messages: seq<Message>): seq<Bytes> {
    if messages == [] then []
    else
      var m := messages[|messages| - 1];
      EventsOf(hub, messages[..|messages| - 1]) +
      if m.category == Event && hub.toEvent(m).Some? then [hub.toEvent(m).value] else []
  }

  lemma ToldSnoc(calls: seq<Call>, x: Call, topic: Topic)
    ensures Told(calls + [x], topic) == Told(calls, topic) + ToldBy(x, topic)
  {
    assert (calls + [x])[..|calls|] == calls;
  }

  lemma EventsSnoc(calls: seq<Call>, x: Call)
    ensures EventsCalled(calls + [x]) == EventsCalled(calls) + if x.OnEvent? then [x.event] else []
  {
    assert (calls + [x])[..|calls|] == calls;
  }

  /** The one callback beside `on_any_msg` that a message makes, if any; `on_packet` waits
      for an unlocked connector that is not synchronous. */
  function OtherCall(hub: Hub, c: State, m: Message): Option<Call> {
    match m.category
    case Discovery => Some(OnDiscoveryMsg(m))
    case Generic(kind) => if kind == UnsupportedDomain then None else Some(OnGenericMsg(m))
    case Packet =>
      if c.lock.locked || c.synchronous || hub.toPacket(m).None? then None else Some(OnPacket(hub.toPacket(m).value))
    case Event => if hub.toEvent(m).Some? then Some(OnEvent(hub.toEvent(m).value)) else None
    case OtherDomain => Some(OnDomainMsg(m))
    case NoDomain => None
  }

  lemma DispatchCalls(hub: Hub, c: State, m: Message)
    ensures var any := c.calls + [OnAnyMsg(m)];
            Dispatch(hub, c, m).calls ==
              match OtherCall(hub, c, m) case Some(x) => any + [x] case None => any
  {
  }

  lemma OtherCallTells(hub: Hub, c: State, m: Message, topic: Topic)
    requires topic != AnyMessage
    ensures match OtherCall(hub, c, m)
            case Some(x) => ToldBy(x, topic) == if Concerns(m, topic) then [m] else []
            case None => !Concerns(m, topic)
  {
  }

  /** Each callback gets the message if it is meant for it. */
  lemma DispatchTells(hub: Hub, c: State, m: Message, topic: Topic)
    ensures Told(Dispatch(hub, c, m).calls, topic) == Told(c.calls, topic) + if Concerns(m, topic) then [m] else []
  {
    DispatchCalls(hub, c, m);
    ToldSnoc(c.calls, OnAnyMsg(m), topic);
    var other := OtherCall(hub, c, m);
    if other.Some? {
      ToldSnoc(c.calls + [OnAnyMsg(m)], other.value, topic);
    }
    if topic == AnyMessage {
      assert other.Some? ==> ToldBy(other.value, topic) == [];
    } else {
      assert ToldBy(OnAnyMsg(m), topic) == [];
      OtherCallTells(hub, c, m, topic);
    }
  }

  lemma DispatchGivesEvent(hub: Hub, c: State, m: Message)
    ensures EventsCalled(Dispatch(hub, c, m).calls) == EventsCalled(c.calls) +
            if m.category == Event && hub.toEvent(m).Some? then [hub.toEvent(m).value] else []
  {
    DispatchCalls(hub, c, m);
    EventsSnoc(c.calls, OnAnyMsg(m));
    if OtherCall(hub, c, m).Some? {
      EventsSnoc(c.calls + [OnAnyMsg(m)], OtherCall(hub, c, m).value);
    }
  }

  /** Over any list of messages each callback gets exactly the messages meant for it, once
      each and in order, locked or not. */
  lemma {:induction false} DispatchAllTells(hub: Hub, c: State, messages: seq<Message>, topic: Topic)
    ensures Told(DispatchAll(hub, c, messages).calls, topic) == Told(c.calls, topic) + Concerning(messages, topic)
  {
    if messages != [] {
      var front, m := messages[..|messages| - 1], messages[|messages| - 1];
      DispatchAllTells(hub, c, front, topic);
      DispatchTells(hub, DispatchAll(hub, c, front), m, topic);
      AppendAssociates(Told(c.calls, topic), Concerning(front, topic), if Concerns(m, topic) then [m] else []);
    }
  }

  /** And `on_event` gets exactly the events. */
  lemma {:induction false} DispatchAllGivesEvents(hub: Hub, c: State, messages: seq<Message>)
    ensures EventsCalled(DispatchAll(hub, c, messages).calls) == EventsCalled(c.calls) + EventsOf(hub, messages)
  {
    if messages != [] {
      var front, m := messages[..|messages| - 1], messages[|messages| - 1];
      DispatchAllGivesEvents(hub, c, front);
      DispatchGivesEvent(hub, DispatchAll(hub, c, front), m);
      AppendAssociates(EventsCalled(c.calls), EventsOf(hub, front),
                       if m.category == Event && hub.toEvent(m).Some? then [hub.toEvent(m).value] else []);
    }
  }
}
