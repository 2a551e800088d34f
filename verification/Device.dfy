/** The device as an object (whad/device/device.py). Each method is proved against
    the transition it makes in `Router`, `Framing` and `Endpoint`. A parameter
    `batches` holds the steps that other threads take while the method waits. */
module Device {
  import opened ByteStrings
  import opened Messages
  import opened Framing
  import opened Parsing
  import opened Connectors
  import Router
  import Endpoint

  /** One call of `write`, and the queue filter in force at that moment. */
  datatype Written = Written(data: Bytes, filter: Option<Filter>)

  datatype WaitResult = Disconnected | Waited(outcome: Router.Outcome)

  class WhadDevice {
    const hub: Hub
    var connector: Connector?
    var inpipe: Bytes
    var messages: seq<Message>
    var msgQueue: seq<Message>
    var mqFilter: Option<Filter>
    var isOpen: bool
    var closing: bool
    ghost var written: seq<Written>
    ghost var arrivals: seq<Router.Arrival>
    ghost var departures: seq<Router.Departure>

    ghost function Peer(): set<object>
      reads this
    {
      if connector == null then {} else {connector}
    }

    ghost predicate Valid()
      reads this, Peer()
    {
      connector != null ==> connector.Valid()
    }

    /** Both queues hold, in order, what was routed to them and has not left them. Every
        method keeps this. */
    ghost predicate InOrder()
      reads this
    {
      Router.InOrder(Routing())
    }

    ghost function Routing(): Router.State
      reads this
    {
      Router.State(messages, msgQueue, mqFilter, isOpen, closing, connector != null, arrivals, departures)
    }

    constructor (hub: Hub)
      ensures Valid() && Routing() == Router.INITIAL
      ensures this.hub == hub && connector == null && inpipe == [] && written == []
    {
      this.hub := hub;
      connector, inpipe := null, [];
      messages, msgQueue, mqFilter := [], [], None;
      isOpen, closing := false, false;
      written, arrivals, departures := [], [], [];
    }

    method SetConnector(c: Connector)
      requires c.Valid()
      modifies `connector
      ensures Valid() && connector == c
      ensures Routing() == Router.Step(old(Routing()), Router.Attach)
      ensures old(InOrder()) ==> InOrder()
    {
      connector := c;
    }

    method SetQueueFilter(filter: Option<Filter>)
      modifies `mqFilter
      ensures Routing() == Router.Step(old(Routing()), Router.SetFilter(filter))
      ensures old(InOrder()) ==> InOrder()
    {
      mqFilter := filter;
    }

    method OnMessageReceived(m: Message)
      modifies `messages, `msgQueue, `arrivals
      ensures Routing() == Router.Receive(old(Routing()), m)
      ensures old(InOrder()) ==> InOrder()
    {
      if InOrder() { Router.ReceiveKeepsOrder(Routing(), m); }
      if closing { return; }
      if mqFilter.Some? && mqFilter.value(m) {
        msgQueue := msgQueue + [m];
        arrivals := arrivals + [Router.Arrival(m, true)];
      } else {
        messages := messages + [m];
        arrivals := arrivals + [Router.Arrival(m, false)];
      }
    }

    /** `on_data_received`: the messages framed in the buffer and the new data are routed,
        in order, up to the first payload that the parser raises on. That one stays in
        front; without one, the buffer is left equivalent to the canonical rest and never
        holds more than one incomplete frame. */
    method OnDataReceived(data: Bytes) returns (raised: bool)
      modifies `inpipe, `messages, `msgQueue, `arrivals
      ensures var payloads := Payloads(old(inpipe) + data);
              && Routing() == Router.Deliver(old(Routing()), Out(hub, payloads))
              && Took(hub, old(inpipe), data, Out(hub, payloads), raised, inpipe)
      ensures !raised ==> Equivalent(inpipe, Rest(old(inpipe) + data)) && |inpipe| <= MAX_PAYLOAD + 3
      ensures old(InOrder()) ==> InOrder()
    {
      inpipe := inpipe + data;
      ghost var whole, emitted: seq<Bytes> := inpipe, [];
      raised, emitted := Drain();
      GoodPrefixIs(hub, emitted, Payloads(inpipe));
      if old(InOrder()) {
        Router.DeliverKeepsOrder(old(Routing()), Out(hub, Payloads(whole)));
      }
    }

    /** The loop: routes the messages of the payloads `emitted`, and stops with nothing
        complete left, or with a payload in front that the parser raises on. */
    method Drain() returns (raised: bool, ghost emitted: seq<Bytes>)
      modifies `inpipe, `messages, `msgQueue, `arrivals
      ensures Consumed(old(inpipe), emitted, inpipe)
      ensures Routing() == Router.Deliver(old(Routing()), hub.ParseAll(emitted))
      ensures forall p :: p in emitted ==> hub.parse(p) != Raised
      ensures if raised then Payloads(inpipe) != [] && hub.parse(Payloads(inpipe)[0]) == Raised
              else Payloads(inpipe) == [] && Equivalent(inpipe, Rest(old(inpipe))) && |inpipe| <= MAX_PAYLOAD + 3
    {
      raised, emitted := false, [];
      while |inpipe| > 2
        invariant Consumed(old(inpipe), emitted, inpipe)
        invariant !raised && forall p :: p in emitted ==> hub.parse(p) != Raised
        invariant Routing() == Router.Deliver(old(Routing()), hub.ParseAll(emitted))
        decreases |inpipe|
      {
        if inpipe[0] == MAGIC_0 && inpipe[1] == MAGIC_1 {
          if |inpipe| > 4 {
            var msgSize := PayloadSize(inpipe);
            if |inpipe| >= msgSize + 4 {
              ghost var rawMessage := inpipe[4..4 + msgSize];
              ConsumeFrame(old(inpipe), emitted, inpipe);
              raised := TakeFrame(msgSize, old(Routing()), emitted);
              if raised {
                return;
              }
              emitted := emitted + [rawMessage];
            } else {
              break;
            }
          } else {
            break;
          }
        } else {
          inpipe := SkipGarbage(inpipe);
        }
      }
      ConsumedAll(old(inpipe), emitted, inpipe);
    }

    /** Parses the frame in front, routes its message if there is one, and chomps it. */
    method TakeFrame(msgSize: nat, ghost start: Router.State, ghost emitted: seq<Bytes>) returns (raised: bool)
      requires |inpipe| >= msgSize + 4 && Routing() == Router.Deliver(start, hub.ParseAll(emitted))
      modifies `inpipe, `messages, `msgQueue, `arrivals
      ensures raised <==> hub.parse(old(inpipe)[4..4 + msgSize]) == Raised
      ensures raised ==> inpipe == old(inpipe) && Routing() == old(Routing())
      ensures !raised ==>
                && inpipe == old(inpipe)[4 + msgSize..]
                && Routing() == Router.Deliver(start, hub.ParseAll(emitted + [old(inpipe)[4..4 + msgSize]]))
    {
      var rawMessage := inpipe[4..4 + msgSize];
      EmitOne(hub, start, emitted, rawMessage);
      match hub.parse(rawMessage) {
        case Raised => return true;
        case Good(msg) => OnMessageReceived(msg);
        case Skipped =>
      }
      inpipe := inpipe[msgSize + 4..];
      return false;
    }

    /** `dispatch_message`: the connector, if any, gets the callbacks. */
    method DispatchMessage(m: Message) returns (raised: bool)
      requires Valid()
      modifies Peer()
      ensures Valid()
      ensures raised <==> Refused(m)
      ensures connector != null ==> connector.View() == Endpoint.Dispatch(hub, old(connector.View()), m)
    {
      raised := false;
      if connector != null {
        connector.calls := connector.calls + [Endpoint.OnAnyMsg(m)];
      }
      match m.category
      case Discovery =>
        if connector != null {
          connector.calls := connector.calls + [Endpoint.OnDiscoveryMsg(m)];
        }
      case Generic(kind) =>
        if kind == UnsupportedDomain {
          raised := true;
        } else if connector != null {
          connector.calls := connector.calls + [Endpoint.OnGenericMsg(m)];
        }
      case Packet =>
        if connector != null {
          connector.OnDomainPacket(hub, m);
        }
      case Event =>
        if connector != null {
          match hub.toEvent(m)
          case Some(event) => connector.calls := connector.calls + [Endpoint.OnEvent(event)];
          case None =>
        }
      case OtherDomain =>
        if connector != null {
          connector.calls := connector.calls + [Endpoint.OnDomainMsg(m)];
        }
      case NoDomain =>
    }

    /** `process_messages`: one background message, if a connector is there to take it. */
    method ProcessMessages() returns (processed: bool, raised: bool)
      requires Valid()
      modifies `messages, `departures, Peer()
      ensures Valid()
      ensures Routing() == Router.ProcessOne(old(Routing()))
      ensures processed || raised <==> connector != null && old(messages) != []
      ensures raised <==> connector != null && old(messages) != [] && Refused(old(messages)[0])
      ensures !(processed && raised)
      ensures connector != null ==>
                connector.View() == if old(messages) == [] then old(connector.View())
                                    else Endpoint.Dispatch(hub, old(connector.View()), old(messages)[0])
      ensures old(InOrder()) ==> InOrder()
    {
      if InOrder() { Router.ProcessKeepsOrder(Routing()); }
      processed, raised := false, false;
      if connector == null || messages == [] { return; }
      var message := messages[0];
      messages := messages[1..];
      departures := departures + [Router.Departure(message, false, Router.Dispatched)];
      raised := DispatchMessage(message);
      processed := !raised;
    }

    /** The `get` of `wait_for_message` on a queue that is not empty. */
    method GetReply() returns (msg: Message)
      requires msgQueue != []
      modifies `msgQueue, `departures
      ensures msg == old(msgQueue)[0] && |msgQueue| < |old(msgQueue)|
      ensures departures == old(departures) + [Router.Departure(msg, true, Router.WaiterFate(Routing(), msg))]
      ensures Routing() == Router.TakeReply(old(Routing()))
    {
      msg := msgQueue[0];
      departures := departures + [Router.Departure(msg, true, Router.WaiterFate(Routing(), msg))];
      msgQueue := msgQueue[1..];
    }

    /** The processing thread takes its turn. */
    method ProcessInTurn(ghost past: seq<Router.Departure>, ghost view: Option<Endpoint.State>)
      requires Valid() && Followed(past, view)
      modifies `messages, `departures, Peer()
      ensures Valid() && Followed(past, view)
      ensures Routing() == Router.ProcessOne(old(Routing()))
    {
      if connector != null && messages != [] {
        FollowOneMore(hub, view, past, departures, Router.Departure(messages[0], false, Router.Dispatched));
      }
      var processed, raised := ProcessMessages();
    }

    /** One step of another thread. */
    method BackgroundStep(a: Router.Background, ghost past: seq<Router.Departure>, ghost view: Option<Endpoint.State>)
      requires Valid() && Followed(past, view)
      modifies `isOpen, `closing, `messages, `msgQueue, `arrivals, `departures, Peer()
      ensures Valid() && Followed(past, view)
      ensures Routing() == Router.Step(old(Routing()), a)
    {
      match a
      case Arrive(m) => OnMessageReceived(m);
      case Process => ProcessInTurn(past, view);
      case BeginClose =>
        if isOpen && !closing {
          closing := true;
        }
      case EndClose => isOpen, closing := false, false;
    }

    /** The steps of other threads in one batch. */
    method RunBatch(batch: seq<Router.Background>, ghost past: seq<Router.Departure>, ghost view: Option<Endpoint.State>)
      requires Valid() && Followed(past, view)
      modifies `isOpen, `closing, `messages, `msgQueue, `arrivals, `departures, Peer()
      ensures Valid() && Followed(past, view)
      ensures Routing() == Router.Run(old(Routing()), batch)
    {
      var i := 0;
      while i < |batch|
        invariant 0 <= i <= |batch| && Valid() && Followed(past, view)
        invariant Router.Run(old(Routing()), batch) == Router.Run(Routing(), batch[i..])
      {
        assert batch[i..][1..] == batch[i + 1..];
        BackgroundStep(batch[i], past, view);
        i := i + 1;
      }
    }

    /** The loop of `wait_for_message`. Besides the routing, it says what the
        connector saw: exactly the messages dispatched meanwhile, in order. */
    method WaitLoop(batches: seq<seq<Router.Background>>, ghost past: seq<Router.Departure>, ghost view: Option<Endpoint.State>)
      returns (outcome: Router.Outcome)
      requires Valid() && Followed(past, view)
      modifies `isOpen, `closing, `messages, `msgQueue, `arrivals, `departures, Peer()
      ensures Valid() && Followed(past, view)
      ensures (outcome, Routing()) == Router.Wait(old(Routing()), batches)
    {
      var used := 0;
      assert batches[used..] == batches;
      while true
        invariant Valid() && 0 <= used <= |batches| && Followed(past, view)
        invariant Router.Wait(old(Routing()), batches) == Router.Wait(Routing(), batches[used..])
        decreases |batches| - used, |msgQueue|
      {
        ghost var before, left := Routing(), batches[used..];
        var last := used == |batches|;
        if !last {
          RunBatch(batches[used], past, view);
          assert left[1..] == batches[used + 1..];
          used := used + 1;
        }
        if msgQueue != [] {
          var ended := HandleReply(past, view);
          if ended.Some? {
            return ended.value;
          }
        } else if last {
          return Router.NoReply;
        }
      }
    }

    /** One round of the loop: take a reply; return it, raise, or dispatch it and go on. */
    method HandleReply(ghost past: seq<Router.Departure>, ghost view: Option<Endpoint.State>)
      returns (ended: Option<Router.Outcome>)
      requires Valid() && msgQueue != [] && Followed(past, view)
      modifies `msgQueue, `departures, Peer()
      ensures Valid() && |msgQueue| < |old(msgQueue)| && Followed(past, view)
      ensures Routing() == Router.TakeReply(old(Routing()))
      ensures var m := old(msgQueue)[0];
              ended == match Router.WaiterFate(old(Routing()), m)
                       case Lost => Some(Router.NoFilterSet)
                       case Returned => Some(Router.Reply(m))
                       case Dispatched => if Refused(m) then Some(Router.DispatchRaised(m)) else None
    {
      FollowOneMore(hub, view, past, departures, Router.Departure(msgQueue[0], true, Router.WaiterFate(Routing(), msgQueue[0])));
      var msg := GetReply();
      if mqFilter.None? {
        return Some(Router.NoFilterSet);
      } else if mqFilter.value(msg) {
        return Some(Router.Reply(msg));
      }
      var raised := DispatchMessage(msg);
      if raised {
        return Some(Router.DispatchRaised(msg));
      }
      return None;
    }

    /** The state of the connector, if there is one. */
    ghost function PeerView(): Option<Endpoint.State>
      reads this, Peer()
    {
      if connector == null then None else Some(connector.View())
    }

    /** Since it was in state `view`, with the departures `past`, the connector has been
        given exactly the messages dispatched, by whatever thread, in order. */
    ghost predicate Followed(past: seq<Router.Departure>, view: Option<Endpoint.State>)
      reads this, Peer()
    {
      && past <= departures
      && (connector != null <==> view.Some?)
      && (connector != null ==>
            connector.View() == Endpoint.DispatchAll(hub, view.value, Router.DispatchedMessages(departures[|past|..])))
    }

    /** `wait_for_message`; in each of `batches` other threads take some steps. */
    method WaitForMessage(filter: Option<Filter>, batches: seq<seq<Router.Background>>) returns (result: WaitResult)
      requires Valid()
      modifies `isOpen, `closing, `mqFilter, `messages, `msgQueue, `arrivals, `departures, Peer()
      ensures Valid()
      ensures !old(isOpen) && old(msgQueue) == [] ==> result == Disconnected && Routing() == old(Routing())
      ensures old(isOpen) || old(msgQueue) != [] ==>
                var start := if filter.None? then old(Routing())
                             else Router.Step(old(Routing()), Router.SetFilter(filter));
                result.Waited? && (result.outcome, Routing()) == Router.Wait(start, batches)
      ensures Followed(old(departures), old(PeerView()))
      ensures old(InOrder()) ==> InOrder()
    {
      assert departures[|departures|..] == [];
      if !isOpen && msgQueue == [] {
        return Disconnected;
      }
      if filter.Some? {
        SetQueueFilter(filter);
      }
      if InOrder() { Router.WaitKeepsOrder(Routing(), batches); }
      var outcome := WaitLoop(batches, departures, PeerView());
      return Waited(outcome);
    }

    method Write(data: Bytes)
      modifies `written
      ensures written == old(written) + [Written(data, mqFilter)]
    {
      written := written + [Written(data, mqFilter)];
    }

    /** `send_message`: the header and the payload written make up one frame, and the
        new filter is in force before the first byte leaves. */
    method SendMessage(message: Message, keep: Option<Filter>)
      modifies `mqFilter, `written
      ensures Routing() == if keep.None? then old(Routing()) else Router.Step(old(Routing()), Router.SetFilter(keep))
      ensures exists header, raw: Bytes ::
                && written == old(written) + [Written(header, mqFilter), Written(raw, mqFilter)]
                && header + raw == Frame(hub.serialize(message))
      ensures old(InOrder()) ==> InOrder()
    {
      if keep.Some? {
        SetQueueFilter(keep);
      }
      var rawMessage := hub.serialize(message);
      var header: Bytes := [MAGIC_0, MAGIC_1, ByteOf(|rawMessage|), ByteOf(|rawMessage| / 256)];
      Write(header);
      Write(rawMessage);
      assert header + rawMessage == Frame(hub.serialize(message));
    }

    /** `send_command`. */
    method SendCommand(command: Message, keep: Option<Filter>, batches: seq<seq<Router.Background>>)
      returns (result: WaitResult)
      requires Valid()
      modifies `isOpen, `closing, `mqFilter, `written, `messages, `msgQueue, `arrivals, `departures, Peer()
      ensures Valid()
      ensures var f := if keep.None? then IsCommandResult else keep.value;
              && (!old(isOpen) && old(msgQueue) == [] ==> result == Disconnected)
              && (old(isOpen) || old(msgQueue) != [] ==>
                    result.Waited? && (result.outcome, Routing()) == Router.Command(old(Routing()), f, batches))
              && exists header, raw: Bytes ::
                   && written == old(written) + [Written(header, Some(f)), Written(raw, Some(f))]
                   && header + raw == Frame(hub.serialize(command))
      ensures Followed(old(departures), old(PeerView()))
      ensures old(InOrder()) ==> InOrder()
    {
      if keep.None? {
        SendMessage(command, Some(IsCommandResult));
      } else {
        SendMessage(command, keep);
      }
      result := WaitForMessage(None, batches);
    }

    /** `close`: the NOP it sends itself is dropped, so both queues stay as they are. */
    method Close(nop: Message)
      modifies `isOpen, `closing, `messages, `msgQueue, `arrivals
      ensures old(isOpen) && !old(closing) ==>
                Routing() == old(Routing()).(isOpen := false, closing := false)
      ensures !(old(isOpen) && !old(closing)) ==> Routing() == old(Routing())
      ensures old(InOrder()) ==> InOrder()
    {
      if !isOpen || closing { return; }
      closing := true;
      OnMessageReceived(nop);
      isOpen := false;
      closing := false;
    }
  }

  lemma EmitOne(hub: Hub, start: Router.State, emitted: seq<Bytes>, payload: Bytes)
    ensures Router.Deliver(start, hub.ParseAll(emitted + [payload])) ==
            if hub.parse(payload).Good?
            then Router.Receive(Router.Deliver(start, hub.ParseAll(emitted)), hub.parse(payload).message)
            else Router.Deliver(start, hub.ParseAll(emitted))
  {
    ParseOneMore(hub, emitted, payload);
    if hub.parse(payload).Good? {
      DeliverSnoc(start, hub.ParseAll(emitted), hub.parse(payload).message);
    }
  }

  /** What the connector has been given since `past`, after one more departure. */
  lemma FollowOneMore(hub: Hub, view: Option<Endpoint.State>, past: seq<Router.Departure>, departures: seq<Router.Departure>,
                      next: Router.Departure)
    requires past <= departures
    ensures var before := Router.DispatchedMessages(departures[|past|..]);
            var after := Router.DispatchedMessages((departures + [next])[|past|..]);
            && (next.fate != Router.Dispatched ==> after == before)
            && (view.Some? && next.fate == Router.Dispatched ==>
                  Endpoint.DispatchAll(hub, view.value, after)
                  == Endpoint.Dispatch(hub, Endpoint.DispatchAll(hub, view.value, before), next.message))
  {
    var recent := departures[|past|..];
    assert (departures + [next])[|past|..] == recent + [next];
    Router.DispatchedSnoc(recent, next);
    var before := Router.DispatchedMessages(recent);
    assert (before + [next.message])[..|before|] == before;
  }

  lemma {:induction false} DeliverSnoc(start: Router.State, batch: seq<Message>, m: Message)
    ensures Router.Deliver(start, batch + [m]) == Router.Receive(Router.Deliver(start, batch), m)
    decreases |batch|
  {
    if batch == [] {
      assert batch + [m] == [m] && [m][1..] == [];
    } else {
      assert (batch + [m])[1..] == batch[1..] + [m];
      DeliverSnoc(Router.Receive(start, batch[0]), batch[1..], m);
    }
  }

  /** Framed messages, any noise and any chunks: exactly the messages sent come out. */
  lemma LinkDecodes(hub: Hub, sent: seq<Message>, segments: seq<Segment>, tail: Bytes,
                    bufs: seq<Bytes>, chunks: seq<Bytes>, outs: seq<seq<Message>>, raised: seq<bool>)
    requires hub.Faithful()
    requires WellFormed(segments) && Clean(tail) && !EndsWithEmptyFrame(segments, tail)
    requires Sent(segments) == hub.SerializeAll(sent)
    requires Concat(chunks) == Wire(segments, tail) && TakeRun(hub, bufs, chunks, outs, raised)
    ensures Concat(outs) == sent && (chunks != [] ==> !raised[|chunks| - 1])
  {
    FramingRoundTrip(segments, tail);
    TakeRunIs(hub, bufs, chunks, outs, raised);
    SerializedComesOut(hub, sent);
    LeftIffRaised(hub, hub.SerializeAll(sent));
  }

  /** From one end of the link to the other: messages framed with noise in between,
      cut into any chunks, and routed under any interleaving of the threads, are
      all accepted, in order and once each; each queue has passed on, or still
      holds, exactly those routed to it, in that order. */
  lemma LinkDeliversInOrder(hub: Hub, sent: seq<Message>, segments: seq<Segment>, tail: Bytes,
                            bufs: seq<Bytes>, chunks: seq<Bytes>, outs: seq<seq<Message>>, raised: seq<bool>,
                            actions: seq<Router.Action>)
    requires hub.Faithful()
    requires WellFormed(segments) && Clean(tail) && !EndsWithEmptyFrame(segments, tail)
    requires Sent(segments) == hub.SerializeAll(sent)
    requires Concat(chunks) == Wire(segments, tail) && TakeRun(hub, bufs, chunks, outs, raised)
    requires Router.Incoming(actions) == Concat(outs) && Router.BeginClose !in actions
    ensures var s := Router.Run(Router.INITIAL, actions);
            Router.ArrivalMessages(s.arrivals) == sent && Router.InOrder(s)
    ensures chunks != [] ==> !raised[|chunks| - 1]
  {
    LinkDecodes(hub, sent, segments, tail, bufs, chunks, outs, raised);
    Router.AllAcceptedFromStart(actions);
  }
}
