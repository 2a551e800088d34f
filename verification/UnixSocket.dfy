/** The Unix socket server connector (whad/device/unix.py). It forwards a message by its own
    `send_message`, which passes the device an argument that no device takes: that raises,
    before the frame has been removed from the buffer. */
module UnixSocket {
  import opened ByteStrings
  import opened Messages
  import opened Framing
  import opened Parsing
  import opened Relay
  import opened Device

  class UnixSocketConnector {
    var device: WhadDevice
    var inpipe: Bytes
    var hasClient: bool
    var clientBytes: Bytes

    constructor (device: WhadDevice)
      ensures this.device == device && inpipe == [] && !hasClient && clientBytes == []
    {
      this.device, inpipe, hasClient, clientBytes := device, [], false, [];
    }

    /** `send_message`: the device has no parameter `filter`. */
    method SendMessage(msg: Option<Message>) returns (raised: bool)
      ensures raised
    {
      return true;
    }

    /** `on_data_received`: raises exactly when there is a complete frame, whatever is in
        it. Nothing is sent to the device, and no frame leaves the buffer. */
    method OnDataReceived(data: Bytes) returns (raised: bool)
      modifies `inpipe
      ensures raised <==> Payloads(old(inpipe) + data) != []
      ensures inpipe == old(inpipe) + data || inpipe == Strip(old(inpipe) + data)
      ensures Decode(inpipe) == Decode(old(inpipe) + data)
      ensures !raised ==> Equivalent(inpipe, Rest(old(inpipe) + data)) && |inpipe| <= MAX_PAYLOAD + 3
    {
      raised := false;
      inpipe := inpipe + data;
      ghost var whole := inpipe;
      while |inpipe| > 2
        invariant !raised && Consumed(whole, [], inpipe)
        invariant inpipe == whole || inpipe == Strip(whole)
        decreases |inpipe|
      {
        if inpipe[0] == MAGIC_0 && inpipe[1] == MAGIC_1 {
          if |inpipe| > 4 {
            var msgSize := PayloadSize(inpipe);
            if |inpipe| >= msgSize + 4 {
              raised := TakeFrame(msgSize);
              ConsumeFrame(whole, [], inpipe);
              return;
            } else {
              break;
            }
          } else {
            break;
          }
        } else {
          inpipe := SkipGarbage(inpipe);
        }
      }
      ConsumedAll(whole, [], inpipe);
    }

    /** Parses the frame in front, which may raise, and sends the result on, which does; the
        frame is not chomped. */
    method TakeFrame(msgSize: nat) returns (raised: bool)
      requires |inpipe| >= msgSize + 4
      ensures raised
    {
      var rawMessage := inpipe[4..4 + msgSize];
      match device.hub.parse(rawMessage)
      case Raised => return true;
      case Good(msg) => raised := SendMessage(Some(msg));
      case Skipped => raised := SendMessage(None);
    }

    /** `on_any_msg`: the other direction, towards the client if there is one. */
    method OnAnyMsg(message: Message)
      modifies `clientBytes
      ensures clientBytes == old(clientBytes) + if hasClient then Frame(device.hub.serialize(message)) else []
    {
      if hasClient {
        clientBytes := AppendFrame(clientBytes, device.hub, message);
      }
    }
  }

  // ----- Runs -----

  /** One call, as `OnDataReceived` promises it. */
  ghost predicate Stuffed(r: Bytes, data: Bytes, raised: bool, r': Bytes) {
    Decode(r') == Decode(r + data) && (raised <==> Payloads(r + data) != [])
  }

  ghost predicate StuffRun(bufs: seq<Bytes>, chunks: seq<Bytes>, raised: seq<bool>) {
    && |bufs| == |chunks| + 1 && |raised| == |chunks| && bufs[0] == []
    && forall i :: 0 <= i < |chunks| ==> Stuffed(bufs[i], chunks[i], raised[i], bufs[i + 1])
  }

  /** The whole stream stays in the buffer, up to noise, and the last call raises exactly if
      it holds a frame. */
  lemma {:induction false} NothingLeaves(bufs: seq<Bytes>, chunks: seq<Bytes>, raised: seq<bool>)
    requires StuffRun(bufs, chunks, raised)
    ensures Decode(bufs[|chunks|]) == Decode(Concat(chunks))
    ensures chunks != [] ==> (raised[|chunks| - 1] <==> Payloads(Concat(chunks)) != [])
    decreases |chunks|
  {
    var n := |chunks|;
    if n > 0 {
      var front, data := chunks[..n - 1], chunks[n - 1];
      assert StuffRun(bufs[..n], front, raised[..n - 1]);
      NothingLeaves(bufs[..n], front, raised[..n - 1]);
      ConcatLast(chunks);
      assert Stuffed(bufs[n - 1], data, raised[n - 1], bufs[n]);
      SameDecode(bufs[n - 1], Concat(front), data);
    }
  }

  lemma SameDecode(a: Bytes, b: Bytes, data: Bytes)
    requires Decode(a) == Decode(b)
    ensures Decode(a + data) == Decode(b + data)
  {
    DecodeAppend(a, data);
    DecodeAppend(b, data);
  }

  /** However the stream is cut, a call raises exactly if the stream so far holds a complete
      frame: so every call does, from the one that completes the first frame on. */
  lemma RaisesForGood(bufs: seq<Bytes>, chunks: seq<Bytes>, raised: seq<bool>, i: nat)
    requires StuffRun(bufs, chunks, raised) && i < |chunks|
    ensures raised[i] <==> Payloads(Concat(chunks[..i + 1])) != []
    ensures raised[i] && i + 1 < |chunks| ==> raised[i + 1]
  {
    assert StuffRun(bufs[..i + 2], chunks[..i + 1], raised[..i + 1]);
    NothingLeaves(bufs[..i + 2], chunks[..i + 1], raised[..i + 1]);
    if raised[i] && i + 1 < |chunks| {
      assert Stuffed(bufs[i + 1], chunks[i + 1], raised[i + 1], bufs[i + 2]);
      FirstFrameStays(bufs[i + 1], chunks[i + 1]);
    }
  }

  /** One frame with a message that parses is enough. */
  lemma GoodFrameRaises(hub: Hub, m: Message)
    requires hub.Faithful() && Carried(hub, m)
    ensures var payloads := Payloads([] + Frame(hub.serialize(m)));
            payloads != [] && hub.parse(payloads[0]) == Good(m)
  {
    SingleFrameRoundTrip(hub.serialize(m));
    assert [] + Frame(hub.serialize(m)) == Frame(hub.serialize(m));
  }
}
