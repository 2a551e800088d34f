/** The TCP socket server connector (whad/device/tcp.py). */
module TcpSocket {
  import opened ByteStrings
  import opened Messages
  import opened Framing
  import opened Parsing
  import opened Relay
  import opened Device

  class TcpSocketConnector {
    var device: WhadDevice
    var inpipe: Bytes
    var hasClient: bool
    var clientBytes: Bytes

    constructor (device: WhadDevice)
      ensures this.device == device && inpipe == [] && !hasClient && clientBytes == []
    {
      this.device, inpipe, hasClient, clientBytes := device, [], false, [];
    }

    /** `on_data_received`: forwards every message, skips what does not decode, and stops
        at the first payload that the parser raises on, which stays in front. */
    method OnDataReceived(data: Bytes) returns (raised: bool)
      modifies `inpipe, device`mqFilter, device`written
      ensures device.mqFilter == old(device.mqFilter)
      ensures var payloads := Payloads(old(inpipe) + data);
              && BytesOf(device.written) == BytesOf(old(device.written)) + FrameAll(device.hub, Out(device.hub, payloads))
              && Took(device.hub, old(inpipe), data, Out(device.hub, payloads), raised, inpipe)
      ensures !raised ==> Equivalent(inpipe, Rest(old(inpipe) + data)) && |inpipe| <= MAX_PAYLOAD + 3
    {
      inpipe := inpipe + data;
      ghost var emitted;
      raised, emitted := Drain();
      GoodPrefixIs(device.hub, emitted, Payloads(inpipe));
    }

    /** The loop: forwards the messages of the payloads `emitted`, and stops with nothing
        complete left, or with a payload in front that the parser raises on. */
    method Drain() returns (raised: bool, ghost emitted: seq<Bytes>)
      modifies `inpipe, device`mqFilter, device`written
      ensures device.mqFilter == old(device.mqFilter)
      ensures Consumed(old(inpipe), emitted, inpipe)
      ensures forall p :: p in emitted ==> device.hub.parse(p) != Raised
      ensures BytesOf(device.written) ==
              BytesOf(old(device.written)) + FrameAll(device.hub, device.hub.ParseAll(emitted))
      ensures if raised then Payloads(inpipe) != [] && device.hub.parse(Payloads(inpipe)[0]) == Raised
              else Payloads(inpipe) == [] && Equivalent(inpipe, Rest(old(inpipe))) && |inpipe| <= MAX_PAYLOAD + 3
    {
      raised, emitted := false, [];
      ghost var base := BytesOf(device.written);
      assert base + FrameAll(device.hub, device.hub.ParseAll(emitted)) == base;
      while |inpipe| > 2
        invariant Consumed(old(inpipe), emitted, inpipe)
        invariant !raised && forall p :: p in emitted ==> device.hub.parse(p) != Raised
        invariant device.mqFilter == old(device.mqFilter)
        invariant Relayed(device.hub, base, emitted, device.written)
        decreases |inpipe|
      {
        if inpipe[0] == MAGIC_0 && inpipe[1] == MAGIC_1 {
          if |inpipe| > 4 {
            var msgSize := PayloadSize(inpipe);
            if |inpipe| >= msgSize + 4 {
              ghost var rawMessage := inpipe[4..4 + msgSize];
              ConsumeFrame(old(inpipe), emitted, inpipe);
              raised := TakeFrame(msgSize, base, emitted);
              if raised {
                return;
              }
              emitted := emitted + [rawMessage];
            } else {
              break;
            }
          } else {
            break;
          }
        } else {
          inpipe := SkipGarbage(inpipe);
        }
      }
      ConsumedAll(old(inpipe), emitted, inpipe);
    }

    /** Parses the frame in front, forwards its message if there is one, and chomps it. */
    method TakeFrame(msgSize: nat, ghost base: Bytes, ghost emitted: seq<Bytes>) returns (raised: bool)
      requires |inpipe| >= msgSize + 4 && Relayed(device.hub, base, emitted, device.written)
      modifies `inpipe, device`mqFilter, device`written
      ensures device.mqFilter == old(device.mqFilter)
      ensures raised <==> device.hub.parse(old(inpipe)[4..4 + msgSize]) == Raised
      ensures raised ==> inpipe == old(inpipe) && device.written == old(device.written)
      ensures !raised ==>
                && inpipe == old(inpipe)[4 + msgSize..]
                && Relayed(device.hub, base, emitted + [old(inpipe)[4..4 + msgSize]], device.written)
    {
      var rawMessage := inpipe[4..4 + msgSize];
      RelayOneMore(device.hub, base, emitted, rawMessage);
      match device.hub.parse(rawMessage) {
        case Raised => return true;
        case Good(msg) => Forward(device, msg);
        case Skipped =>
      }
      inpipe := inpipe[msgSize + 4..];
      return false;
    }

    /** `on_any_msg`: the other direction, towards the client if there is one. */
    method OnAnyMsg(message: Message)
      modifies `clientBytes
      ensures clientBytes == old(clientBytes) + if hasClient then Frame(device.hub.serialize(message)) else []
    {
      if hasClient {
        clientBytes := AppendFrame(clientBytes, device.hub, message);
      }
    }
  }
}
