/** What the socket connectors (whad/device/tcp.py, whad/device/unix.py) do to a
    stream: every frame that parses is framed again for the device. */
module Relay {
  import opened ByteStrings
  import opened Messages
  import opened Framing
  import opened Parsing
  import opened Device

  /** Everything written, in order. */
  function BytesOf(written: seq<Written>): Bytes {
    if written == [] then [] else BytesOf(written[..|written| - 1]) + written[|written| - 1].data
  }

  function FrameAll(hub: Hub, messages: seq<Message>): Bytes {
    if messages == [] then []
    else FrameAll(hub, messages[..|messages| - 1]) + Frame(hub.serialize(messages[|messages| - 1]))
  }

  lemma BytesOfTwoWrites(before: seq<Written>, a: Written, b: Written)
    ensures BytesOf(before + [a, b]) == BytesOf(before) + (a.data + b.data)
  {
    assert (before + [a, b])[..|before| + 1] == before + [a];
    assert (before + [a])[..|before|] == before;
    assert BytesOf(before) + (a.data + b.data) == (BytesOf(before) + a.data) + b.data;
  }

  /** Sends one message on to the device. */
  method Forward(device: WhadDevice, msg: Message)
    modifies device`mqFilter, device`written
    ensures device.mqFilter == old(device.mqFilter)
    ensures BytesOf(device.written) == BytesOf(old(device.written)) + Frame(device.hub.serialize(msg))
  {
    ghost var before := device.written;
    device.SendMessage(msg, None);
    ghost var header, raw: Bytes :|
      && device.written == before + [Written(header, device.mqFilter), Written(raw, device.mqFilter)]
      && header + raw == Frame(device.hub.serialize(msg));
    BytesOfTwoWrites(before, Written(header, device.mqFilter), Written(raw, device.mqFilter));
  }

  /** The other direction: header, then payload, behind what the client has been sent. */
  method AppendFrame(sent: Bytes, hub: Hub, message: Message) returns (r: Bytes)
    ensures r == sent + Frame(hub.serialize(message))
  {
    var rawMessage := hub.serialize(message);
    var header: Bytes := [MAGIC_0, MAGIC_1, ByteOf(|rawMessage|), ByteOf(|rawMessage| / 256)];
    r := sent + header;
    r := r + rawMessage;
    assert header + rawMessage == Frame(hub.serialize(message));
  }

  lemma FrameOneMore(hub: Hub, base: Bytes, messages: seq<Message>, m: Message)
    ensures base + FrameAll(hub, messages + [m]) == (base + FrameAll(hub, messages)) + Frame(hub.serialize(m))
  {
    assert (messages + [m])[..|messages|] == messages;
  }

  /** After `base`, the frames of the payloads `emitted` that parse have been written. */
  ghost predicate Relayed(hub: Hub, base: Bytes, emitted: seq<Bytes>, written: seq<Written>) {
    BytesOf(written) == base + FrameAll(hub, hub.ParseAll(emitted))
  }

  /** One more payload relayed after `base`. */
  lemma RelayOneMore(hub: Hub, base: Bytes, payloads: seq<Bytes>, p: Bytes)
    ensures base + FrameAll(hub, hub.ParseAll(payloads + [p])) ==
            if hub.parse(p).Good?
            then (base + FrameAll(hub, hub.ParseAll(payloads))) + Frame(hub.serialize(hub.parse(p).message))
            else base + FrameAll(hub, hub.ParseAll(payloads))
  {
    ParseOneMore(hub, payloads, p);
    if hub.parse(p).Good? {
      FrameOneMore(hub, base, hub.ParseAll(payloads), hub.parse(p).message);
    }
  }

  /** A message that a frame can carry and that the decoder delivers at once. */
  ghost predicate Carried(hub: Hub, m: Message) {
    1 <= |hub.serialize(m)| <= MAX_PAYLOAD
  }

  lemma CarriedFrameDecodes(hub: Hub, m: Message)
    requires hub.Faithful() && Carried(hub, m)
    ensures Payloads(Frame(hub.serialize(m))) == [hub.serialize(m)]
    ensures Rest(Frame(hub.serialize(m))) == []
  {
    var f := Frame(hub.serialize(m));
    SingleFrameRoundTrip(hub.serialize(m));
    assert Strip(f) == f && PayloadSize(f) == |hub.serialize(m)|;
    assert f[4 + |hub.serialize(m)|..] == [] && Complete(f);
    assert Decode([]) == ([], []);
  }

  lemma OneMoreFrameDecodes(hub: Hub, stream: Bytes, m: Message)
    requires hub.Faithful() && Carried(hub, m) && Rest(stream) == []
    ensures var f := Frame(hub.serialize(m));
            Payloads(stream + f) == Payloads(stream) + [hub.serialize(m)] && Rest(stream + f) == []
  {
    var f := Frame(hub.serialize(m));
    CarriedFrameDecodes(hub, m);
    DecodeAppend(stream, f);
    assert [] + f == f;
  }

  lemma {:induction false} SerializeAllSnoc(hub: Hub, messages: seq<Message>, m: Message)
    ensures hub.SerializeAll(messages + [m]) == hub.SerializeAll(messages) + [hub.serialize(m)]
  {
    if messages == [] {
      assert messages + [m] == [m] && [m][1..] == [];
    } else {
      assert (messages + [m])[1..] == messages[1..] + [m];
      SerializeAllSnoc(hub, messages[1..], m);
    }
  }

  /** The frames written carry the messages forwarded, and leave nothing over. */
  lemma {:induction false} RelayedFrames(hub: Hub, messages: seq<Message>)
    requires hub.Faithful() && forall m :: m in messages ==> Carried(hub, m)
    ensures Payloads(FrameAll(hub, messages)) == hub.SerializeAll(messages) && Rest(FrameAll(hub, messages)) == []
  {
    if messages != [] {
      var front, m := messages[..|messages| - 1], messages[|messages| - 1];
      assert m in messages && messages == front + [m];
      RelayedFrames(hub, front);
      OneMoreFrameDecodes(hub, FrameAll(hub, front), m);
      SerializeAllSnoc(hub, front, m);
    }
  }

  /** What the relay writes decodes to the messages it forwarded, and leaves nothing over. */
  lemma RelayedStreamDecodes(hub: Hub, messages: seq<Message>)
    requires hub.Faithful() && forall m :: m in messages ==> Carried(hub, m)
    ensures Out(hub, Payloads(FrameAll(hub, messages))) == messages
    ensures Left(hub, Payloads(FrameAll(hub, messages))) == [] && Rest(FrameAll(hub, messages)) == []
  {
    RelayedFrames(hub, messages);
    SerializedComesOut(hub, messages);
  }

  /** A relay in the middle is transparent: the device at the other end decodes the same
      messages from the relayed stream as it would have from the original one, whatever
      noise that contained, and wherever the parser raised on it. */
  lemma RelayIsTransparent(hub: Hub, stream: Bytes)
    requires hub.Faithful()
    requires forall m :: m in Out(hub, Payloads(stream)) ==> Carried(hub, m)
    ensures Out(hub, Payloads(FrameAll(hub, Out(hub, Payloads(stream))))) == Out(hub, Payloads(stream))
  {
    RelayedStreamDecodes(hub, Out(hub, Payloads(stream)));
  }
}
