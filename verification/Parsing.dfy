/** How the decoders go on with the payloads they find: each is parsed before its frame
    is removed, so one that the parser raises on stays in front. */
module Parsing {
  import opened ByteStrings
  import opened Messages
  import opened Framing

  /** How many payloads come before the first that the parser raises on. */
  function GoodPrefix(hub: Hub, payloads: seq<Bytes>): (k: nat)
    ensures k <= |payloads|
    ensures forall i :: 0 <= i < k ==> hub.parse(payloads[i]) != Raised
    ensures k < |payloads| ==> hub.parse(payloads[k]) == Raised
  {
    if payloads == [] || hub.parse(payloads[0]) == Raised then 0 else 1 + GoodPrefix(hub, payloads[1..])
  }

  lemma {:induction false} GoodPrefixAppend(hub: Hub, a: seq<Bytes>, b: seq<Bytes>)
    ensures GoodPrefix(hub, a + b) ==
            if GoodPrefix(hub, a) < |a| then GoodPrefix(hub, a) else |a| + GoodPrefix(hub, b)
  {
    if a == [] {
      assert a + b == b;
    } else {
      assert (a + b)[1..] == a[1..] + b;
      GoodPrefixAppend(hub, a[1..], b);
    }
  }

  lemma {:induction false} AllGood(hub: Hub, good: seq<Bytes>)
    requires forall p :: p in good ==> hub.parse(p) != Raised
    ensures GoodPrefix(hub, good) == |good|
  {
    if good != [] {
      AllGood(hub, good[1..]);
    }
  }

  lemma GoodPrefixIs(hub: Hub, good: seq<Bytes>, rest: seq<Bytes>)
    requires forall p :: p in good ==> hub.parse(p) != Raised
    requires rest == [] || hub.parse(rest[0]) == Raised
    ensures GoodPrefix(hub, good + rest) == |good|
    ensures (good + rest)[..|good|] == good && (good + rest)[|good|..] == rest
  {
    AllGood(hub, good);
    GoodPrefixAppend(hub, good, rest);
  }

  lemma ParseOneMore(hub: Hub, payloads: seq<Bytes>, p: Bytes)
    ensures hub.ParseAll(payloads + [p]) ==
            if hub.parse(p).Good? then hub.ParseAll(payloads) + [hub.parse(p).message] else hub.ParseAll(payloads)
  {
    ParseAllAppend(hub, payloads, [p]);
    assert [p][1..] == [] && hub.ParseAll([]) == [];
    assert hub.ParseAll([p]) == if hub.parse(p).Good? then [hub.parse(p).message] else [];
    assert hub.ParseAll(payloads) + [] == hub.ParseAll(payloads);
  }

  /** The messages that come out of payloads `p`, and the payloads that stay in the buffer. */
  function Out(hub: Hub, p: seq<Bytes>): seq<Message> { hub.ParseAll(p[..GoodPrefix(hub, p)]) }

  function Left(hub: Hub, p: seq<Bytes>): seq<Bytes> { p[GoodPrefix(hub, p)..] }

  /** What is serialised parses, so the parser raises on none of it. */
  lemma {:induction false} SerializedComesOut(hub: Hub, messages: seq<Message>)
    requires hub.Faithful()
    ensures Out(hub, hub.SerializeAll(messages)) == messages && Left(hub, hub.SerializeAll(messages)) == []
  {
    if messages == [] {
      assert hub.ParseAll([]) == [];
    } else {
      var first, rest := hub.serialize(messages[0]), hub.SerializeAll(messages[1..]);
      SerializedComesOut(hub, messages[1..]);
      AllGood(hub, [first]);
      OutIsIncremental(hub, [first], rest);
      assert [first][..1] == [first] && [first][1..] + rest == rest;
      assert hub.ParseAll([first]) == [messages[0]] + hub.ParseAll([]) == [messages[0]];
    }
  }

  // ----- Runs of a decoder whose parser may raise -----

  /** One `on_data_received` call: it emits the messages of the payloads before the first
      that the parser raises on, and leaves that one and all after it in the buffer. */
  ghost predicate Took(hub: Hub, r: Bytes, data: Bytes, out: seq<Message>, raised: bool, r': Bytes) {
    var payloads := Payloads(r + data);
    && out == Out(hub, payloads) && (raised <==> Left(hub, payloads) != [])
    && Payloads(r') == Left(hub, payloads) && Rest(r') == Rest(r + data)
  }

  ghost predicate TakeRun(hub: Hub, bufs: seq<Bytes>, chunks: seq<Bytes>, outs: seq<seq<Message>>, raised: seq<bool>) {
    && |bufs| == |chunks| + 1 && |outs| == |raised| == |chunks|
    && bufs[0] == []
    && forall i :: 0 <= i < |chunks| ==> Took(hub, bufs[i], chunks[i], outs[i], raised[i], bufs[i + 1])
  }

  lemma GoodPrefixSplits(hub: Hub, p: seq<Bytes>, more: seq<Bytes>)
    ensures GoodPrefix(hub, p + more) == GoodPrefix(hub, p) + GoodPrefix(hub, Left(hub, p) + more)
    ensures p + more == p[..GoodPrefix(hub, p)] + (Left(hub, p) + more)
  {
    var k := GoodPrefix(hub, p);
    AllGood(hub, p[..k]);
    assert p + more == p[..k] + (p[k..] + more);
    GoodPrefixAppend(hub, p[..k], p[k..] + more);
  }

  /** Going on with `more` from what was left is going on with it from all. */
  lemma OutIsIncremental(hub: Hub, p: seq<Bytes>, more: seq<Bytes>)
    ensures Out(hub, p + more) == Out(hub, p) + Out(hub, Left(hub, p) + more)
    ensures Left(hub, p + more) == Left(hub, Left(hub, p) + more)
  {
    var good, next := p[..GoodPrefix(hub, p)], Left(hub, p) + more;
    var k, m := |good|, GoodPrefix(hub, next);
    GoodPrefixSplits(hub, p, more);
    assert (good + next)[..k + m] == good + next[..m];
    assert (good + next)[k + m..] == next[m..];
    ParseAllAppend(hub, good, next[..m]);
  }

  /** After the stream `whole`, these messages have come out and this buffer is left. */
  ghost predicate SoFar(hub: Hub, whole: Bytes, out: seq<Message>, buffer: Bytes) {
    && out == Out(hub, Payloads(whole))
    && Payloads(buffer) == Left(hub, Payloads(whole)) && Rest(buffer) == Rest(whole)
  }

  lemma TookOneMore(hub: Hub, whole: Bytes, before: seq<Message>, r: Bytes, data: Bytes, out: seq<Message>, raised: bool, r': Bytes)
    requires SoFar(hub, whole, before, r) && Took(hub, r, data, out, raised, r')
    ensures SoFar(hub, whole + data, before + out, r')
    ensures raised <==> Left(hub, Payloads(whole + data)) != []
  {
    DecodeAppend(whole, data);
    DecodeAppend(r, data);
    OutIsIncremental(hub, Payloads(whole), Payloads(Rest(whole) + data));
  }

  /** However the stream is cut: the messages that come out are those of the payloads
      before the first that the parser raises on, and the last call raises exactly if there
      is such a payload; from then on no call makes progress. */
  lemma {:induction false} TakeRunIs(hub: Hub, bufs: seq<Bytes>, chunks: seq<Bytes>, outs: seq<seq<Message>>, raised: seq<bool>)
    requires TakeRun(hub, bufs, chunks, outs, raised)
    ensures SoFar(hub, Concat(chunks), Concat(outs), bufs[|chunks|])
    ensures chunks != [] ==>
              (raised[|chunks| - 1] <==> exists p :: p in Payloads(Concat(chunks)) && hub.parse(p) == Raised)
    decreases |chunks|
  {
    var n := |chunks|;
    if n > 0 {
      var front, data := chunks[..n - 1], chunks[n - 1];
      assert TakeRun(hub, bufs[..n], front, outs[..n - 1], raised[..n - 1]);
      TakeRunIs(hub, bufs[..n], front, outs[..n - 1], raised[..n - 1]);
      ConcatLast(chunks);
      ConcatLast(outs);
      TookOneMore(hub, Concat(front), Concat(outs[..n - 1]), bufs[n - 1], data, outs[n - 1], raised[n - 1], bufs[n]);
      LeftIffRaised(hub, Payloads(Concat(chunks)));
    }
  }

  lemma ConcatLast<T>(parts: seq<seq<T>>)
    requires parts != []
    ensures Concat(parts) == Concat(parts[..|parts| - 1]) + parts[|parts| - 1]
  {
    assert parts == parts[..|parts| - 1] + [parts[|parts| - 1]];
    ConcatSnoc(parts[..|parts| - 1], parts[|parts| - 1]);
  }

  lemma LeftIffRaised(hub: Hub, payloads: seq<Bytes>)
    ensures Left(hub, payloads) != [] <==> exists p :: p in payloads && hub.parse(p) == Raised
  {
    var k := GoodPrefix(hub, payloads);
    if k < |payloads| {
      assert payloads[k] in payloads;
    }
  }

  /** Once stuck, always stuck: a payload the parser raises on is met again by every call,
      and nothing comes out. */
  lemma BadFrameStaysFirst(hub: Hub, buffer: Bytes, data: Bytes)
    requires Payloads(buffer) != [] && hub.parse(Payloads(buffer)[0]) == Raised
    ensures Out(hub, Payloads(buffer + data)) == [] && Left(hub, Payloads(buffer + data)) == Payloads(buffer + data) != []
  {
    FirstFrameStays(buffer, data);
  }

  /** An empty frame decodes to a message without content. If the parser raises on that, as
      the protocol hub does, the next byte is enough to block the decoder for good. */
  lemma EmptyFrameBlocks(hub: Hub, next: Byte, data: Bytes)
    requires hub.parse([]) == Raised
    ensures var payloads := Payloads(Frame([]) + ([next] + data));
            Out(hub, payloads) == [] && Left(hub, payloads) == payloads != []
  {
    DecodeFirstFrame([], [], [next] + data);
    assert [] + (Frame([]) + ([next] + data)) == Frame([]) + ([next] + data);
  }
}
