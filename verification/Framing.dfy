/** The wire format of the host/device link (whad/device/device.py): a frame is
    AC BE, a 16-bit little-endian length, and the payload.  `Decode` is the
    canonical decoder; the buffers kept by the program agree with it up to
    `Strip`. */
module Framing {
  import opened ByteStrings

  const MAGIC_0: Byte := 0xAC
  const MAGIC_1: Byte := 0xBE
  const MAX_PAYLOAD: nat := 65535

  /** What `send_message` writes: the length field keeps the low 16 bits only. */
  function Frame(payload: Bytes): (f: Bytes)
    ensures |f| == 4 + |payload|
  {
    [MAGIC_0, MAGIC_1, ByteOf(|payload|), ByteOf(|payload| / 256)] + payload
  }

  /** Magic, length least significant byte first, payload; a length over 16 bits wraps. */
  lemma FrameLayout(payload: Bytes)
    ensures var f := Frame(payload);
            && f[..2] == [0xAC, 0xBE] && f[4..] == payload
            && f[2..4] == LittleEndian(|payload|, 2) && PayloadSize(f) == |payload| % 0x1_0000
    ensures |payload| == 258 ==> Frame(payload)[..4] == [0xAC, 0xBE, 2, 1]
  {
    LittleEndianAt(|payload|, 2, 0);
    LittleEndianAt(|payload|, 2, 1);
    LittleEndianAt(|payload| / 256, 2, 0);
    assert Frame(payload)[2..4] == LittleEndian(|payload|, 2);
  }

  predicate IsHeader(s: Bytes) {
    |s| >= 2 && s[0] == MAGIC_0 && s[1] == MAGIC_1
  }

  function PayloadSize(s: Bytes): (n: nat)
    requires |s| >= 4
    ensures n <= MAX_PAYLOAD
  {
    s[2] as int + 256 * (s[3] as int)
  }

  /** A frame is only read once a fifth byte is there. */
  predicate Complete(s: Bytes) {
    IsHeader(s) && |s| > 4 && |s| >= 4 + PayloadSize(s)
  }

  /** Drop leading bytes until AC BE comes first or fewer than two are left. */
  function Strip(s: Bytes): (r: Bytes)
    ensures |r| <= |s|
    ensures |r| < 2 || IsHeader(r)
  {
    if |s| < 2 || IsHeader(s) then s else Strip(s[1..])
  }

  /** The payloads in `s`, and the canonical rest. */
  function Decode(s: Bytes): (r: (seq<Bytes>, Bytes))
    decreases |s|
  {
    var t := Strip(s);
    if Complete(t) then
      var n := PayloadSize(t);
      var rest := Decode(t[4 + n..]);
      ([t[4..4 + n]] + rest.0, rest.1)
    else
      ([], t)
  }

  function Payloads(s: Bytes): seq<Bytes> { Decode(s).0 }

  function Rest(s: Bytes): Bytes { Decode(s).1 }

  /** Two buffers that no later input can tell apart. */
  predicate Equivalent(r: Bytes, r': Bytes) {
    Strip(r) == Strip(r')
  }

  // ----- Stripping and decoding commute with appending -----

  lemma {:induction false} StripAppend(a: Bytes, b: Bytes)
    ensures Strip(a + b) == Strip(Strip(a) + b)
  {
    if |a| >= 2 && !IsHeader(a) {
      assert (a + b)[1..] == a[1..] + b;
      StripAppend(a[1..], b);
    }
  }

  lemma DecodeStrip(s: Bytes)
    ensures Decode(Strip(s)) == Decode(s)
  {
    assert Strip(Strip(s)) == Strip(s);
  }

  /** Equivalent buffers decode alike whatever comes next. */
  lemma EquivalentForever(r: Bytes, r': Bytes, data: Bytes)
    requires Equivalent(r, r')
    ensures Decode(r + data) == Decode(r' + data)
  {
    StripAppend(r, data);
    StripAppend(r', data);
    DecodeStrip(r + data);
    DecodeStrip(r' + data);
  }

  /** The frame in front stays in front, and is decoded first. */
  lemma DecodeFront(t: Bytes, b: Bytes)
    requires Complete(t)
    ensures var n := PayloadSize(t);
            Decode(t + b) == ([t[4..4 + n]] + Payloads(t[4 + n..] + b), Rest(t[4 + n..] + b))
  {
    var n := PayloadSize(t);
    assert Strip(t + b) == t + b && Complete(t + b) && PayloadSize(t + b) == n;
    assert (t + b)[4 + n..] == t[4 + n..] + b;
    assert (t + b)[4..4 + n] == t[4..4 + n];
  }

  lemma DecodeStripped(a: Bytes, b: Bytes)
    ensures Decode(a + b) == Decode(Strip(a) + b)
  {
    StripAppend(a, b);
    DecodeStrip(a + b);
    DecodeStrip(Strip(a) + b);
  }

  /** Decoding `a + b` goes on where decoding `a` stopped. */
  ghost predicate Incremental(a: Bytes, b: Bytes) {
    Decode(a + b) == (Payloads(a) + Payloads(Rest(a) + b), Rest(Rest(a) + b))
  }

  lemma IncrementalFront(t: Bytes, b: Bytes)
    requires Complete(t) && Incremental(t[4 + PayloadSize(t)..], b)
    ensures Incremental(t, b)
  {
    var first, next := [t[4..4 + PayloadSize(t)]], t[4 + PayloadSize(t)..];
    DecodeFront(t, b);
    assert Decode(t) == (first + Payloads(next), Rest(next));
    AppendAssociates(first, Payloads(next), Payloads(Rest(next) + b));
  }

  lemma {:induction false} AlwaysIncremental(a: Bytes, b: Bytes)
    ensures Incremental(a, b)
    decreases |a|
  {
    var t := Strip(a);
    assert Incremental(t, b) by {
      if Complete(t) {
        AlwaysIncremental(t[4 + PayloadSize(t)..], b);
        IncrementalFront(t, b);
      } else {
        assert Strip(t) == t && Decode(t) == ([], t);
        assert [] + Payloads(t + b) == Payloads(t + b);
      }
    }
    DecodeStripped(a, b);
    DecodeStrip(a);
  }

  lemma DecodeAppend(a: Bytes, b: Bytes)
    ensures Payloads(a + b) == Payloads(a) + Payloads(Rest(a) + b)
    ensures Rest(a + b) == Rest(Rest(a) + b)
  {
    AlwaysIncremental(a, b);
  }

  lemma {:induction false} PayloadsAreShort(s: Bytes)
    ensures forall p :: p in Payloads(s) ==> |p| <= MAX_PAYLOAD
    decreases |s|
  {
    var t := Strip(s);
    if Complete(t) {
      PayloadsAreShort(t[4 + PayloadSize(t)..]);
    }
  }

  /** The canonical rest holds at most one incomplete frame. */
  lemma {:induction false} RestIsBounded(s: Bytes)
    ensures |Rest(s)| <= MAX_PAYLOAD + 3
    ensures Strip(Rest(s)) == Rest(s) && !Complete(Rest(s))
    decreases |s|
  {
    var t := Strip(s);
    if Complete(t) {
      RestIsBounded(t[4 + PayloadSize(t)..]);
    }
  }

  /** A complete frame in front stays in front whatever is received after it. */
  lemma FirstFrameStays(buffer: Bytes, data: Bytes)
    requires Payloads(buffer) != []
    ensures Payloads(buffer + data) != [] && Payloads(buffer + data)[0] == Payloads(buffer)[0]
  {
    DecodeAppend(buffer, data);
  }

  /** Of `whole`, the payloads `emitted` have been taken out and `buffer` is left. */
  ghost predicate Consumed(whole: Bytes, emitted: seq<Bytes>, buffer: Bytes) {
    Payloads(whole) == emitted + Payloads(buffer) && Rest(whole) == Rest(buffer)
  }

  lemma ConsumeFrame(whole: Bytes, emitted: seq<Bytes>, buffer: Bytes)
    requires Consumed(whole, emitted, buffer) && Complete(buffer)
    ensures var n := PayloadSize(buffer);
            Consumed(whole, emitted + [buffer[4..4 + n]], buffer[4 + n..])
  {
    var n := PayloadSize(buffer);
    assert Payloads(buffer) == [buffer[4..4 + n]] + Payloads(buffer[4 + n..]);
  }

  /** With no complete frame in front, everything has been taken out. */
  lemma ConsumedAll(whole: Bytes, emitted: seq<Bytes>, buffer: Bytes)
    requires Consumed(whole, emitted, buffer) && (|buffer| <= 2 || (IsHeader(buffer) && !Complete(buffer)))
    ensures Payloads(buffer) == [] && emitted == Payloads(whole) && Equivalent(buffer, Rest(whole))
    ensures |buffer| <= MAX_PAYLOAD + 3
  {
    assert Decode(buffer) == ([], Strip(buffer));
    assert emitted + [] == emitted;
    DecodeStrip(buffer);
    RestIsBounded(buffer);
  }

  /** The inner loop of all three decoders: drops bytes until a header may start. */
  method SkipGarbage(buffer: Bytes) returns (rest: Bytes)
    requires |buffer| > 2 && !IsHeader(buffer)
    ensures rest == Strip(buffer) && |rest| < |buffer| && Decode(rest) == Decode(buffer)
  {
    rest := buffer;
    while |rest| >= 2
      invariant Strip(rest) == Strip(buffer) && |rest| <= |buffer|
      invariant |rest| == |buffer| ==> rest == buffer
      decreases |rest|
    {
      if rest[0] != MAGIC_0 || rest[1] != MAGIC_1 {
        rest := rest[1..];
      } else {
        break;
      }
    }
    DecodeStrip(buffer);
  }

  // ----- Chunking independence -----

  /** One `on_data_received` call: from buffer `r`, on input `data`, it emits
      `out` and leaves some buffer `r'` equivalent to the canonical rest. */
  ghost predicate Received(r: Bytes, data: Bytes, out: seq<Bytes>, r': Bytes) {
    out == Payloads(r + data) && Equivalent(r', Rest(r + data))
  }

  /** A run: call `i` takes `chunks[i]` from buffer `bufs[i]` to `bufs[i + 1]`. */
  ghost predicate ReceiveRun(bufs: seq<Bytes>, chunks: seq<Bytes>, outs: seq<seq<Bytes>>) {
    && |bufs| == |chunks| + 1 && |outs| == |chunks|
    && bufs[0] == []
    && forall i :: 0 <= i < |chunks| ==> Received(bufs[i], chunks[i], outs[i], bufs[i + 1])
  }

  /** However the stream is cut, the run emits what one call on the whole
      stream emits, and ends in an equivalent buffer. */
  lemma {:induction false} ChunkingIndependence(bufs: seq<Bytes>, chunks: seq<Bytes>, outs: seq<seq<Bytes>>)
    requires ReceiveRun(bufs, chunks, outs)
    ensures Concat(outs) == Payloads(Concat(chunks))
    ensures Equivalent(bufs[|chunks|], Rest(Concat(chunks)))
    decreases |chunks|
  {
    var n := |chunks|;
    if n > 0 {
      var front := chunks[..n - 1];
      ChunkingIndependence(bufs[..n], front, outs[..n - 1]);
      assert chunks == front + [chunks[n - 1]] && outs == outs[..n - 1] + [outs[n - 1]];
      ConcatSnoc(front, chunks[n - 1]);
      ConcatSnoc(outs[..n - 1], outs[n - 1]);
      var whole := Concat(front);
      DecodeAppend(whole, chunks[n - 1]);
      EquivalentForever(bufs[n - 1], Rest(whole), chunks[n - 1]);
      assert Received(bufs[n - 1], chunks[n - 1], outs[n - 1], bufs[n]);
    }
  }

  // ----- Round trip with resynchronisation -----

  /** Noise, then one framed payload. */
  datatype Segment = Segment(noise: Bytes, payload: Bytes)

  /** Noise without the pair AC BE. */
  ghost predicate Clean(noise: Bytes) {
    forall i :: 0 <= i < |noise| - 1 ==> !(noise[i] == MAGIC_0 && noise[i + 1] == MAGIC_1)
  }

  ghost predicate WellFormed(segments: seq<Segment>) {
    forall s :: s in segments ==> Clean(s.noise) && |s.payload| <= MAX_PAYLOAD
  }

  function Wire(segments: seq<Segment>, tail: Bytes): Bytes {
    if segments == [] then tail
    else segments[0].noise + (Frame(segments[0].payload) + Wire(segments[1..], tail))
  }

  function Sent(segments: seq<Segment>): (r: seq<Bytes>)
    ensures |r| == |segments|
  {
    if segments == [] then [] else [segments[0].payload] + Sent(segments[1..])
  }

  lemma {:induction false} StripNoise(noise: Bytes, payload: Bytes, rest: Bytes)
    requires Clean(noise)
    ensures Strip(noise + (Frame(payload) + rest)) == Frame(payload) + rest
  {
    var s := noise + (Frame(payload) + rest);
    if noise == [] {
      assert s == Frame(payload) + rest;
    } else {
      assert s[1..] == noise[1..] + (Frame(payload) + rest);
      assert !IsHeader(s) by {
        assert |noise| == 1 ==> s[1] == MAGIC_0;
      }
      StripNoise(noise[1..], payload, rest);
    }
  }

  lemma {:induction false} StripCleanTail(tail: Bytes)
    requires Clean(tail)
    ensures |Strip(tail)| < 2
  {
    if |tail| >= 2 {
      StripCleanTail(tail[1..]);
    }
  }

  lemma DecodeFirstFrame(noise: Bytes, payload: Bytes, rest: Bytes)
    requires Clean(noise) && |payload| <= MAX_PAYLOAD
    ensures payload != [] || rest != [] ==>
              Payloads(noise + (Frame(payload) + rest)) == [payload] + Payloads(rest)
    ensures payload == [] && rest == [] ==> Payloads(noise + (Frame(payload) + rest)) == []
  {
    var t := Frame(payload) + rest;
    StripNoise(noise, payload, rest);
    assert PayloadSize(t) == |payload|;
    assert t[4..4 + |payload|] == payload;
    assert t[4 + |payload|..] == rest;
  }

  /** The last frame is still waiting for a fifth byte. */
  ghost predicate EndsWithEmptyFrame(segments: seq<Segment>, tail: Bytes) {
    segments != [] && segments[|segments| - 1].payload == [] && tail == []
  }

  /** The payloads that a reader can get: all but a last empty one that nothing follows. */
  ghost function Readable(segments: seq<Segment>, tail: Bytes): seq<Bytes> {
    if EndsWithEmptyFrame(segments, tail) then Sent(segments)[..|segments| - 1] else Sent(segments)
  }

  lemma ReadableCons(segments: seq<Segment>, tail: Bytes)
    requires |segments| > 1
    ensures Readable(segments, tail) == [segments[0].payload] + Readable(segments[1..], tail)
    ensures Wire(segments[1..], tail) != []
  {
    var rest := segments[1..];
    assert |Frame(rest[0].payload)| >= 4;
    assert rest[|rest| - 1] == segments[|segments| - 1];
    if EndsWithEmptyFrame(rest, tail) {
      assert Sent(segments)[..|segments| - 1] == [segments[0].payload] + Sent(rest)[..|rest| - 1];
    }
  }

  /** The decoder emits exactly the payloads sent, unless the stream stops right
      after an empty frame; then exactly that one is missing. */
  lemma {:induction false} FramingRoundTrip(segments: seq<Segment>, tail: Bytes)
    requires WellFormed(segments) && Clean(tail)
    ensures Payloads(Wire(segments, tail)) == Readable(segments, tail)
    decreases |segments|
  {
    if segments == [] {
      StripCleanTail(tail);
    } else {
      assert segments[0] in segments;
      DecodeFirstFrame(segments[0].noise, segments[0].payload, Wire(segments[1..], tail));
      FramingRoundTrip(segments[1..], tail);
      if |segments| > 1 {
        ReadableCons(segments, tail);
      }
    }
  }

  /** The same for every way of cutting the stream into calls: all payloads
      arrive, in order, if and only if the stream does not end in an empty frame. */
  lemma ChunkedRoundTrip(segments: seq<Segment>, tail: Bytes,
                         bufs: seq<Bytes>, chunks: seq<Bytes>, outs: seq<seq<Bytes>>)
    requires WellFormed(segments) && Clean(tail)
    requires Concat(chunks) == Wire(segments, tail) && ReceiveRun(bufs, chunks, outs)
    ensures Concat(outs) == Sent(segments) <==> !EndsWithEmptyFrame(segments, tail)
  {
    ChunkingIndependence(bufs, chunks, outs);
    FramingRoundTrip(segments, tail);
    assert |Sent(segments)| == |segments|;
  }

  /** One frame alone decodes to its payload exactly for 1 to 65535 bytes. */
  lemma SingleFrameRoundTrip(payload: Bytes)
    ensures Payloads(Frame(payload)) == [payload] <==> 1 <= |payload| <= MAX_PAYLOAD
  {
    if |payload| <= MAX_PAYLOAD {
      DecodeFirstFrame([], payload, []);
      assert [] + (Frame(payload) + []) == Frame(payload);
    } else if Payloads(Frame(payload)) == [payload] {
      PayloadsAreShort(Frame(payload));
    }
  }
}
