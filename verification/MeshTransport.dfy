/** Segmentation and reassembly of Bluetooth Mesh access messages
    (whad/btmesh/stack/lower_transport). */
module MeshTransport {
  import opened ByteStrings

  const SEQ_ZERO_RANGE: nat := 0x2000
  const OFFSET_RANGE: nat := 32
  const SEGMENT_SIZE: nat := 12
  const MAX_UNSEGMENTED: nat := 15

  /** Sequence numbers have 24 bits. */
  type SeqNumber = n: nat | n < 0x100_0000

  /** Five-bit fields. */
  type Offset = n: nat | n < OFFSET_RANGE

  /** What the layers know of a PDU: destination, sequence number, and the
      identifier of the application key (none for a device key). */
  datatype Context = Context(dst: Bytes, seqNumber: SeqNumber, aid: Option<nat>)

  datatype Body =
    | Whole(payload: Bytes)
    | Part(seqZero: nat, offset: Offset, last: Offset, payload: Bytes)

  datatype Pdu = Pdu(src: Bytes, ctx: Context, body: Body)

  // ----- SeqAuth: the sequence number of a message, under the IV index -----

  function SeqAuth(ivIndex: nat, seqNumber: SeqNumber): nat {
    ivIndex * 0x100_0000 + seqNumber
  }

  /** `calculate_seq_auth`: the IV index is or-ed to the left of the adjusted number,
      which disappears in the sign bits when that is negative. */
  function CalculateSeqAuth(ivIndex: nat, seqNumber: SeqNumber, seqZero: nat): int {
    var masked := seqNumber % SEQ_ZERO_RANGE;
    var adjusted := seqNumber - (masked - seqZero) - if masked < seqZero then SEQ_ZERO_RANGE else 0;
    if 0 <= adjusted < 0x100_0000 then SeqAuth(ivIndex, adjusted) else adjusted
  }

  /** The receiver of segment `i` recovers the SeqAuth of the message from 13 bits of
      it, exactly when `i` fits in 13 bits. */
  lemma SeqAuthRecovered(ivIndex: nat, base: SeqNumber, i: nat)
    requires base + i < 0x100_0000
    ensures CalculateSeqAuth(ivIndex, base + i, base % SEQ_ZERO_RANGE) == SeqAuth(ivIndex, base)
            <==> i < SEQ_ZERO_RANGE
  {
    var seqNumber, zero := base + i, base % SEQ_ZERO_RANGE;
    var masked := seqNumber % SEQ_ZERO_RANGE;
    var adjusted := seqNumber - (masked - zero) - if masked < zero then SEQ_ZERO_RANGE else 0;
    assert seqNumber - SEQ_ZERO_RANGE < adjusted <= seqNumber;
    assert (adjusted - base) % SEQ_ZERO_RANGE == 0;
    if i < SEQ_ZERO_RANGE {
      assert adjusted - base < SEQ_ZERO_RANGE && base - adjusted < SEQ_ZERO_RANGE;
    } else {
      assert adjusted > base;
    }
  }

  /** For any 13 bits: `n` is the last number up to that of the PDU with these bits at its end. */
  lemma CalculateSeqAuthIs(ivIndex: nat, seqNumber: SeqNumber, seqZero: nat, n: int)
    requires seqZero < 0x2000 && seqNumber - 0x2000 < n <= seqNumber && n % 0x2000 == seqZero
    ensures CalculateSeqAuth(ivIndex, seqNumber, seqZero) == if n < 0 then n else ivIndex * 0x100_0000 + n
  {
    var masked := seqNumber % SEQ_ZERO_RANGE;
    var adjusted := seqNumber - (masked - seqZero) - if masked < seqZero then SEQ_ZERO_RANGE else 0;
    assert (adjusted - n) % SEQ_ZERO_RANGE == 0;
    assert adjusted - n < SEQ_ZERO_RANGE && n - adjusted < SEQ_ZERO_RANGE;
  }

  function AuthOf(ivIndex: nat, pdu: Pdu): int {
    match pdu.body
    case Whole(_) => SeqAuth(ivIndex, pdu.ctx.seqNumber)
    case Part(seqZero, _, _, _) => CalculateSeqAuth(ivIndex, pdu.ctx.seqNumber, seqZero)
  }

  // ----- Sending -----

  /** An encrypted access message, with the sequence number it was encrypted under. */
  datatype Outgoing = Outgoing(src: Bytes, dst: Bytes, seqNumber: SeqNumber, aid: Option<nat>, raw: Bytes)

  function Chunks(raw: Bytes): seq<Bytes> {
    if raw == [] then []
    else
      var n := Min(SEGMENT_SIZE, |raw|);
      [raw[..n]] + Chunks(raw[n..])
  }

  lemma {:induction false} ChunksJoin(raw: Bytes)
    ensures Concat(Chunks(raw)) == raw
  {
    if raw != [] {
      var n := Min(SEGMENT_SIZE, |raw|);
      ChunksJoin(raw[n..]);
      assert Chunks(raw)[1..] == Chunks(raw[n..]);
      assert raw == raw[..n] + raw[n..];
    }
  }

  lemma {:induction false} ChunksCount(raw: Bytes)
    ensures |Chunks(raw)| == (|raw| + 11) / 12
  {
    if raw != [] {
      ChunksCount(raw[Min(SEGMENT_SIZE, |raw|)..]);
    }
  }

  lemma {:induction false} ChunksShort(raw: Bytes, i: nat)
    requires i < |Chunks(raw)|
    ensures 0 < |Chunks(raw)[i]| <= SEGMENT_SIZE
  {
    if i > 0 {
      ChunksShort(raw[Min(SEGMENT_SIZE, |raw|)..], i - 1);
    }
  }

  /** The fragments of a message; up to 15 bytes stay in one piece. */
  function Split(raw: Bytes): (r: seq<Bytes>)
    ensures |r| >= 1 && Concat(r) == raw
    ensures |raw| <= MAX_UNSEGMENTED <==> |r| == 1
    ensures |r| <= OFFSET_RANGE <==> |raw| <= OFFSET_RANGE * SEGMENT_SIZE
  {
    if |raw| > MAX_UNSEGMENTED then
      ChunksJoin(raw);
      ChunksCount(raw);
      Chunks(raw)
    else
      assert raw + [] == raw;
      [raw]
  }

  lemma SplitShort(raw: Bytes, i: nat)
    requires i < |Split(raw)| && |raw| > MAX_UNSEGMENTED
    ensures 0 < |Split(raw)[i]| <= SEGMENT_SIZE
  {
    ChunksShort(raw, i);
  }

  /** PDU `i` of a message. Offset and last offset are five-bit fields. */
  function PduOf(m: Outgoing, i: nat): Pdu
    requires i < |Split(m.raw)| && m.seqNumber + i < 0x100_0000
  {
    var parts := Split(m.raw);
    Pdu(m.src, Context(m.dst, m.seqNumber + i, m.aid),
        if |parts| == 1 then Whole(m.raw)
        else Part(m.seqNumber % SEQ_ZERO_RANGE, i % OFFSET_RANGE, (|parts| - 1) % OFFSET_RANGE, parts[i]))
  }

  /** The constants of segmentation. */
  lemma SegmentCount(raw: Bytes)
    ensures |Split(raw)| == if |raw| <= 15 then 1 else (|raw| + 11) / 12
    ensures SeqAuth(1, 2) == 0x100_0002 && RESERVED == 4
  {
    ChunksCount(raw);
  }

  /** A PDU written out. */
  lemma PduLayout(m: Outgoing, i: nat)
    requires Fits(m) && i < |Split(m.raw)|
    ensures PduOf(m, i).src == m.src && PduOf(m, i).ctx == Context(m.dst, m.seqNumber + i, m.aid)
    ensures |m.raw| <= 15 ==> PduOf(m, i).body == Whole(m.raw)
    ensures |m.raw| > 15 && |Split(m.raw)| <= 32 ==>
              PduOf(m, i).body == Part(m.seqNumber % 0x2000, i, |Split(m.raw)| - 1, Chunks(m.raw)[i])
  {
  }

  lemma ChunksCons(raw: Bytes)
    requires raw != []
    ensures Chunks(raw) == [raw[..Min(12, |raw|)]] + Chunks(raw[Min(12, |raw|)..])
  {
  }

  lemma SliceOfRest(raw: Bytes, skip: nat, a: nat, b: nat)
    requires skip + b <= |raw| && a <= b
    ensures raw[skip..][a..b] == raw[skip + a..skip + b]
  {
  }

  /** Segment `i` carries the twelve bytes from `12 * i` on, or what is left. */
  lemma {:induction false} ChunkAt(raw: Bytes, i: nat, start: nat)
    requires start == 12 * i < |raw|
    ensures i < |Chunks(raw)| && Chunks(raw)[i] == raw[start..Min(start + 12, |raw|)]
    decreases i
  {
    ChunksCons(raw);
    if i > 0 {
      ChunkAt(raw[12..], i - 1, start - 12);
      SliceOfRest(raw, 12, start - 12, Min(start, |raw| - 12));
    }
  }

  /** The sequence numbers of its PDUs fit in three bytes. */
  predicate Fits(m: Outgoing) {
    m.seqNumber + |Split(m.raw)| <= 0x100_0000
  }

  /** How many sequence numbers `get_next_seq_number(inc=4)` sets aside for a message. */
  const RESERVED: nat := 4

  /** The sequence number of PDU `a` of message `i`. */
  function NumberOf(start: nat, i: nat, a: nat): nat {
    start + RESERVED * i + a
  }

  /** Messages of `counts[i]` PDUs each, sent one after the other, never use a sequence
      number twice exactly if only the last may have more than four PDUs. */
  lemma SequenceNumbersDiffer(start: nat, counts: seq<nat>)
    requires forall n :: n in counts ==> n >= 1
    ensures (forall i, j, a, b :: 0 <= i < j < |counts| && 0 <= a < counts[i] && 0 <= b < counts[j] ==>
               NumberOf(start, i, a) != NumberOf(start, j, b))
            <==> (forall i :: 0 <= i < |counts| - 1 ==> counts[i] <= RESERVED)
  {
    if i :| 0 <= i < |counts| - 1 && counts[i] > RESERVED {
      assert counts[i + 1] in counts;
      assert NumberOf(start, i, RESERVED) == NumberOf(start, i + 1, 0);
    }
  }

  // ----- Receiving, from one source -----

  /** An `RxTransaction`: the context of the first segment received, the number of the
      last segment, and the fragments so far. */
  datatype Transaction = Transaction(
    ctx: Context, seqAuth: int, segN: nat, fragments: map<nat, Bytes>, finished: bool)

  /** What the layer stores for one source address. */
  datatype Peer = Peer(stored: Option<int>, transaction: Option<Transaction>)

  /** What it sends up. */
  datatype Delivery = Delivery(src: Bytes, ctx: Context, seqAuth: int, payload: Bytes)

  /** The fragments below offset `k`, in the order of their offsets. */
  function Join(fragments: map<nat, Bytes>, k: nat): Bytes {
    if k == 0 then []
    else Join(fragments, k - 1) + if k - 1 in fragments then fragments[k - 1] else []
  }

  /** `process_rx_seg_message`. The context sent up is that of the transaction. */
  function AddSegment(t: Transaction, pdu: Pdu): (Transaction, seq<Delivery>)
    requires pdu.body.Part?
  {
    if t.finished then (t, [])
    else
      var fragments := t.fragments[pdu.body.offset := pdu.body.payload];
      if |fragments.Keys| == t.segN + 1 then
        (t.(fragments := fragments, finished := true),
         [Delivery(pdu.src, t.ctx, t.seqAuth, Join(fragments, OFFSET_RANGE))])
      else (t.(fragments := fragments), [])
  }

  function Begin(ivIndex: nat, pdu: Pdu): Transaction
    requires pdu.body.Part?
  {
    Transaction(pdu.ctx, AuthOf(ivIndex, pdu), pdu.body.last, map[pdu.body.offset := pdu.body.payload], false)
  }

  /** `dispatch_access_rx_pdu`. Reading the payload of a segment that has none raises. */
  function Receive(ivIndex: nat, s: Peer, pdu: Pdu): (Peer, seq<Delivery>) {
    var auth := AuthOf(ivIndex, pdu);
    if pdu.body.Whole? then
      if s.stored.Some? && auth <= s.stored.value then (s, [])
      else (s.(stored := Some(auth)), [Delivery(pdu.src, pdu.ctx, auth, pdu.body.payload)])
    else if s.stored.Some? && auth < s.stored.value then (s, [])
    else if s.stored == Some(auth) then
      if s.transaction.None? || pdu.body.payload == [] then (s, [])
      else
        var (t, out) := AddSegment(s.transaction.value, pdu);
        (s.(transaction := Some(t)), out)
    else if pdu.body.payload == [] then (s, [])
    else (Peer(Some(auth), Some(Begin(ivIndex, pdu))), [])
  }

  function ReceiveAll(ivIndex: nat, s: Peer, pdus: seq<Pdu>): (Peer, seq<Delivery>) {
    if pdus == [] then (s, [])
    else
      var (t, before) := ReceiveAll(ivIndex, s, pdus[..|pdus| - 1]);
      var (u, out) := Receive(ivIndex, t, pdus[|pdus| - 1]);
      (u, before + out)
  }

  /** A segment without a payload changes nothing. */
  lemma EmptySegmentIgnored(ivIndex: nat, s: Peer, pdu: Pdu)
    requires pdu.body.Part? && pdu.body.payload == []
    ensures Receive(ivIndex, s, pdu) == (s, [])
  {
  }

  lemma ReceiveAllSnoc(ivIndex: nat, s: Peer, pdus: seq<Pdu>, pdu: Pdu)
    ensures var (t, before) := ReceiveAll(ivIndex, s, pdus);
            var (u, out) := Receive(ivIndex, t, pdu);
            ReceiveAll(ivIndex, s, pdus + [pdu]).0 == u && ReceiveAll(ivIndex, s, pdus + [pdu]).1 == before + out
  {
    assert (pdus + [pdu])[..|pdus + [pdu]| - 1] == pdus;
  }

  // ----- A message is reassembled once all its segments are there -----

  /** A transaction is never newer than the stored SeqAuth. */
  predicate Ordered(s: Peer) {
    s.transaction.Some? ==> s.stored.Some? && s.transaction.value.seqAuth <= s.stored.value
  }

  predicate Older(ivIndex: nat, m: Outgoing, pdu: Pdu) {
    AuthOf(ivIndex, pdu) < SeqAuth(ivIndex, m.seqNumber)
  }

  ghost predicate Ours(m: Outgoing, pdu: Pdu)
    requires Fits(m)
  {
    exists i :: 0 <= i < |Split(m.raw)| && pdu == PduOf(m, i)
  }

  /** The PDUs are segments of the message, in any order and number, among others of
      the same source that belong to older messages. */
  ghost predicate Traffic(ivIndex: nat, m: Outgoing, pdus: seq<Pdu>)
    requires Fits(m)
  {
    forall pdu :: pdu in pdus ==> Ours(m, pdu) || Older(ivIndex, m, pdu)
  }

  ghost function Got(m: Outgoing, pdus: seq<Pdu>): (r: set<nat>)
    requires Fits(m)
  {
    set i | 0 <= i < |Split(m.raw)| && PduOf(m, i) in pdus
  }

  ghost predicate AllArrived(m: Outgoing, pdus: seq<Pdu>)
    requires Fits(m)
  {
    forall i :: 0 <= i < |Split(m.raw)| ==> PduOf(m, i) in pdus
  }

  /** The same, by counting; see `CompleteIffAllArrived`. */
  ghost predicate Complete(m: Outgoing, pdus: seq<Pdu>)
    requires Fits(m)
  {
    |Got(m, pdus)| == |Split(m.raw)|
  }

  /** The first of the PDUs with this SeqAuth. */
  function First(ivIndex: nat, auth: int, pdus: seq<Pdu>): (r: Option<Pdu>)
    ensures r.Some? ==> r.value in pdus && AuthOf(ivIndex, r.value) == auth
    ensures r.None? ==> forall pdu :: pdu in pdus ==> AuthOf(ivIndex, pdu) != auth
  {
    if pdus == [] then None
    else if AuthOf(ivIndex, pdus[0]) == auth then Some(pdus[0])
    else First(ivIndex, auth, pdus[1..])
  }

  function Of(auth: int, out: seq<Delivery>): seq<Delivery> {
    if out == [] then []
    else
      var d := out[|out| - 1];
      Of(auth, out[..|out| - 1]) + if d.seqAuth == auth then [d] else []
  }

  /** What is sent up of the message when `pdus` have come in. */
  ghost function Expected(ivIndex: nat, m: Outgoing, pdus: seq<Pdu>): seq<Delivery>
    requires Fits(m)
  {
    var auth := SeqAuth(ivIndex, m.seqNumber);
    var first := First(ivIndex, auth, pdus);
    if Complete(m, pdus) && first.Some? then [Delivery(m.src, first.value.ctx, auth, m.raw)] else []
  }

  /** The transaction holds exactly the segments among `pdus` until it is finished. */
  ghost predicate Collects(m: Outgoing, t: Transaction, pdus: seq<Pdu>)
    requires Fits(m)
  {
    && t.segN == |Split(m.raw)| - 1
    && (t.finished <==> Complete(m, pdus))
    && (!t.finished ==> t.fragments.Keys == Got(m, pdus)
                        && forall i :: i in t.fragments ==> t.fragments[i] == Split(m.raw)[i])
  }

  /** The state kept for the message when `pdus` have come in. */
  ghost predicate Tracks(ivIndex: nat, m: Outgoing, s: Peer, pdus: seq<Pdu>)
    requires Fits(m)
  {
    var auth, parts := SeqAuth(ivIndex, m.seqNumber), Split(m.raw);
    match First(ivIndex, auth, pdus)
    case None => Ordered(s) && (s.stored.Some? ==> s.stored.value < auth)
    case Some(first) =>
      && s.stored == Some(auth)
      && (|parts| > 1 ==>
            && s.transaction.Some?
            && var t := s.transaction.value;
               t.ctx == first.ctx && t.seqAuth == auth && Collects(m, t, pdus))
  }

  lemma OursHasAuth(ivIndex: nat, m: Outgoing, i: nat)
    requires Fits(m) && i < |Split(m.raw)| <= OFFSET_RANGE
    ensures AuthOf(ivIndex, PduOf(m, i)) == SeqAuth(ivIndex, m.seqNumber)
  {
    SeqAuthRecovered(ivIndex, m.seqNumber, i);
  }

  lemma {:induction false} FirstSnoc(ivIndex: nat, auth: int, pdus: seq<Pdu>, pdu: Pdu)
    ensures First(ivIndex, auth, pdus + [pdu]) ==
            if First(ivIndex, auth, pdus).Some? then First(ivIndex, auth, pdus)
            else if AuthOf(ivIndex, pdu) == auth then Some(pdu) else None
  {
    if pdus == [] {
      assert pdus + [pdu] == [pdu];
    } else {
      assert (pdus + [pdu])[1..] == pdus[1..] + [pdu];
      FirstSnoc(ivIndex, auth, pdus[1..], pdu);
    }
  }

  lemma {:induction false} OfAppend(auth: int, a: seq<Delivery>, b: seq<Delivery>)
    ensures Of(auth, a + b) == Of(auth, a) + Of(auth, b)
  {
    if b == [] {
      assert a + b == a;
    } else {
      assert (a + b)[..|a + b| - 1] == a + b[..|b| - 1];
      OfAppend(auth, a, b[..|b| - 1]);
    }
  }

  /** Offsets below `n` are all there exactly when there are `n` of them. */
  lemma {:induction false} AllOffsets(keys: set<nat>, n: nat)
    requires forall i :: i in keys ==> i < n
    ensures |keys| <= n
    ensures |keys| == n <==> forall i :: 0 <= i < n ==> i in keys
  {
    if n > 0 {
      var fewer := keys - {n - 1};
      AllOffsets(fewer, n - 1);
      if n - 1 in keys {
        assert keys == fewer + {n - 1};
        assert forall i :: 0 <= i < n - 1 ==> (i in keys <==> i in fewer);
      } else {
        assert keys == fewer;
      }
    } else {
      assert keys == {};
    }
  }

  lemma {:induction false} JoinParts(fragments: map<nat, Bytes>, parts: seq<Bytes>, k: nat)
    requires forall i :: i in fragments <==> 0 <= i < |parts|
    requires forall i :: 0 <= i < |parts| ==> fragments[i] == parts[i]
    ensures Join(fragments, k) == Concat(parts[..Min(k, |parts|)])
  {
    if k > 0 {
      JoinParts(fragments, parts, k - 1);
      if k <= |parts| {
        assert parts[..k] == parts[..k - 1] + [parts[k - 1]];
        ConcatSnoc(parts[..k - 1], parts[k - 1]);
      }
    }
  }

  /** After a newer PDU, an older one does nothing. */
  lemma OlderAfter(ivIndex: nat, s: Peer, pdu: Pdu)
    requires s.stored.Some? && AuthOf(ivIndex, pdu) < s.stored.value
    ensures Receive(ivIndex, s, pdu).0 == s && Receive(ivIndex, s, pdu).1 == []
  {
  }

  /** Before any, it leaves the receiver with nothing as new as `auth`. */
  lemma OlderBefore(ivIndex: nat, auth: int, s: Peer, pdu: Pdu)
    requires Ordered(s) && (s.stored.Some? ==> s.stored.value < auth) && AuthOf(ivIndex, pdu) < auth
    ensures var (t, out) := Receive(ivIndex, s, pdu);
            && Ordered(t) && (t.stored.Some? ==> t.stored.value < auth)
            && forall d :: d in out ==> d.seqAuth < auth
  {
  }

  lemma {:induction false} OfNone(auth: int, out: seq<Delivery>)
    requires forall d :: d in out ==> d.seqAuth != auth
    ensures Of(auth, out) == []
  {
    if out != [] {
      OfNone(auth, out[..|out| - 1]);
    }
  }

  lemma OlderIsNotOurs(ivIndex: nat, m: Outgoing, pdus: seq<Pdu>, pdu: Pdu)
    requires Fits(m) && |Split(m.raw)| <= OFFSET_RANGE && Older(ivIndex, m, pdu)
    ensures First(ivIndex, SeqAuth(ivIndex, m.seqNumber), pdus + [pdu]) == First(ivIndex, SeqAuth(ivIndex, m.seqNumber), pdus)
    ensures Got(m, pdus + [pdu]) == Got(m, pdus)
  {
    FirstSnoc(ivIndex, SeqAuth(ivIndex, m.seqNumber), pdus, pdu);
    forall i | 0 <= i < |Split(m.raw)| ensures PduOf(m, i) in pdus + [pdu] <==> PduOf(m, i) in pdus {
      OursHasAuth(ivIndex, m, i);
    }
  }

  /** An older PDU leaves what is known of the message as it is. */
  lemma OlderKeepsTrack(ivIndex: nat, m: Outgoing, s: Peer, pdus: seq<Pdu>, pdu: Pdu)
    requires Fits(m) && |Split(m.raw)| <= OFFSET_RANGE
    requires Tracks(ivIndex, m, s, pdus) && Older(ivIndex, m, pdu)
    ensures Tracks(ivIndex, m, Receive(ivIndex, s, pdu).0, pdus + [pdu])
    ensures Of(SeqAuth(ivIndex, m.seqNumber), Receive(ivIndex, s, pdu).1) == []
    ensures Expected(ivIndex, m, pdus + [pdu]) == Expected(ivIndex, m, pdus)
  {
    var auth := SeqAuth(ivIndex, m.seqNumber);
    OlderIsNotOurs(ivIndex, m, pdus, pdu);
    if First(ivIndex, auth, pdus).Some? {
      OlderAfter(ivIndex, s, pdu);
    } else {
      OlderBefore(ivIndex, auth, s, pdu);
      OfNone(auth, Receive(ivIndex, s, pdu).1);
    }
  }

  /** A message that was not cut is complete as soon as there is a PDU of it. */
  lemma WholeComplete(ivIndex: nat, m: Outgoing, pdus: seq<Pdu>)
    requires Fits(m) && |Split(m.raw)| == 1 && Traffic(ivIndex, m, pdus)
    ensures PduOf(m, 0) == Pdu(m.src, Context(m.dst, m.seqNumber, m.aid), Whole(m.raw))
    ensures var first := First(ivIndex, SeqAuth(ivIndex, m.seqNumber), pdus);
            && (first.Some? ==> first.value == PduOf(m, 0))
            && (Complete(m, pdus) <==> first.Some?)
  {
    CompleteIffAllArrived(m, pdus);
    OursHasAuth(ivIndex, m, 0);
  }

  /** A PDU of such a message. */
  lemma WholeKeepsTrack(ivIndex: nat, m: Outgoing, s: Peer, pdus: seq<Pdu>)
    requires Fits(m) && |Split(m.raw)| == 1
    requires Tracks(ivIndex, m, s, pdus) && Traffic(ivIndex, m, pdus)
    ensures var (t, out) := Receive(ivIndex, s, PduOf(m, 0));
            && Tracks(ivIndex, m, t, pdus + [PduOf(m, 0)])
            && Expected(ivIndex, m, pdus + [PduOf(m, 0)])
               == Expected(ivIndex, m, pdus) + Of(SeqAuth(ivIndex, m.seqNumber), out)
  {
    WholeComplete(ivIndex, m, pdus);
    WholeComplete(ivIndex, m, pdus + [PduOf(m, 0)]);
    FirstSnoc(ivIndex, SeqAuth(ivIndex, m.seqNumber), pdus, PduOf(m, 0));
  }

  /** With as many fragments as the message has parts, they join to the message. */
  lemma JoinAll(fragments: map<nat, Bytes>, parts: seq<Bytes>)
    requires forall i :: i in fragments ==> i < |parts| && fragments[i] == parts[i]
    requires |fragments.Keys| == |parts| <= OFFSET_RANGE
    ensures Join(fragments, OFFSET_RANGE) == Concat(parts)
  {
    AllOffsets(fragments.Keys, |parts|);
    JoinParts(fragments, parts, OFFSET_RANGE);
    assert parts[..Min(OFFSET_RANGE, |parts|)] == parts;
  }

  lemma CompleteIffAllArrived(m: Outgoing, pdus: seq<Pdu>)
    requires Fits(m)
    ensures Complete(m, pdus) <==> AllArrived(m, pdus)
  {
    AllOffsets(Got(m, pdus), |Split(m.raw)|);
    forall i: nat | i < |Split(m.raw)| ensures i in Got(m, pdus) <==> PduOf(m, i) in pdus {}
  }

  lemma GotSnoc(m: Outgoing, pdus: seq<Pdu>, i: nat)
    requires Fits(m) && i < |Split(m.raw)|
    ensures Got(m, pdus + [PduOf(m, i)]) == Got(m, pdus) + {i}
  {
    forall j | 0 <= j < |Split(m.raw)|
      ensures PduOf(m, j) in pdus + [PduOf(m, i)] <==> PduOf(m, j) in pdus || j == i
    {
      assert j != i ==> PduOf(m, j).ctx.seqNumber != PduOf(m, i).ctx.seqNumber;
    }
  }

  /** Before the first segment of a message that was, none is there; after it, just one. */
  lemma FirstOfMany(ivIndex: nat, m: Outgoing, pdus: seq<Pdu>, i: nat)
    requires Fits(m) && i < |Split(m.raw)| && 1 < |Split(m.raw)| <= OFFSET_RANGE
    requires First(ivIndex, SeqAuth(ivIndex, m.seqNumber), pdus).None?
    ensures First(ivIndex, SeqAuth(ivIndex, m.seqNumber), pdus + [PduOf(m, i)]) == Some(PduOf(m, i))
    ensures Got(m, pdus) == {} && Got(m, pdus + [PduOf(m, i)]) == {i}
    ensures !Complete(m, pdus) && !Complete(m, pdus + [PduOf(m, i)])
  {
    FirstSnoc(ivIndex, SeqAuth(ivIndex, m.seqNumber), pdus, PduOf(m, i));
    forall j | 0 <= j < |Split(m.raw)| ensures PduOf(m, j) !in pdus {
      OursHasAuth(ivIndex, m, j);
    }
    OursHasAuth(ivIndex, m, i);
    GotSnoc(m, pdus, i);
    assert Got(m, pdus) == {};
  }

  lemma FirstSegment(ivIndex: nat, m: Outgoing, s: Peer, pdus: seq<Pdu>, i: nat)
    requires Fits(m) && i < |Split(m.raw)| && 1 < |Split(m.raw)| <= OFFSET_RANGE
    requires Tracks(ivIndex, m, s, pdus) && First(ivIndex, SeqAuth(ivIndex, m.seqNumber), pdus).None?
    ensures !Complete(m, pdus + [PduOf(m, i)]) && !Complete(m, pdus)
    ensures Tracks(ivIndex, m, Receive(ivIndex, s, PduOf(m, i)).0, pdus + [PduOf(m, i)])
    ensures Receive(ivIndex, s, PduOf(m, i)).1 == []
  {
    var pdu := PduOf(m, i);
    FirstOfMany(ivIndex, m, pdus, i);
    OursHasAuth(ivIndex, m, i);
    PartOf(m, i);
    SplitShort(m.raw, i);
    assert Receive(ivIndex, s, pdu).0 == Peer(Some(AuthOf(ivIndex, pdu)), Some(Begin(ivIndex, pdu)));
    assert Collects(m, Begin(ivIndex, pdu), pdus + [pdu]);
  }

  /** A further segment: the fragments become complete when there are as many as parts. */
  lemma AddPart(t: Transaction, pdu: Pdu, parts: seq<Bytes>)
    requires pdu.body.Part? && pdu.body.offset < |parts| <= OFFSET_RANGE && pdu.body.payload == parts[pdu.body.offset]
    requires !t.finished && t.segN == |parts| - 1
    requires forall j :: j in t.fragments ==> j < |parts| && t.fragments[j] == parts[j]
    ensures var (u, out) := AddSegment(t, pdu);
            var keys := t.fragments.Keys + {pdu.body.offset};
            && u == t.(fragments := u.fragments, finished := |keys| == |parts|)
            && u.fragments.Keys == keys
            && (forall j :: j in u.fragments ==> u.fragments[j] == parts[j])
            && out == if |keys| == |parts| then [Delivery(pdu.src, t.ctx, t.seqAuth, Concat(parts))] else []
  {
    var fragments := t.fragments[pdu.body.offset := pdu.body.payload];
    assert fragments.Keys == t.fragments.Keys + {pdu.body.offset};
    if |fragments.Keys| == |parts| {
      JoinAll(fragments, parts);
    }
  }

  lemma StaysComplete(m: Outgoing, pdus: seq<Pdu>, i: nat)
    requires Fits(m) && i < |Split(m.raw)| && Complete(m, pdus)
    ensures Complete(m, pdus + [PduOf(m, i)])
  {
    GotSnoc(m, pdus, i);
    AllOffsets(Got(m, pdus), |Split(m.raw)|);
    assert Got(m, pdus) + {i} == Got(m, pdus);
  }

  lemma NextPart(m: Outgoing, t: Transaction, pdus: seq<Pdu>, pdu: Pdu, all: seq<Pdu>)
    requires Fits(m) && Collects(m, t, pdus) && !t.finished && pdu.src == m.src && pdu.body.Part?
    requires pdu.body.offset < |Split(m.raw)| <= OFFSET_RANGE && pdu.body.payload == Split(m.raw)[pdu.body.offset]
    requires Got(m, all) == Got(m, pdus) + {pdu.body.offset}
    ensures var (u, out) := AddSegment(t, pdu);
            && Collects(m, u, all) && u.ctx == t.ctx && u.seqAuth == t.seqAuth
            && out == (if u.finished then [Delivery(m.src, t.ctx, t.seqAuth, m.raw)] else [])
  {
    forall j | j in t.fragments ensures j < |Split(m.raw)| {
      assert j in Got(m, pdus);
    }
    AddPart(t, pdu, Split(m.raw));
  }

  lemma PartOf(m: Outgoing, i: nat)
    requires Fits(m) && i < |Split(m.raw)| && 1 < |Split(m.raw)| <= OFFSET_RANGE
    ensures var pdu := PduOf(m, i);
            && pdu.src == m.src && pdu.body.Part? && pdu.body.offset == i && pdu.body.payload == Split(m.raw)[i]
            && pdu.body.last == |Split(m.raw)| - 1
  {
  }

  lemma NextSegment(m: Outgoing, t: Transaction, pdus: seq<Pdu>, i: nat)
    requires Fits(m) && i < |Split(m.raw)| && 1 < |Split(m.raw)| <= OFFSET_RANGE
    requires Collects(m, t, pdus)
    ensures var (u, out) := AddSegment(t, PduOf(m, i));
            && Collects(m, u, pdus + [PduOf(m, i)]) && u.ctx == t.ctx && u.seqAuth == t.seqAuth
            && out == (if u.finished && !t.finished then [Delivery(m.src, t.ctx, t.seqAuth, m.raw)] else [])
  {
    PartOf(m, i);
    if t.finished {
      StaysComplete(m, pdus, i);
    } else {
      GotSnoc(m, pdus, i);
      NextPart(m, t, pdus, PduOf(m, i), pdus + [PduOf(m, i)]);
    }
  }

  lemma SegmentKeepsTrack(ivIndex: nat, m: Outgoing, s: Peer, pdus: seq<Pdu>, i: nat)
    requires Fits(m) && i < |Split(m.raw)| && 1 < |Split(m.raw)| <= OFFSET_RANGE
    requires Tracks(ivIndex, m, s, pdus)
    ensures var (t, out) := Receive(ivIndex, s, PduOf(m, i));
            && Tracks(ivIndex, m, t, pdus + [PduOf(m, i)])
            && Expected(ivIndex, m, pdus + [PduOf(m, i)])
               == Expected(ivIndex, m, pdus) + Of(SeqAuth(ivIndex, m.seqNumber), out)
  {
    var auth := SeqAuth(ivIndex, m.seqNumber);
    if First(ivIndex, auth, pdus).None? {
      FirstSegment(ivIndex, m, s, pdus, i);
    } else {
      FirstSnoc(ivIndex, auth, pdus, PduOf(m, i));
      OursHasAuth(ivIndex, m, i);
      NextSegment(m, s.transaction.value, pdus, i);
      SplitShort(m.raw, i);
    }
  }

  lemma PduKeepsTrack(ivIndex: nat, m: Outgoing, s: Peer, pdus: seq<Pdu>, pdu: Pdu)
    requires Fits(m) && |Split(m.raw)| <= OFFSET_RANGE
    requires Traffic(ivIndex, m, pdus) && (Ours(m, pdu) || Older(ivIndex, m, pdu))
    requires Tracks(ivIndex, m, s, pdus)
    ensures Tracks(ivIndex, m, Receive(ivIndex, s, pdu).0, pdus + [pdu])
    ensures Expected(ivIndex, m, pdus + [pdu])
            == Expected(ivIndex, m, pdus) + Of(SeqAuth(ivIndex, m.seqNumber), Receive(ivIndex, s, pdu).1)
  {
    if Older(ivIndex, m, pdu) {
      OlderKeepsTrack(ivIndex, m, s, pdus, pdu);
    } else {
      var i :| 0 <= i < |Split(m.raw)| && pdu == PduOf(m, i);
      if |Split(m.raw)| == 1 {
        WholeKeepsTrack(ivIndex, m, s, pdus);
      } else {
        SegmentKeepsTrack(ivIndex, m, s, pdus, i);
      }
    }
  }

  lemma TracksSnoc(ivIndex: nat, m: Outgoing, s: Peer, pdus: seq<Pdu>, pdu: Pdu)
    requires Fits(m) && |Split(m.raw)| <= OFFSET_RANGE
    requires Traffic(ivIndex, m, pdus) && (Ours(m, pdu) || Older(ivIndex, m, pdu))
    requires Tracks(ivIndex, m, ReceiveAll(ivIndex, s, pdus).0, pdus)
    requires Of(SeqAuth(ivIndex, m.seqNumber), ReceiveAll(ivIndex, s, pdus).1) == Expected(ivIndex, m, pdus)
    ensures Tracks(ivIndex, m, ReceiveAll(ivIndex, s, pdus + [pdu]).0, pdus + [pdu])
    ensures Of(SeqAuth(ivIndex, m.seqNumber), ReceiveAll(ivIndex, s, pdus + [pdu]).1) == Expected(ivIndex, m, pdus + [pdu])
  {
    var (t, before) := ReceiveAll(ivIndex, s, pdus);
    PduKeepsTrack(ivIndex, m, t, pdus, pdu);
    OfAppend(SeqAuth(ivIndex, m.seqNumber), before, Receive(ivIndex, t, pdu).1);
    ReceiveAllSnoc(ivIndex, s, pdus, pdu);
  }

  lemma {:induction false} TracksRun(ivIndex: nat, m: Outgoing, s: Peer, pdus: seq<Pdu>)
    requires Fits(m) && |Split(m.raw)| <= OFFSET_RANGE
    requires Tracks(ivIndex, m, s, []) && Traffic(ivIndex, m, pdus)
    ensures Tracks(ivIndex, m, ReceiveAll(ivIndex, s, pdus).0, pdus)
    ensures Of(SeqAuth(ivIndex, m.seqNumber), ReceiveAll(ivIndex, s, pdus).1) == Expected(ivIndex, m, pdus)
  {
    if pdus != [] {
      var front, pdu := pdus[..|pdus| - 1], pdus[|pdus| - 1];
      assert pdus == front + [pdu];
      TracksRun(ivIndex, m, s, front);
      TracksSnoc(ivIndex, m, s, front, pdu);
    }
  }

  /** Whatever the order, losses, repeats and late PDUs of older messages: a message of
      up to 384 bytes is sent up exactly if all its segments arrive, once, and with its
      bytes. Its context is that of the segment which arrived first. */
  lemma Reassembly(ivIndex: nat, m: Outgoing, s: Peer, pdus: seq<Pdu>)
    requires Fits(m) && |m.raw| <= OFFSET_RANGE * SEGMENT_SIZE
    requires Ordered(s) && (s.stored.Some? ==> s.stored.value < SeqAuth(ivIndex, m.seqNumber))
    requires Traffic(ivIndex, m, pdus)
    ensures var auth := SeqAuth(ivIndex, m.seqNumber);
            var first := First(ivIndex, auth, pdus);
            && (AllArrived(m, pdus) ==> first.Some? && Ours(m, first.value))
            && Of(auth, ReceiveAll(ivIndex, s, pdus).1)
               == if AllArrived(m, pdus) then [Delivery(m.src, first.value.ctx, auth, m.raw)] else []
  {
    TracksRun(ivIndex, m, s, pdus);
    CompleteIffAllArrived(m, pdus);
    if AllArrived(m, pdus) {
      OursHasAuth(ivIndex, m, 0);
      assert PduOf(m, 0) in pdus;
    }
  }

  /** Once a newer PDU is there, older ones have no effect. */
  lemma {:induction false} OlderDiscarded(ivIndex: nat, s: Peer, pdus: seq<Pdu>)
    requires s.stored.Some? && forall pdu :: pdu in pdus ==> AuthOf(ivIndex, pdu) < s.stored.value
    ensures ReceiveAll(ivIndex, s, pdus).0 == s && ReceiveAll(ivIndex, s, pdus).1 == []
  {
    if pdus != [] {
      var front, pdu := pdus[..|pdus| - 1], pdus[|pdus| - 1];
      OlderDiscarded(ivIndex, s, front);
      assert pdu in pdus;
      OlderAfter(ivIndex, s, pdu);
      ReceiveAllSnoc(ivIndex, s, front, pdu);
      assert pdus == front + [pdu];
    }
  }

  /** All fragments stored have at most twelve bytes. */
  ghost predicate ShortFragments(s: Peer) {
    s.transaction.Some? ==> forall i :: i in s.transaction.value.fragments ==> |s.transaction.value.fragments[i]| <= SEGMENT_SIZE
  }

  lemma {:induction false} JoinIsShort(fragments: map<nat, Bytes>, k: nat)
    requires forall i :: i in fragments ==> |fragments[i]| <= SEGMENT_SIZE
    ensures |Join(fragments, k)| <= k * SEGMENT_SIZE
  {
    if k > 0 {
      JoinIsShort(fragments, k - 1);
    }
  }

  /** A segment of at most twelve bytes keeps it so; a PDU that is not one goes up as it is. */
  lemma ReceiveKeepsShort(ivIndex: nat, s: Peer, pdu: Pdu)
    requires ShortFragments(s) && (pdu.body.Part? ==> |pdu.body.payload| <= SEGMENT_SIZE)
    ensures var (t, out) := Receive(ivIndex, s, pdu);
            && ShortFragments(t)
            && forall d :: d in out ==> |d.payload| <= OFFSET_RANGE * SEGMENT_SIZE || pdu.body == Whole(d.payload)
  {
    if s.transaction.Some? && pdu.body.Part? {
      JoinIsShort(s.transaction.value.fragments[pdu.body.offset := pdu.body.payload], OFFSET_RANGE);
    }
  }

  /** Among any PDUs whose segments carry at most twelve bytes, a message of more than 384
      bytes is never sent up, unless one PDU carries all of it. */
  lemma {:induction false} TooLongNeverArrives(ivIndex: nat, s: Peer, pdus: seq<Pdu>, raw: Bytes)
    requires |raw| > OFFSET_RANGE * SEGMENT_SIZE && ShortFragments(s)
    requires forall pdu :: pdu in pdus ==> if pdu.body.Part? then |pdu.body.payload| <= SEGMENT_SIZE else pdu.body.payload != raw
    ensures var (t, out) := ReceiveAll(ivIndex, s, pdus);
            ShortFragments(t) && forall d :: d in out ==> d.payload != raw
  {
    if pdus != [] {
      var front, pdu := pdus[..|pdus| - 1], pdus[|pdus| - 1];
      TooLongNeverArrives(ivIndex, s, front, raw);
      assert pdu in pdus;
      ReceiveKeepsShort(ivIndex, ReceiveAll(ivIndex, s, front).0, pdu);
    }
  }

  /** The segments of a message meet that condition. */
  lemma OwnSegmentsAreShort(m: Outgoing, i: nat)
    requires Fits(m) && i < |Split(m.raw)| && |m.raw| > MAX_UNSEGMENTED
    ensures PduOf(m, i).body.Part? && |PduOf(m, i).body.payload| <= SEGMENT_SIZE
  {
    SplitShort(m.raw, i);
  }

  // ----- No message is sent up twice, nor after a newer one -----

  predicate Increasing(out: seq<Delivery>) {
    forall i, j :: 0 <= i < j < |out| ==> out[i].seqAuth < out[j].seqAuth
  }

  /** A segment of the newest SeqAuth that completes an older transaction. It takes a
      sender that uses the number of an unsegmented message for a segment too. */
  predicate StrayCompletes(ivIndex: nat, s: Peer, pdu: Pdu) {
    && pdu.body.Part? && pdu.body.payload != [] && s.stored == Some(AuthOf(ivIndex, pdu))
    && s.transaction.Some?
    && var t := s.transaction.value;
       !t.finished && t.seqAuth < s.stored.value && |t.fragments.Keys + {pdu.body.offset}| == t.segN + 1
  }

  predicate NoStray(ivIndex: nat, s: Peer, pdus: seq<Pdu>) {
    pdus == [] ||
    (&& NoStray(ivIndex, s, pdus[..|pdus| - 1])
     && !StrayCompletes(ivIndex, ReceiveAll(ivIndex, s, pdus[..|pdus| - 1]).0, pdus[|pdus| - 1]))
  }

  const NO_PEER: Peer := Peer(None, None)

  ghost predicate UpToDate(s: Peer, out: seq<Delivery>) {
    && Ordered(s) && Increasing(out)
    && (out != [] ==> s.stored.Some? && out[|out| - 1].seqAuth <= s.stored.value)
    && (s.transaction.Some? && !s.transaction.value.finished ==>
          (s.transaction.value.seqAuth < s.stored.value
           <==> out != [] && out[|out| - 1].seqAuth == s.stored.value))
  }

  lemma IncreasingSnoc(out: seq<Delivery>, d: Delivery)
    requires Increasing(out)
    ensures Increasing(out + [d]) <==> out == [] || out[|out| - 1].seqAuth < d.seqAuth
  {
    if out != [] {
      assert (out + [d])[|out| - 1] == out[|out| - 1] && (out + [d])[|out|] == d;
    }
  }

  /** Sending up the transaction: fine if it is the newest, late if something newer went up. */
  lemma CompletionKeepsUpToDate(s: Peer, out: seq<Delivery>, u: Transaction, d: Delivery)
    requires UpToDate(s, out) && s.transaction.Some? && !s.transaction.value.finished
    requires u.finished && u.seqAuth == d.seqAuth == s.transaction.value.seqAuth
    ensures if d.seqAuth < s.stored.value then !Increasing(out + [d])
            else UpToDate(s.(transaction := Some(u)), out + [d])
  {
    IncreasingSnoc(out, d);
  }

  /** The step that adds to a transaction. */
  lemma SegmentKeepsUpToDate(ivIndex: nat, s: Peer, out: seq<Delivery>, pdu: Pdu)
    requires UpToDate(s, out) && pdu.body.Part? && pdu.body.payload != []
    requires s.stored == Some(AuthOf(ivIndex, pdu)) && s.transaction.Some?
    ensures var (t, more) := AddSegment(s.transaction.value, pdu);
            if StrayCompletes(ivIndex, s, pdu) then !Increasing(out + more)
            else UpToDate(s.(transaction := Some(t)), out + more)
  {
    var t := s.transaction.value;
    var fragments := t.fragments[pdu.body.offset := pdu.body.payload];
    assert fragments.Keys == t.fragments.Keys + {pdu.body.offset};
    if !t.finished && |fragments.Keys| == t.segN + 1 {
      var d := Delivery(pdu.src, t.ctx, t.seqAuth, Join(fragments, OFFSET_RANGE));
      CompletionKeepsUpToDate(s, out, t.(fragments := fragments, finished := true), d);
    } else {
      assert AddSegment(t, pdu).1 == [] && out + [] == out;
    }
  }

  /** The step that sends a PDU up as it is. */
  lemma WholeKeepsUpToDate(ivIndex: nat, s: Peer, out: seq<Delivery>, pdu: Pdu)
    requires UpToDate(s, out) && pdu.body.Whole?
    ensures UpToDate(Receive(ivIndex, s, pdu).0, out + Receive(ivIndex, s, pdu).1)
  {
    IncreasingSnoc(out, Delivery(pdu.src, pdu.ctx, AuthOf(ivIndex, pdu), pdu.body.payload));
    assert out + [] == out;
  }

  lemma ReceiveKeepsUpToDate(ivIndex: nat, s: Peer, out: seq<Delivery>, pdu: Pdu)
    requires UpToDate(s, out)
    ensures if StrayCompletes(ivIndex, s, pdu) then !Increasing(out + Receive(ivIndex, s, pdu).1)
            else UpToDate(Receive(ivIndex, s, pdu).0, out + Receive(ivIndex, s, pdu).1)
  {
    if pdu.body.Whole? {
      WholeKeepsUpToDate(ivIndex, s, out, pdu);
    } else if s.stored == Some(AuthOf(ivIndex, pdu)) && s.transaction.Some? && pdu.body.payload != [] {
      SegmentKeepsUpToDate(ivIndex, s, out, pdu);
    } else {
      assert Receive(ivIndex, s, pdu).1 == [];
      assert out + [] == out;
    }
  }

  /** Over any run of PDUs, forged ones included, each message sent up is newer than all
      before, exactly if no stray segment completes an older transaction. */
  lemma {:induction false} SentUpIncreasing(ivIndex: nat, pdus: seq<Pdu>)
    ensures Increasing(ReceiveAll(ivIndex, NO_PEER, pdus).1) <==> NoStray(ivIndex, NO_PEER, pdus)
    ensures NoStray(ivIndex, NO_PEER, pdus) ==>
              UpToDate(ReceiveAll(ivIndex, NO_PEER, pdus).0, ReceiveAll(ivIndex, NO_PEER, pdus).1)
  {
    if pdus != [] {
      var front, pdu := pdus[..|pdus| - 1], pdus[|pdus| - 1];
      SentUpIncreasing(ivIndex, front);
      var (t, out) := ReceiveAll(ivIndex, NO_PEER, front);
      if NoStray(ivIndex, NO_PEER, front) {
        ReceiveKeepsUpToDate(ivIndex, t, out, pdu);
      } else {
        var i, j :| 0 <= i < j < |out| && out[i].seqAuth >= out[j].seqAuth;
        var all := ReceiveAll(ivIndex, NO_PEER, pdus).1;
        assert all[i] == out[i] && all[j] == out[j];
      }
    }
  }

  /** No segment has the SeqAuth of an unsegmented PDU. */
  ghost predicate NumbersApart(ivIndex: nat, pdus: seq<Pdu>) {
    forall a, b :: a in pdus && b in pdus && a.body.Part? && b.body.Whole? ==> AuthOf(ivIndex, a) != AuthOf(ivIndex, b)
  }

  /** The transaction is the newest message, or an unsegmented PDU is. */
  ghost predicate NewestKnown(ivIndex: nat, s: Peer, pdus: seq<Pdu>) {
    s.transaction.Some? ==>
      && s.stored.Some?
      && (s.transaction.value.seqAuth == s.stored.value
          || exists pdu :: pdu in pdus && pdu.body.Whole? && AuthOf(ivIndex, pdu) == s.stored.value)
  }

  /** A sender that uses no number twice in this way causes no stray segment, whatever the
      receiver has stored. */
  lemma {:induction false} NumbersApartNoStray(ivIndex: nat, pdus: seq<Pdu>)
    requires NumbersApart(ivIndex, pdus)
    ensures NoStray(ivIndex, NO_PEER, pdus)
    ensures NewestKnown(ivIndex, ReceiveAll(ivIndex, NO_PEER, pdus).0, pdus)
  {
    if pdus != [] {
      var front, pdu := pdus[..|pdus| - 1], pdus[|pdus| - 1];
      assert pdus == front + [pdu];
      NumbersApartNoStray(ivIndex, front);
      ReceiveAllSnoc(ivIndex, NO_PEER, front, pdu);
      var s := ReceiveAll(ivIndex, NO_PEER, front).0;
      NewestKnownStep(ivIndex, s, front, pdu);
    }
  }

  lemma NewestKnownStep(ivIndex: nat, s: Peer, pdus: seq<Pdu>, pdu: Pdu)
    requires NewestKnown(ivIndex, s, pdus) && NumbersApart(ivIndex, pdus + [pdu])
    ensures NewestKnown(ivIndex, Receive(ivIndex, s, pdu).0, pdus + [pdu])
    ensures !StrayCompletes(ivIndex, s, pdu)
  {
    assert pdu in pdus + [pdu];
    if s.transaction.Some? && s.transaction.value.seqAuth != s.stored.value {
      var w :| w in pdus && w.body.Whole? && AuthOf(ivIndex, w) == s.stored.value;
      assert w in pdus + [pdu];
    }
  }

  const HALF: Pdu := Pdu([0, 1], Context([0, 2], 0, None), Part(0, 0, 1, [7]))
  const NEWER: Pdu := Pdu([0, 1], Context([0, 2], 5, None), Whole([8]))
  const STRAY: Pdu := Pdu([0, 1], Context([0, 2], 6, None), Part(5, 1, 1, [9]))

  lemma StrayJoins(t: Transaction)
    requires t == Begin(0, HALF)
    ensures AddSegment(t, STRAY).1 == [Delivery(HALF.src, HALF.ctx, 0, [7, 9])]
  {
    var parts: seq<Bytes> := [[7], [9]];
    assert Concat(parts) == [7, 9] by { assert parts[1..] == [[9]] && parts[1..][1..] == []; }
    AddPart(t, STRAY, parts);
    var keys: set<nat> := {0, 1};
    assert t.fragments.Keys + {1} == keys && |keys| == 2;
  }

  /** Such a run: half a message, a newer unsegmented one, and a segment under the
      number of the newer one. The older message is sent up last. */
  lemma StrayExample()
    ensures ReceiveAll(0, NO_PEER, [HALF, NEWER, STRAY]).1
            == [Delivery(NEWER.src, NEWER.ctx, 5, [8]), Delivery(HALF.src, HALF.ctx, 0, [7, 9])]
    ensures !NoStray(0, NO_PEER, [HALF, NEWER, STRAY])
  {
    var t := Begin(0, HALF);
    ReceiveAllSnoc(0, NO_PEER, [], HALF);
    ReceiveAllSnoc(0, NO_PEER, [HALF], NEWER);
    ReceiveAllSnoc(0, NO_PEER, [HALF, NEWER], STRAY);
    assert [] + [HALF] == [HALF] && [HALF] + [NEWER] == [HALF, NEWER] && [HALF, NEWER] + [STRAY] == [HALF, NEWER, STRAY];
    assert Receive(0, NO_PEER, HALF) == (Peer(Some(0), Some(t)), []);
    assert Receive(0, Peer(Some(0), Some(t)), NEWER).0 == Peer(Some(5), Some(t));
    assert AuthOf(0, STRAY) == 5;
    StrayJoins(t);
    SentUpIncreasing(0, [HALF, NEWER, STRAY]);
  }

  // ----- The layer, with all sources -----

  datatype Layer = Layer(seqAuthValues: map<Bytes, int>, rxTransactions: map<Bytes, Transaction>, sentUp: seq<Delivery>)

  function Lookup<T>(m: map<Bytes, T>, key: Bytes): Option<T> {
    if key in m then Some(m[key]) else None
  }

  function Store<T>(m: map<Bytes, T>, key: Bytes, value: Option<T>): map<Bytes, T> {
    if value.Some? then m[key := value.value] else m
  }

  function PeerOf(l: Layer, src: Bytes): Peer {
    Peer(Lookup(l.seqAuthValues, src), Lookup(l.rxTransactions, src))
  }

  function Step(ivIndex: nat, l: Layer, pdu: Pdu): Layer {
    var (s, out) := Receive(ivIndex, PeerOf(l, pdu.src), pdu);
    Layer(Store(l.seqAuthValues, pdu.src, s.stored), Store(l.rxTransactions, pdu.src, s.transaction), l.sentUp + out)
  }

  function Run(ivIndex: nat, l: Layer, pdus: seq<Pdu>): Layer {
    if pdus == [] then l else Step(ivIndex, Run(ivIndex, l, pdus[..|pdus| - 1]), pdus[|pdus| - 1])
  }

  function FromSource(src: Bytes, pdus: seq<Pdu>): seq<Pdu> {
    if pdus == [] then []
    else
      FromSource(src, pdus[..|pdus| - 1]) + if pdus[|pdus| - 1].src == src then [pdus[|pdus| - 1]] else []
  }

  function SentFrom(src: Bytes, out: seq<Delivery>): seq<Delivery> {
    if out == [] then []
    else SentFrom(src, out[..|out| - 1]) + if out[|out| - 1].src == src then [out[|out| - 1]] else []
  }

  lemma SentFromOneMore(src: Bytes, out: seq<Delivery>, more: seq<Delivery>)
    requires |more| <= 1
    ensures SentFrom(src, out + more) == SentFrom(src, out) + if more != [] && more[0].src == src then more else []
  {
    if more == [] {
      assert out + more == out;
    } else {
      assert (out + more)[..|out|] == out;
    }
  }

  lemma ReceiveShape(ivIndex: nat, s: Peer, pdu: Pdu)
    ensures var (t, out) := Receive(ivIndex, s, pdu);
            && (s.stored.Some? ==> t.stored.Some?) && (s.transaction.Some? ==> t.transaction.Some?)
            && |out| <= 1 && (out != [] ==> out[0].src == pdu.src)
  {
  }

  lemma LookupStored<T>(m: map<Bytes, T>, key: Bytes, value: Option<T>, other: Bytes)
    requires key in m ==> value.Some?
    ensures Lookup(Store(m, key, value), other) == if other == key then value else Lookup(m, other)
  {
  }

  lemma StepOnPeers(ivIndex: nat, l: Layer, pdu: Pdu, src: Bytes)
    ensures var (s, out) := Receive(ivIndex, PeerOf(l, pdu.src), pdu);
            && PeerOf(Step(ivIndex, l, pdu), src) == (if src == pdu.src then s else PeerOf(l, src))
            && SentFrom(src, Step(ivIndex, l, pdu).sentUp)
               == SentFrom(src, l.sentUp) + if src == pdu.src then out else []
  {
    ReceiveShape(ivIndex, PeerOf(l, pdu.src), pdu);
    var s, out := Receive(ivIndex, PeerOf(l, pdu.src), pdu).0, Receive(ivIndex, PeerOf(l, pdu.src), pdu).1;
    LookupStored(l.seqAuthValues, pdu.src, s.stored, src);
    LookupStored(l.rxTransactions, pdu.src, s.transaction, src);
    SentFromOneMore(src, l.sentUp, out);
  }

  /** What the layer does for a source depends on the PDUs of that source alone. */
  lemma {:induction false} SourcesAreIndependent(ivIndex: nat, l: Layer, pdus: seq<Pdu>, src: Bytes)
    requires l.sentUp == []
    ensures var t := Run(ivIndex, l, pdus);
            && PeerOf(t, src) == ReceiveAll(ivIndex, PeerOf(l, src), FromSource(src, pdus)).0
            && SentFrom(src, t.sentUp) == ReceiveAll(ivIndex, PeerOf(l, src), FromSource(src, pdus)).1
  {
    if pdus != [] {
      var front, pdu := pdus[..|pdus| - 1], pdus[|pdus| - 1];
      SourcesAreIndependent(ivIndex, l, front, src);
      StepOnPeers(ivIndex, Run(ivIndex, l, front), pdu, src);
      if pdu.src == src {
        ReceiveAllSnoc(ivIndex, PeerOf(l, src), FromSource(src, front), pdu);
      } else {
        assert FromSource(src, pdus) == FromSource(src, front);
      }
    }
  }

  class LowerTransportLayer {
    const ivIndex: nat
    var seqAuthValues: map<Bytes, int>
    var rxTransactions: map<Bytes, Transaction>
    var sentUp: seq<Delivery>

    constructor (ivIndex: nat)
      ensures this.ivIndex == ivIndex && View() == Layer(map[], map[], [])
    {
      this.ivIndex := ivIndex;
      seqAuthValues, rxTransactions, sentUp := map[], map[], [];
    }

    ghost function View(): Layer
      reads this
    {
      Layer(seqAuthValues, rxTransactions, sentUp)
    }

    /** `dispatch_access_rx_pdu`; it raises on a segment without payload, unless it has
        no use for the segment. */
    method DispatchAccessRxPdu(pdu: Pdu) returns (raised: bool)
      modifies this
      ensures View() == Step(ivIndex, old(View()), pdu)
      ensures var s := PeerOf(old(View()), pdu.src);
              raised <==> pdu.body.Part? && pdu.body.payload == []
                          && (s.stored.Some? ==> s.stored.value <= AuthOf(ivIndex, pdu))
                          && (s.stored == Some(AuthOf(ivIndex, pdu)) ==>
                                s.transaction.Some? && !s.transaction.value.finished)
    {
      raised := false;
      match pdu.body
      case Whole(payload) =>
        var seqAuth := SeqAuth(ivIndex, pdu.ctx.seqNumber);
        if pdu.src in seqAuthValues && seqAuth <= seqAuthValues[pdu.src] { return; }
        seqAuthValues := seqAuthValues[pdu.src := seqAuth];
        SendToUpperTransport(Delivery(pdu.src, pdu.ctx, seqAuth, payload));
      case Part(seqZero, offset, last, payload) =>
        var seqAuth := CalculateSeqAuth(ivIndex, pdu.ctx.seqNumber, seqZero);
        if pdu.src in seqAuthValues {
          if seqAuth < seqAuthValues[pdu.src] { return; }
          if seqAuth == seqAuthValues[pdu.src] {
            if pdu.src in rxTransactions {
              raised := ProcessRxSegMessage(pdu);
            }
            return;
          }
        }
        if payload == [] { return true; }
        rxTransactions := rxTransactions[pdu.src := Transaction(pdu.ctx, seqAuth, last, map[offset := payload], false)];
        seqAuthValues := seqAuthValues[pdu.src := seqAuth];
    }

    /** `process_rx_seg_message`, for the transaction of this source. */
    method ProcessRxSegMessage(pdu: Pdu) returns (raised: bool)
      requires pdu.body.Part? && pdu.src in rxTransactions
      modifies `rxTransactions, `sentUp
      ensures raised <==> !old(rxTransactions)[pdu.src].finished && pdu.body.payload == []
      ensures raised ==> View() == old(View())
      ensures !raised ==>
                var (t, out) := AddSegment(old(rxTransactions)[pdu.src], pdu);
                rxTransactions == old(rxTransactions)[pdu.src := t] && sentUp == old(sentUp) + out
    {
      var t := rxTransactions[pdu.src];
      if t.finished { return false; }
      if pdu.body.payload == [] { return true; }
      t := t.(fragments := t.fragments[pdu.body.offset := pdu.body.payload]);
      if |t.fragments.Keys| == t.segN + 1 {
        t := t.(finished := true);
        var rawUpperPkt: Bytes := [];
        for k := 0 to OFFSET_RANGE
          invariant rawUpperPkt == Join(t.fragments, k)
        {
          if k in t.fragments {
            rawUpperPkt := rawUpperPkt + t.fragments[k];
          }
        }
        SendToUpperTransport(Delivery(pdu.src, t.ctx, t.seqAuth, rawUpperPkt));
      }
      rxTransactions := rxTransactions[pdu.src := t];
      return false;
    }

    method SendToUpperTransport(d: Delivery)
      modifies `sentUp
      ensures sentUp == old(sentUp) + [d]
    {
      sentUp := sentUp + [d];
    }
  }
}
