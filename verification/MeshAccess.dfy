/** Encryption of Bluetooth Mesh access messages (whad/btmesh/crypto.py), and their way
    through the upper transport layer (whad/btmesh/stack/upper_transport). */
module MeshAccess {
  import opened ByteStrings
  import opened Ciphers
  import opened MeshTransport
  import MeshNetwork

  const SMK4: Bytes := [0x73, 0x6D, 0x6B, 0x34]
  const ID6: Bytes := [0x69, 0x64, 0x36, 0x01]

  /** `k4`: six bits that name an application key. */
  function Aid(p: Primitives, appKey: Bytes): nat {
    var t := p.cmac(p.cmac(MeshNetwork.S1(p, SMK4), appKey), ID6);
    if t == [] then 0 else t[|t| - 1] % 64
  }

  datatype AccessKey = AppKey(key: Bytes) | DevKey(key: Bytes)

  /** The parameters of an encryption. */
  datatype Params = Params(key: AccessKey, longMic: bool, seqNumber: SeqNumber, src: Bytes, dst: Bytes, ivIndex: Bytes) {
    predicate Valid() { |src| == 2 && |dst| == 2 && |ivIndex| == 4 }

    /** Application and device nonces, sections 3.9.5.2 and 3.9.5.3 of the Mesh Protocol. */
    function Nonce(): Bytes {
      [if key.AppKey? then 1 else 2, if longMic then 0x80 else 0] + BigEndian(seqNumber, 3) + src + dst + ivIndex
    }

    function MacLen(): nat { if longMic then 8 else 4 }
  }

  /** Where the parameters are in the nonce. */
  lemma NonceParts(a: Params)
    requires a.Valid()
    ensures var m := a.Nonce();
            && |m| == 13 && m[0] == (if a.key.AppKey? then 1 else 2) && m[1] == (if a.longMic then 0x80 else 0)
            && m[2..5] == BigEndian(a.seqNumber, 3) && m[5..7] == a.src && m[7..9] == a.dst && m[9..13] == a.ivIndex
  {
  }

  /** `k4` and the size of what is sent, written out. */
  lemma AccessSizes(p: Primitives, a: Params, aad: Bytes, message: Bytes)
    requires p.Lawful()
    ensures |Encrypt(p, a, aad, message)| == |message| + if a.longMic then 8 else 4
    ensures var m := p.cmac(p.cmac(p.cmac(Zeros(16), [0x73, 0x6D, 0x6B, 0x34]), a.key.key), [0x69, 0x64, 0x36, 0x01]);
            Aid(p, a.key.key) == m[15] as int % 64 < 64
  {
  }

  /** Addresses by their two top bits. */
  lemma AddressKinds(dst: Bytes)
    requires |dst| == 2
    ensures IsUnicast(dst) <==> dst[0] < 0x80
    ensures IsVirtual(dst) <==> 0x80 <= dst[0] < 0xC0
  {
  }

  /** Kind of key, MIC size, sequence number and addresses determine the nonce. */
  lemma NonceInjective(a: Params, b: Params)
    requires a.Valid() && b.Valid() && a.Nonce() == b.Nonce()
    ensures a.key.AppKey? == b.key.AppKey? && a == b.(key := a.key)
  {
    NonceParts(a);
    NonceParts(b);
    assert Pow256(3) == 0x100_0000;
    BigEndianRoundTrip(a.seqNumber, 3);
    BigEndianRoundTrip(b.seqNumber, 3);
  }

  /** `encrypt` of both key managers; `aad` is the label of a virtual address. */
  function Encrypt(p: Primitives, a: Params, aad: Bytes, message: Bytes): Bytes {
    var (cipher, mic) := p.ccm.seal(a.key.key, a.Nonce(), aad, message, a.MacLen());
    cipher + mic
  }

  /** `decrypt`, and one round of `decrypt_virtual`. */
  function Decrypt(p: Primitives, a: Params, aad: Bytes, encData: Bytes): (Bytes, bool) {
    var cut := if |encData| >= a.MacLen() then |encData| - a.MacLen() else 0;
    p.ccm.open(a.key.key, a.Nonce(), aad, encData[..cut], encData[cut..], a.MacLen())
  }

  /** `decrypt_virtual`: the first label that verifies. */
  function DecryptVirtual(p: Primitives, a: Params, labels: seq<Bytes>, encData: Bytes): Option<(Bytes, Bytes)> {
    if labels == [] then None
    else
      var (plaintext, ok) := Decrypt(p, a, labels[0], encData);
      if ok then Some((plaintext, labels[0])) else DecryptVirtual(p, a, labels[1..], encData)
  }

  lemma AccessRoundTrip(p: Primitives, a: Params, aad: Bytes, message: Bytes)
    requires p.Lawful()
    ensures Decrypt(p, a, aad, Encrypt(p, a, aad, message)) == (message, true)
  {
    var (cipher, mic) := p.ccm.seal(a.key.key, a.Nonce(), aad, message, a.MacLen());
    var encData := cipher + mic;
    assert encData[..|cipher|] == cipher && encData[|cipher|..] == mic;
  }

  /** The first `k` labels do not verify. */
  predicate NoneBefore(p: Primitives, a: Params, labels: seq<Bytes>, encData: Bytes, k: nat)
    requires k <= |labels|
  {
    forall j :: 0 <= j < k ==> !Decrypt(p, a, labels[j], encData).1
  }

  /** With the label of the sender among its labels, the receiver finds the message
      and that label, exactly if no other label before it verifies. */
  lemma {:induction false} VirtualRoundTrip(p: Primitives, a: Params, labels: seq<Bytes>, uuid: Bytes, message: Bytes)
    requires p.Lawful() && uuid in labels
    ensures var encData := Encrypt(p, a, uuid, message);
            var found := DecryptVirtual(p, a, labels, encData);
            && found.Some?
            && (found == Some((message, uuid)) <==>
                  exists k :: 0 <= k < |labels| && labels[k] == uuid && NoneBefore(p, a, labels, encData, k))
  {
    var encData := Encrypt(p, a, uuid, message);
    AccessRoundTrip(p, a, uuid, message);
    if labels[0] == uuid {
      assert NoneBefore(p, a, labels, encData, 0);
    } else if Decrypt(p, a, labels[0], encData).1 {
      assert DecryptVirtual(p, a, labels, encData).value.1 == labels[0];
    } else {
      var tail := labels[1..];
      VirtualRoundTrip(p, a, tail, uuid, message);
      forall k: nat | k < |tail|
        ensures NoneBefore(p, a, tail, encData, k) <==> NoneBefore(p, a, labels, encData, k + 1)
      {
        assert forall j :: 0 <= j < k ==> tail[j] == labels[j + 1];
        assert NoneBefore(p, a, tail, encData, k) ==> forall j :: 0 < j < k + 1 ==> labels[j] == tail[j - 1];
      }
      if k :| 0 <= k < |tail| && tail[k] == uuid && NoneBefore(p, a, tail, encData, k) {
        assert labels[k + 1] == uuid && NoneBefore(p, a, labels, encData, k + 1);
      }
      if k :| 0 <= k < |labels| && labels[k] == uuid && NoneBefore(p, a, labels, encData, k) {
        assert tail[k - 1] == uuid && NoneBefore(p, a, tail, encData, k - 1);
      }
    }
  }

  // ----- From the access layer of one node to that of another -----

  predicate IsVirtual(dst: Bytes) { dst != [] && dst[0] / 64 == 2 }

  predicate IsUnicast(dst: Bytes) { dst != [] && dst[0] / 128 == 0 }

  /** `on_access_message`. A virtual destination takes a label, and an application key:
      the device key manager has no parameter for one. */
  function SendAccess(p: Primitives, a: Params, uuid: Option<Bytes>, message: Bytes): Option<Outgoing> {
    if IsVirtual(a.dst) && (uuid.None? || a.key.DevKey?) then None
    else
      var aad := if IsVirtual(a.dst) then uuid.value else [];
      var aid := if a.key.AppKey? then Some(Aid(p, a.key.key)) else None;
      Some(Outgoing(a.src, a.dst, a.seqNumber, aid, Encrypt(p, a, aad, message)))
  }

  /** When nothing is sent, and what the raw bytes decrypt to: the message, under the label for
      a virtual destination and under no label otherwise. */
  lemma SendAccessIs(p: Primitives, a: Params, uuid: Option<Bytes>, message: Bytes)
    requires p.Lawful()
    ensures var sent := SendAccess(p, a, uuid, message);
            && (sent.None? <==> IsVirtual(a.dst) && (uuid.None? || a.key.DevKey?))
            && (sent.Some? ==>
                  && var m := sent.value;
                  && m == Outgoing(a.src, a.dst, a.seqNumber, m.aid, m.raw)
                  && (a.key.DevKey? ==> m.aid == None) && (a.key.AppKey? ==> m.aid == Some(Aid(p, a.key.key)))
                  && (!IsVirtual(a.dst) ==> Decrypt(p, a, [], m.raw) == (message, true))
                  && (IsVirtual(a.dst) ==> DecryptVirtual(p, a, [uuid.value], m.raw) == Some((message, uuid.value))))
  {
    AccessRoundTrip(p, a, [], message);
    if uuid.Some? {
      AccessRoundTrip(p, a, uuid.value, message);
    }
  }

  /** What the sending threads of the lower transport layer send. For segments to many
      destinations the thread reads a field of the context that only receivers set. */
  function OnAir(m: Outgoing): seq<Pdu>
    requires Fits(m)
  {
    var n := |Split(m.raw)|;
    if n == 1 || IsUnicast(m.dst) then seq(n, i requires 0 <= i < n => PduOf(m, i)) else []
  }

  datatype KeyRing = KeyRing(appKeys: seq<Bytes>, devKeys: map<Bytes, Bytes>)

  /** `__get_app_key_index_from_aid`: the first application key with this identifier. */
  function AppKeyByAid(p: Primitives, keys: seq<Bytes>, aid: nat): Option<Bytes> {
    if keys == [] then None
    else if Aid(p, keys[0]) == aid then Some(keys[0])
    else AppKeyByAid(p, keys[1..], aid)
  }

  /** `__try_decrypt_with_key`. It takes the MIC to be short; for a virtual destination
      its call of `decrypt_virtual` has a wrong argument name and raises. */
  function TryDecryptWithKey(p: Primitives, key: AccessKey, ivIndex: Bytes, d: Delivery): Option<Bytes> {
    if IsVirtual(d.ctx.dst) then None
    else
      var (plaintext, ok) := Decrypt(p, Params(key, false, d.ctx.seqNumber, d.src, d.ctx.dst, ivIndex), [], d.payload);
      if ok then Some(plaintext) else None
  }

  /** `__try_decrypt`: the application key, or the device key of either side. */
  function TryDecrypt(p: Primitives, ring: KeyRing, ivIndex: Bytes, d: Delivery): Option<Bytes> {
    match d.ctx.aid
    case Some(aid) =>
      (match AppKeyByAid(p, ring.appKeys, aid)
       case Some(key) => TryDecryptWithKey(p, AppKey(key), ivIndex, d)
       case None => None)
    case None =>
      var bySource := if d.src in ring.devKeys then TryDecryptWithKey(p, DevKey(ring.devKeys[d.src]), ivIndex, d) else None;
      if bySource.Some? then bySource
      else if d.ctx.dst in ring.devKeys then TryDecryptWithKey(p, DevKey(ring.devKeys[d.ctx.dst]), ivIndex, d)
      else None
  }

  /** The messages sent to the access layer. */
  function Accepted(p: Primitives, ring: KeyRing, ivIndex: Bytes, out: seq<Delivery>): seq<Bytes> {
    if out == [] then []
    else
      (match TryDecrypt(p, ring, ivIndex, out[0])
       case Some(plaintext) => [plaintext]
       case None => []) + Accepted(p, ring, ivIndex, out[1..])
  }

  /** Message by message, in order. */
  lemma {:induction false} AcceptedAppend(p: Primitives, ring: KeyRing, ivIndex: Bytes, a: seq<Delivery>, b: seq<Delivery>)
    ensures Accepted(p, ring, ivIndex, a + b) == Accepted(p, ring, ivIndex, a) + Accepted(p, ring, ivIndex, b)
  {
    if a == [] {
      assert a + b == b;
    } else {
      assert (a + b)[1..] == a[1..] + b;
      AcceptedAppend(p, ring, ivIndex, a[1..], b);
    }
  }

  /** The receiver holds the key where it looks for it. */
  predicate FindsKey(p: Primitives, ring: KeyRing, a: Params) {
    match a.key
    case AppKey(key) => AppKeyByAid(p, ring.appKeys, Aid(p, key)) == Some(key)
    case DevKey(key) =>
      (a.src in ring.devKeys && ring.devKeys[a.src] == key) || (a.dst in ring.devKeys && ring.devKeys[a.dst] == key)
  }

  lemma {:induction false} AppKeyByAidIs(p: Primitives, keys: seq<Bytes>, key: Bytes)
    ensures AppKeyByAid(p, keys, Aid(p, key)) == Some(key) <==>
              exists i :: 0 <= i < |keys| && keys[i] == key && forall j :: 0 <= j < i ==> Aid(p, keys[j]) != Aid(p, key)
  {
    if keys != [] && Aid(p, keys[0]) != Aid(p, key) {
      var tail := keys[1..];
      AppKeyByAidIs(p, tail, key);
      if i :| 0 <= i < |tail| && tail[i] == key && forall j :: 0 <= j < i ==> Aid(p, tail[j]) != Aid(p, key) {
        assert keys[i + 1] == key && forall j :: 0 < j < i + 1 ==> keys[j] == tail[j - 1];
      }
      if i :| 0 <= i < |keys| && keys[i] == key && forall j :: 0 <= j < i ==> Aid(p, keys[j]) != Aid(p, key) {
        assert tail[i - 1] == key && forall j :: 0 <= j < i - 1 ==> tail[j] == keys[j + 1];
      }
    }
  }

  /** An application key is found exactly if none before it has the same identifier. */
  lemma FindsKeyIs(p: Primitives, ring: KeyRing, a: Params)
    requires a.key.AppKey?
    ensures FindsKey(p, ring, a) <==>
              exists i :: 0 <= i < |ring.appKeys| && ring.appKeys[i] == a.key.key
                          && forall j :: 0 <= j < i ==> Aid(p, ring.appKeys[j]) != Aid(p, a.key.key)
  {
    AppKeyByAidIs(p, ring.appKeys, a.key.key);
  }

  /** Under a four-byte MIC these bytes verify only as what they were encrypted as. */
  ghost predicate OnlyAsSealed(p: Primitives, a: Params, cipher: Bytes, mic: Bytes) {
    forall key, nonce :: p.ccm.open(key, nonce, [], cipher, mic, 4).1 ==>
                           !a.longMic && key == a.key.key && nonce == a.Nonce()
  }

  ghost predicate Genuine(p: Primitives, a: Params, raw: Bytes) {
    |raw| >= 4 && OnlyAsSealed(p, a, raw[..|raw| - 4], raw[|raw| - 4..])
  }

  /** A toy tag: zeros under this key and nonce, FF elsewhere and for the other MIC size. */
  function ToyTag(a: Params, key: Bytes, nonce: Bytes, n: nat): (tag: Bytes)
    ensures |tag| == n
  {
    if key == a.key.key && nonce == a.Nonce() && n == a.MacLen() then Zeros(n) else seq(n, _ => 0xFF)
  }

  function ToyCcm(a: Params): Ccm {
    Ccm((key: Bytes, nonce: Bytes, aad: Bytes, plaintext: Bytes, n: nat) => (plaintext, ToyTag(a, key, nonce, n)),
        (key: Bytes, nonce: Bytes, aad: Bytes, c: Bytes, tag: Bytes, n: nat) => (c, tag == ToyTag(a, key, nonce, n)))
  }

  /** With it, any message is genuine. */
  lemma GenuineIsPossible(p: Primitives, a: Params, aad: Bytes, message: Bytes)
    requires p.Lawful()
    ensures var toy := p.(ccm := ToyCcm(a));
            toy.Lawful() && Genuine(toy, a, Encrypt(toy, a, aad, message))
  {
    var toy := p.(ccm := ToyCcm(a));
    var raw := Encrypt(toy, a, aad, message);
    var n := |raw| - 4;
    assert raw == message + Zeros(a.MacLen());
    assert raw[n..] == Zeros(4);
    forall key, nonce | toy.ccm.open(key, nonce, [], raw[..n], raw[n..], 4).1
      ensures !a.longMic && key == a.key.key && nonce == a.Nonce()
    {
      assert ToyTag(a, key, nonce, 4)[0] == raw[n..][0] == 0;
    }
  }

  /** One trial of the receiver. */
  lemma TrialSucceedsIff(p: Primitives, a: Params, message: Bytes, key: AccessKey, d: Delivery)
    requires p.Lawful() && a.Valid() && !IsVirtual(a.dst)
    requires d.payload == Encrypt(p, a, [], message) && d.src == a.src && d.ctx.dst == a.dst
    requires Genuine(p, a, d.payload)
    ensures TryDecryptWithKey(p, key, a.ivIndex, d)
            == if !a.longMic && key == a.key && d.ctx.seqNumber == a.seqNumber then Some(message) else None
  {
    var b := Params(key, false, d.ctx.seqNumber, d.src, d.ctx.dst, a.ivIndex);
    if Decrypt(p, b, [], d.payload).1 {
      NonceInjective(a, b);
    }
    if a == b {
      AccessRoundTrip(p, a, [], message);
    }
  }

  lemma MessageAcceptedIff(p: Primitives, ring: KeyRing, a: Params, message: Bytes, d: Delivery)
    requires p.Lawful() && a.Valid() && !IsVirtual(a.dst)
    requires d.payload == Encrypt(p, a, [], message) && d.src == a.src && d.ctx.dst == a.dst
    requires d.ctx.aid == if a.key.AppKey? then Some(Aid(p, a.key.key)) else None
    requires Genuine(p, a, d.payload)
    ensures TryDecrypt(p, ring, a.ivIndex, d)
            == if !a.longMic && d.ctx.seqNumber == a.seqNumber && FindsKey(p, ring, a) then Some(message) else None
  {
    match d.ctx.aid
    case Some(aid) =>
      var key := AppKeyByAid(p, ring.appKeys, aid);
      if key.Some? {
        TrialSucceedsIff(p, a, message, AppKey(key.value), d);
      }
    case None =>
      if d.src in ring.devKeys {
        TrialSucceedsIff(p, a, message, DevKey(ring.devKeys[d.src]), d);
      }
      if d.ctx.dst in ring.devKeys {
        TrialSucceedsIff(p, a, message, DevKey(ring.devKeys[d.ctx.dst]), d);
      }
  }

  lemma AcceptedOne(p: Primitives, ring: KeyRing, ivIndex: Bytes, d: Delivery)
    ensures Accepted(p, ring, ivIndex, []) == []
    ensures Accepted(p, ring, ivIndex, [d])
            == match TryDecrypt(p, ring, ivIndex, d) case Some(plaintext) => [plaintext] case None => []
  {
    assert [d][1..] == [];
  }

  /** The sender's message in the state that the receiver has for it: nothing newer, and
      only segments and PDUs of older messages on the way. */
  ghost predicate OnTheWay(p: Primitives, a: Params, m: Outgoing, s: Peer, pdus: seq<Pdu>) {
    var ivIndex := FromBigEndian(a.ivIndex);
    && Fits(m) && |m.raw| <= OFFSET_RANGE * SEGMENT_SIZE && Genuine(p, a, m.raw)
    && Ordered(s) && (s.stored.Some? ==> s.stored.value < SeqAuth(ivIndex, m.seqNumber))
    && forall pdu :: pdu in pdus ==> pdu in OnAir(m) || Older(ivIndex, m, pdu)
  }

  lemma OnTheWayIsTraffic(p: Primitives, a: Params, m: Outgoing, s: Peer, pdus: seq<Pdu>)
    requires OnTheWay(p, a, m, s, pdus)
    ensures Traffic(FromBigEndian(a.ivIndex), m, pdus)
  {
    forall pdu | pdu in OnAir(m) ensures Ours(m, pdu) {
      var i :| 0 <= i < |OnAir(m)| && OnAir(m)[i] == pdu;
      assert pdu == PduOf(m, i);
    }
  }

  /** End to end. Whatever the order, losses and repeats of its PDUs, and among late
      PDUs of older messages, an access message is accepted, once and unchanged, exactly
      if all PDUs arrive, the first of them first, it has a short MIC and no virtual
      destination, and the receiver finds its key. */
  lemma AccessMessageArrivesIff(p: Primitives, ring: KeyRing, a: Params, uuid: Option<Bytes>, message: Bytes,
                                m: Outgoing, s: Peer, pdus: seq<Pdu>)
    requires p.Lawful() && a.Valid()
    requires SendAccess(p, a, uuid, message) == Some(m) && OnTheWay(p, a, m, s, pdus)
    ensures var ivIndex := FromBigEndian(a.ivIndex);
            var auth := SeqAuth(ivIndex, m.seqNumber);
            Accepted(p, ring, a.ivIndex, Of(auth, ReceiveAll(ivIndex, s, pdus).1))
            == if && AllArrived(m, pdus) && First(ivIndex, auth, pdus) == Some(PduOf(m, 0))
                  && !a.longMic && !IsVirtual(a.dst) && FindsKey(p, ring, a)
               then [message] else []
  {
    var ivIndex := FromBigEndian(a.ivIndex);
    var auth := SeqAuth(ivIndex, m.seqNumber);
    OnTheWayIsTraffic(p, a, m, s, pdus);
    Reassembly(ivIndex, m, s, pdus);
    if AllArrived(m, pdus) {
      var first := First(ivIndex, auth, pdus).value;
      DeliveryAcceptedIff(p, ring, a, uuid, message, m, first, auth);
    }
  }

  lemma DeliveryAcceptedIff(p: Primitives, ring: KeyRing, a: Params, uuid: Option<Bytes>, message: Bytes,
                            m: Outgoing, first: Pdu, auth: int)
    requires p.Lawful() && a.Valid() && SendAccess(p, a, uuid, message) == Some(m)
    requires Fits(m) && Genuine(p, a, m.raw) && Ours(m, first)
    ensures Accepted(p, ring, a.ivIndex, [Delivery(m.src, first.ctx, auth, m.raw)])
            == if first == PduOf(m, 0) && !a.longMic && !IsVirtual(a.dst) && FindsKey(p, ring, a) then [message] else []
  {
    var d := Delivery(m.src, first.ctx, auth, m.raw);
    var i :| 0 <= i < |Split(m.raw)| && first == PduOf(m, i);
    assert first == PduOf(m, 0) <==> d.ctx.seqNumber == a.seqNumber;
    AcceptedOne(p, ring, a.ivIndex, d);
    if !IsVirtual(a.dst) {
      MessageAcceptedIff(p, ring, a, message, d);
    }
  }

  lemma AllOnAir(ivIndex: nat, m: Outgoing)
    requires Fits(m) && |m.raw| <= OFFSET_RANGE * SEGMENT_SIZE
    requires |m.raw| <= MAX_UNSEGMENTED || IsUnicast(m.dst)
    ensures AllArrived(m, OnAir(m)) && First(ivIndex, SeqAuth(ivIndex, m.seqNumber), OnAir(m)) == Some(PduOf(m, 0))
  {
    forall i | 0 <= i < |Split(m.raw)| ensures PduOf(m, i) in OnAir(m) {
      assert OnAir(m)[i] == PduOf(m, i);
    }
    OursHasAuth(ivIndex, m, 0);
    assert OnAir(m)[0] == PduOf(m, 0);
  }

  lemma NoneOnAir(m: Outgoing)
    requires Fits(m) && |m.raw| > MAX_UNSEGMENTED && !IsUnicast(m.dst)
    ensures OnAir(m) == [] && !AllArrived(m, OnAir(m))
  {
    assert PduOf(m, 0) !in OnAir(m);
  }

  /** Over a link that delivers what is sent, a message of up to 384 bytes is accepted by a
      receiver that has heard nothing of this source exactly if, besides, it needs no segments
      or has a unicast destination. */
  lemma DirectlySentIsAccepted(p: Primitives, ring: KeyRing, a: Params, uuid: Option<Bytes>, message: Bytes, m: Outgoing)
    requires p.Lawful() && a.Valid() && SendAccess(p, a, uuid, message) == Some(m)
    requires Fits(m) && |m.raw| <= OFFSET_RANGE * SEGMENT_SIZE && Genuine(p, a, m.raw)
    ensures var ivIndex := FromBigEndian(a.ivIndex);
            Accepted(p, ring, a.ivIndex, Of(SeqAuth(ivIndex, m.seqNumber), ReceiveAll(ivIndex, Peer(None, None), OnAir(m)).1))
            == if (|m.raw| <= 15 || a.dst[0] < 0x80) && !a.longMic && !IsVirtual(a.dst) && FindsKey(p, ring, a) then [message] else []
  {
    AccessMessageArrivesIff(p, ring, a, uuid, message, m, Peer(None, None), OnAir(m));
    AddressKinds(a.dst);
    if |m.raw| <= MAX_UNSEGMENTED || IsUnicast(a.dst) {
      AllOnAir(FromBigEndian(a.ivIndex), m);
    } else {
      NoneOnAir(m);
    }
  }
}
