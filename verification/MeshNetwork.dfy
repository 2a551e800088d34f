/** Bluetooth Mesh network PDUs and private beacons (whad/btmesh/crypto.py), with
    the sending and receiving code around them (whad/btmesh/stack/network). A
    result `None` stands for an exception. */
module MeshNetwork {
  import opened ByteStrings
  import opened Ciphers

  /** NID, encryption key and privacy key: sections 3.9.6.3.1 of the Mesh Protocol. */
  datatype Credentials = Credentials(nid: Byte, encKey: Bytes, privacyKey: Bytes)

  /** Managed flooding and directed forwarding credentials of one network key. */
  datatype Manager = Manager(mf: Credentials, df: Credentials, privateBeaconKey: Bytes) {
    /** The managed flooding credentials win when both NIDs are the same. */
    function ByNid(nid: Byte): Option<Credentials> {
      if nid == mf.nid then Some(mf) else if nid == df.nid then Some(df) else None
    }
  }

  const SMK2: Bytes := [0x73, 0x6D, 0x6B, 0x32]
  const NKPK: Bytes := [0x6E, 0x6B, 0x70, 0x6B]
  const ID128: Bytes := [0x69, 0x64, 0x31, 0x32, 0x38, 0x01]

  function S1(p: Primitives, m: Bytes): Bytes {
    p.cmac(Zeros(16), m)
  }

  function K1(p: Primitives, n: Bytes, salt: Bytes, info: Bytes): Bytes {
    p.cmac(p.cmac(salt, n), info)
  }

  /** The low 263 bits of three chained CMACs, as 33 bytes. */
  function K2(p: Primitives, n: Bytes, info: Bytes): (r: Bytes)
    requires forall key, message :: |p.cmac(key, message)| == 16
    ensures |r| == 33 && r[0] < 128
  {
    var t := p.cmac(S1(p, SMK2), n);
    var t1 := p.cmac(t, info + [1]);
    var t2 := p.cmac(t, t1 + info + [2]);
    var t3 := p.cmac(t, t2 + info + [3]);
    var low := (t1 + t2 + t3)[15..];
    [low[0] % 128] + low[1..]
  }

  function CredentialsOf(p: Primitives, netKey: Bytes, info: Byte): (c: Credentials)
    requires forall key, message :: |p.cmac(key, message)| == 16
    ensures c.nid < 128 && |c.encKey| == 16 && |c.privacyKey| == 16
  {
    var key := K2(p, netKey, [info]);
    Credentials(key[0], key[1..17], key[17..33])
  }

  function ManagerOf(p: Primitives, netKey: Bytes): Manager
    requires forall key, message :: |p.cmac(key, message)| == 16
  {
    Manager(CredentialsOf(p, netKey, 0), CredentialsOf(p, netKey, 2), K1(p, netKey, S1(p, NKPK), ID128))
  }

  /** What the keys of a network are: sections 3.9.6.3.1 and 3.9.6.3.5. */
  lemma ManagerOfIs(p: Primitives, netKey: Bytes)
    requires p.Lawful()
    ensures var m, mf, df := ManagerOf(p, netKey), K2(p, netKey, [0]), K2(p, netKey, [2]);
            && m.mf == Credentials(mf[0], mf[1..17], mf[17..]) && m.df == Credentials(df[0], df[1..17], df[17..])
            && m.privateBeaconKey ==
                 p.cmac(p.cmac(p.cmac(Zeros(16), [0x6E, 0x6B, 0x70, 0x6B]), netKey), [0x69, 0x64, 0x31, 0x32, 0x38, 0x01])
  {
  }

  /** A NID that both credentials have stands for managed flooding. */
  lemma ByNidIs(m: Manager, nid: Byte)
    ensures nid == m.mf.nid ==> m.ByNid(nid) == Some(m.mf)
    ensures nid != m.mf.nid && nid == m.df.nid ==> m.ByNid(nid) == Some(m.df)
    ensures nid != m.mf.nid && nid != m.df.nid ==> m.ByNid(nid) == None
  {
  }

  lemma ShiftSum(x: nat, power: nat, y: nat, digit: nat)
    ensures 256 * (x * power + y) + digit == x * (256 * power) + (256 * y + digit)
  {
  }

  lemma {:induction false} FromBigEndianAppend(a: Bytes, b: Bytes)
    ensures FromBigEndian(a + b) == FromBigEndian(a) * Pow256(|b|) + FromBigEndian(b)
  {
    if b == [] {
      assert a + b == a;
    } else {
      var n := |b| - 1;
      var whole, x, y := a + b, FromBigEndian(a), FromBigEndian(b[..n]);
      assert whole[..|whole| - 1] == a + b[..n] && whole[|whole| - 1] == b[n];
      FromBigEndianAppend(a, b[..n]);
      assert FromBigEndian(whole) == 256 * (x * Pow256(n) + y) + b[n] as int;
      ShiftSum(x, Pow256(n), y, b[n]);
    }
  }

  lemma SplitProduct(k: nat, e: nat, unit: nat)
    requires e < 128
    ensures (128 * k + e) * unit == k * (128 * unit) + e * unit && e * unit + unit <= 128 * unit
  {
    assert (128 * k) * unit == k * (128 * unit);
    assert (e + 1) * unit <= 128 * unit;
  }

  /** `k2` as section 3.8.2.6 has it: three chained MACs as one number, and of that what is
      left modulo 2^263, which is 128 times 256^32. */
  lemma K2Is(p: Primitives, n: Bytes, info: Bytes) returns (k: nat)
    requires p.Lawful()
    ensures var t := p.cmac(p.cmac(Zeros(16), [0x73, 0x6D, 0x6B, 0x32]), n);
            var t1 := p.cmac(t, info + [1]);
            var t2 := p.cmac(t, t1 + info + [2]);
            var t3 := p.cmac(t, t2 + info + [3]);
            FromBigEndian(t1 + t2 + t3) == k * (128 * Pow256(32)) + FromBigEndian(K2(p, n, info))
    ensures FromBigEndian(K2(p, n, info)) < 128 * Pow256(32)
  {
    var t := p.cmac(p.cmac(Zeros(16), [0x73, 0x6D, 0x6B, 0x32]), n);
    var t1 := p.cmac(t, info + [1]);
    var t2 := p.cmac(t, t1 + info + [2]);
    var all := t1 + t2 + p.cmac(t, t2 + info + [3]);
    k := LowBits(all);
    assert all[15..][0] == all[15] && all[15..][1..] == all[16..];
  }

  lemma LowPart(high: nat, mid: Byte, low: nat, unit: nat) returns (k: nat)
    requires low < unit
    ensures (256 * high + mid as int) * unit + low == k * (128 * unit) + ((mid % 128) as int * unit + low)
    ensures (mid % 128) as int * unit + low < 128 * unit
  {
    var q: nat, e: nat := 256 * high + mid, mid % 128;
    k := q / 128;
    assert q == 128 * k + e;
    SplitProduct(k, e, unit);
  }

  /** Clearing the top bit of byte 15 takes a multiple of 128 units away, where a unit is what
      that byte counts. */
  lemma LowBits(all: Bytes) returns (k: nat)
    requires |all| >= 16
    ensures var unit := Pow256(|all| - 16);
            && FromBigEndian(all) == k * (128 * unit) + FromBigEndian([all[15] % 128] + all[16..])
            && FromBigEndian([all[15] % 128] + all[16..]) < 128 * unit
  {
    var high, mid, low := all[..15], all[15], all[16..];
    assert all == (high + [mid]) + low;
    FromBigEndianAppend(high + [mid], low);
    FromBigEndianAppend(high, [mid]);
    FromBigEndianAppend([mid % 128], low);
    OneByte(mid);
    OneByte(mid % 128);
    FromBigEndianBound(low);
    k := LowPart(FromBigEndian(high), mid, FromBigEndian(low), Pow256(|low|));
  }

  lemma OneByte(b: Byte)
    ensures FromBigEndian([b]) == b && Pow256(1) == 256
  {
    assert FromBigEndian([]) == 0;
    assert [b][..0] == [];
  }

  // ----- Network PDUs -----

  /** The header fields that are obfuscated. */
  datatype Header = Header(ctl: nat, ttl: nat, seqNumber: nat, src: nat) {
    /** One bit, 7 bits, 24 bits and 16 bits. */
    predicate InRange() {
      ctl < 2 && ttl < 128 && seqNumber < 0x100_0000 && src < 0x1_0000
    }

    function Bytes(): (r: Bytes)
      requires InRange()
      ensures |r| == 6
    {
      [ctl * 128 + ttl] + BigEndian(seqNumber, 3) + BigEndian(src, 2)
    }

    function MacLen(): nat {
      if ctl == 1 then 8 else 4
    }

    /** The network nonce, section 3.9.5.1 of the Mesh Protocol. */
    function Nonce(ivIndex: ByteStrings.Bytes): ByteStrings.Bytes
      requires InRange()
    {
      [0] + Bytes() + [0, 0] + ivIndex
    }
  }

  /** How the receiver reads the six bytes. */
  function ParseHeader(b: Bytes): (h: Header)
    requires |b| == 6
  {
    Header(b[0] / 128, b[0] % 128, FromBigEndian(b[1..4]), FromBigEndian(b[4..6]))
  }

  /** The same, in range. */
  function ReadHeader(b: Bytes): (h: Header)
    requires |b| == 6
    ensures h.InRange()
  {
    FromBigEndianBound(b[1..4]);
    FromBigEndianBound(b[4..6]);
    assert Pow256(3) == 0x100_0000 && Pow256(2) == 0x1_0000;
    ParseHeader(b)
  }

  lemma HeaderRoundTrip(h: Header)
    requires h.InRange()
    ensures ParseHeader(h.Bytes()) == h
  {
    var b := h.Bytes();
    assert b[1..4] == BigEndian(h.seqNumber, 3) && b[4..6] == BigEndian(h.src, 2);
    assert Pow256(3) == 0x100_0000 && Pow256(2) == 0x1_0000;
    BigEndianRoundTrip(h.seqNumber, 3);
    BigEndianRoundTrip(h.src, 2);
    assert b[0] == h.ctl * 128 + h.ttl;
  }

  /** No two headers share a nonce, nor do two IV indexes. */
  lemma NonceInjective(h: Header, h': Header, ivIndex: Bytes, ivIndex': Bytes)
    requires h.InRange() && h'.InRange()
    requires h.Nonce(ivIndex) == h'.Nonce(ivIndex')
    ensures h == h' && ivIndex == ivIndex'
  {
    assert h.Nonce(ivIndex)[1..7] == h.Bytes() && h'.Nonce(ivIndex')[1..7] == h'.Bytes();
    assert h.Nonce(ivIndex)[9..] == ivIndex && h'.Nonce(ivIndex')[9..] == ivIndex';
    HeaderRoundTrip(h);
    HeaderRoundTrip(h');
  }

  /** The header and the network nonce of section 3.9.5.1, written out for one header. */
  lemma HeaderLayout(ivIndex: Bytes)
    ensures var h := Header(1, 5, 0x01_0203, 0x0405);
            && h.Bytes() == [0x85, 1, 2, 3, 4, 5]
            && h.Nonce(ivIndex) == [0, 0x85, 1, 2, 3, 4, 5, 0, 0] + ivIndex
            && h.MacLen() == 8 && h.(ctl := 0).MacLen() == 4
  {
    assert ByteAt(0x01_0203, 0) == 3 && ByteAt(0x01_0203, 1) == ByteAt(0x0102, 0) == 2;
    assert ByteAt(0x01_0203, 2) == ByteAt(0x0102, 1) == ByteAt(1, 0) == 1;
    assert ByteAt(0x0405, 0) == 5 && ByteAt(0x0405, 1) == ByteAt(4, 0) == 4;
    assert BigEndian(0x01_0203, 3) == [1, 2, 3] && BigEndian(0x0405, 2) == [4, 5];
  }

  function Encrypt(p: Primitives, mgr: Manager, nid: Byte, h: Header, dst: Bytes, transport: Bytes, ivIndex: Bytes): Option<Bytes>
    requires h.InRange()
  {
    match mgr.ByNid(nid)
    case None => None
    case Some(c) =>
      var (cipher, mic) := p.ccm.seal(c.encKey, h.Nonce(ivIndex), [], dst + transport, h.MacLen());
      Some(cipher + mic)
  }

  /** The plaintext and whether the MIC holds. */
  function Decrypt(p: Primitives, mgr: Manager, nid: Byte, h: Header, encrypted: Bytes, ivIndex: Bytes): Option<(Bytes, bool)>
    requires h.InRange()
  {
    match mgr.ByNid(nid)
    case None => None
    case Some(c) =>
      var cut := if |encrypted| >= h.MacLen() then |encrypted| - h.MacLen() else 0;
      Some(p.ccm.open(c.encKey, h.Nonce(ivIndex), [], encrypted[..cut], encrypted[cut..], h.MacLen()))
  }

  /** The six-byte mask, section 3.9.7.3 of the Mesh Protocol. It needs seven
      encrypted bytes: AES rejects an input that is not a whole block. */
  function PrivacyMask(p: Primitives, mgr: Manager, nid: Byte, encrypted: Bytes, ivIndex: Bytes): Option<Bytes> {
    var plaintext := Zeros(5) + ivIndex + encrypted[..Min(7, |encrypted|)];
    match mgr.ByNid(nid)
    case None => None
    case Some(c) =>
      if |plaintext| != 16 then None
      else
        var block := p.aes.encrypt(c.privacyKey, plaintext);
        Some(block[..Min(6, |block|)])
  }

  function Obfuscate(p: Primitives, mgr: Manager, nid: Byte, h: Header, encrypted: Bytes, ivIndex: Bytes): Option<Bytes>
    requires h.InRange()
  {
    match PrivacyMask(p, mgr, nid, encrypted, ivIndex)
    case None => None
    case Some(mask) => Some(Xor(h.Bytes(), mask))
  }

  function Deobfuscate(p: Primitives, mgr: Manager, nid: Byte, obfuscated: Bytes, encrypted: Bytes, ivIndex: Bytes): Option<Bytes> {
    match PrivacyMask(p, mgr, nid, encrypted, ivIndex)
    case None => None
    case Some(mask) => Some(Xor(obfuscated, mask))
  }

  /** What goes over the air. */
  datatype AirPdu = AirPdu(nid: Byte, obfuscated: Bytes, encrypted: Bytes)

  /** `on_lower_transport_packet`: encrypt, then obfuscate. */
  function Send(p: Primitives, mgr: Manager, nid: Byte, h: Header, dst: Bytes, transport: Bytes, ivIndex: Bytes): Option<AirPdu>
    requires h.InRange()
  {
    match Encrypt(p, mgr, nid, h, dst, transport, ivIndex)
    case None => None
    case Some(encrypted) =>
      match Obfuscate(p, mgr, nid, h, encrypted, ivIndex)
      case None => None
      case Some(obfuscated) => Some(AirPdu(nid, obfuscated, encrypted))
  }

  /** What goes over the air, written out: destination and transport PDU under CCM with a MIC
      of 8 bytes for control and 4 for access messages, and the header under a mask made of
      the IV index and the first seven encrypted bytes. */
  lemma SendIs(p: Primitives, mgr: Manager, nid: Byte, h: Header, dst: Bytes, transport: Bytes, ivIndex: Bytes)
    requires p.Lawful() && mgr.ByNid(nid).Some? && h.InRange() && |ivIndex| == 4
    requires Send(p, mgr, nid, h, dst, transport, ivIndex).Some?
    ensures var pdu, c := Send(p, mgr, nid, h, dst, transport, ivIndex).value, mgr.ByNid(nid).value;
            var (cipher, mic) := p.ccm.seal(c.encKey, [0] + h.Bytes() + [0, 0] + ivIndex, [], dst + transport, if h.ctl == 1 then 8 else 4);
            && pdu.nid == nid && pdu.encrypted == cipher + mic && |pdu.encrypted| >= 7
            && pdu.obfuscated == Xor(h.Bytes(), p.aes.encrypt(c.privacyKey, [0, 0, 0, 0, 0] + ivIndex + pdu.encrypted[..7])[..6])
  {
    assert Zeros(5) == [0, 0, 0, 0, 0];
  }

  datatype Received = Received(header: Header, plaintext: Bytes, authentic: bool)

  /** `on_net_pdu_received`: deobfuscate, rebuild the header from the clear bytes,
      and decrypt with the nonce that it gives. */
  function Receive(p: Primitives, mgr: Manager, pdu: AirPdu, ivIndex: Bytes): Option<Received> {
    match Deobfuscate(p, mgr, pdu.nid, pdu.obfuscated, pdu.encrypted, ivIndex)
    case None => None
    case Some(clear) =>
      if |clear| != 6 then None
      else
        var h := ReadHeader(clear);
        match Decrypt(p, mgr, pdu.nid, h, pdu.encrypted, ivIndex)
        case None => None
        case Some((plaintext, ok)) => Some(Received(h, plaintext, ok))
  }

  lemma {:induction false} FromBigEndianBound(s: Bytes)
    ensures FromBigEndian(s) < Pow256(|s|)
  {
    if s != [] {
      FromBigEndianBound(s[..|s| - 1]);
    }
  }

  ghost predicate Parameters(p: Primitives, mgr: Manager, nid: Byte, h: Header, dst: Bytes, ivIndex: Bytes) {
    && p.Lawful() && mgr.ByNid(nid).Some? && h.InRange() && |dst| == 2 && |ivIndex| == 4
  }

  lemma MaskExists(p: Primitives, mgr: Manager, nid: Byte, encrypted: Bytes, ivIndex: Bytes)
    requires p.Lawful() && mgr.ByNid(nid).Some? && |ivIndex| == 4
    ensures PrivacyMask(p, mgr, nid, encrypted, ivIndex).Some? <==> |encrypted| >= 7
    ensures |encrypted| >= 7 ==> |PrivacyMask(p, mgr, nid, encrypted, ivIndex).value| == 6
  {
  }

  lemma DeobfuscateObfuscated(p: Primitives, mgr: Manager, nid: Byte, h: Header, encrypted: Bytes, ivIndex: Bytes)
    requires p.Lawful() && mgr.ByNid(nid).Some? && |ivIndex| == 4 && h.InRange() && |encrypted| >= 7
    ensures var o := Obfuscate(p, mgr, nid, h, encrypted, ivIndex);
            o.Some? && Deobfuscate(p, mgr, nid, o.value, encrypted, ivIndex) == Some(h.Bytes())
  {
    MaskExists(p, mgr, nid, encrypted, ivIndex);
    XorTwice(h.Bytes(), PrivacyMask(p, mgr, nid, encrypted, ivIndex).value);
  }

  /** The receiver gets the six header bytes, destination and transport PDU back with
      a valid MIC, whichever credentials the NID selects. Sending fails exactly for an
      empty access PDU: it leaves no seventh byte for the privacy mask. */
  lemma NetworkRoundTrip(p: Primitives, mgr: Manager, nid: Byte, h: Header, dst: Bytes, transport: Bytes, ivIndex: Bytes)
    requires Parameters(p, mgr, nid, h, dst, ivIndex)
    ensures var sent := Send(p, mgr, nid, h, dst, transport, ivIndex);
            && (sent.Some? <==> h.ctl == 1 || transport != [])
            && (sent.Some? ==> Receive(p, mgr, sent.value, ivIndex) == Some(Received(h, dst + transport, true)))
  {
    var c := mgr.ByNid(nid).value;
    var (cipher, mic) := p.ccm.seal(c.encKey, h.Nonce(ivIndex), [], dst + transport, h.MacLen());
    var encrypted := cipher + mic;
    assert Encrypt(p, mgr, nid, h, dst, transport, ivIndex) == Some(encrypted);
    assert |encrypted| == 2 + |transport| + h.MacLen();
    MaskExists(p, mgr, nid, encrypted, ivIndex);
    if |encrypted| >= 7 {
      DeobfuscateObfuscated(p, mgr, nid, h, encrypted, ivIndex);
      HeaderRoundTrip(h);
      assert encrypted[..|encrypted| - h.MacLen()] == cipher && encrypted[|encrypted| - h.MacLen()..] == mic;
    }
  }

  /** A PDU as sent but for its obfuscated header, which reads `g` instead. The receiver
      cannot tell: the mask depends on the ciphertext alone. */
  function Altered(p: Primitives, mgr: Manager, nid: Byte, g: Header, encrypted: Bytes, ivIndex: Bytes): Option<AirPdu>
    requires g.InRange()
  {
    match Obfuscate(p, mgr, nid, g, encrypted, ivIndex)
    case None => None
    case Some(obfuscated) => Some(AirPdu(nid, obfuscated, encrypted))
  }

  /** The whole header is in the nonce. So an altered PDU is read with header `g`, and its
      MIC check fails unless the tag happens to fit another nonce. */
  lemma AlteredPduFailsMic(p: Primitives, mgr: Manager, nid: Byte, h: Header, g: Header, dst: Bytes, transport: Bytes, ivIndex: Bytes)
    requires Parameters(p, mgr, nid, h, dst, ivIndex) && (h.ctl == 1 || transport != [])
    requires g.InRange() && g != h && g.ctl == h.ctl
    requires var c := mgr.ByNid(nid).value;
             var (cipher, mic) := p.ccm.seal(c.encKey, h.Nonce(ivIndex), [], dst + transport, h.MacLen());
             Unforged(p.ccm, c.encKey, h.Nonce(ivIndex), [], cipher, mic, h.MacLen())
    ensures var altered := Altered(p, mgr, nid, g, Encrypt(p, mgr, nid, h, dst, transport, ivIndex).value, ivIndex);
            && altered.Some? && Receive(p, mgr, altered.value, ivIndex).Some?
            && var r := Receive(p, mgr, altered.value, ivIndex).value;
               r.header == g && !r.authentic
  {
    var c := mgr.ByNid(nid).value;
    var (cipher, mic) := p.ccm.seal(c.encKey, h.Nonce(ivIndex), [], dst + transport, h.MacLen());
    var encrypted := cipher + mic;
    assert |encrypted| == 2 + |transport| + h.MacLen();
    DeobfuscateObfuscated(p, mgr, nid, g, encrypted, ivIndex);
    HeaderRoundTrip(g);
    assert encrypted[..|encrypted| - g.MacLen()] == cipher && encrypted[|encrypted| - g.MacLen()..] == mic;
    if g.Nonce(ivIndex) == h.Nonce(ivIndex) {
      NonceInjective(g, h, ivIndex, ivIndex);
    }
  }

  /** `relay_packet` lowers the TTL and obfuscates again, but keeps the ciphertext: what it
      makes is such a PDU. */
  function Relay(p: Primitives, mgr: Manager, nid: Byte, h: Header, encrypted: Bytes, ivIndex: Bytes): Option<AirPdu>
    requires h.InRange() && h.ttl >= 2
  {
    Altered(p, mgr, nid, h.(ttl := h.ttl - 1), encrypted, ivIndex)
  }

  lemma RelayedPduFailsMic(p: Primitives, mgr: Manager, nid: Byte, h: Header, dst: Bytes, transport: Bytes, ivIndex: Bytes)
    requires Parameters(p, mgr, nid, h, dst, ivIndex) && h.ttl >= 2 && (h.ctl == 1 || transport != [])
    requires var c := mgr.ByNid(nid).value;
             var (cipher, mic) := p.ccm.seal(c.encKey, h.Nonce(ivIndex), [], dst + transport, h.MacLen());
             Unforged(p.ccm, c.encKey, h.Nonce(ivIndex), [], cipher, mic, h.MacLen())
    ensures var encrypted := Encrypt(p, mgr, nid, h, dst, transport, ivIndex).value;
            var relayed := Relay(p, mgr, nid, h, encrypted, ivIndex);
            && relayed.Some? && Receive(p, mgr, relayed.value, ivIndex).Some?
            && var r := Receive(p, mgr, relayed.value, ivIndex).value;
               r.header == h.(ttl := h.ttl - 1) && !r.authentic
  {
    AlteredPduFailsMic(p, mgr, nid, h, h.(ttl := h.ttl - 1), dst, transport, ivIndex);
  }

  // ----- The message cache -----

  /** `on_net_pdu_received`, up to its address checks, from a cache of sequence numbers
      and sources. A PDU enters the cache before its MIC is checked. */
  function Admit(p: Primitives, mgr: Manager, ivIndex: Bytes, cache: seq<(nat, nat)>, pdu: AirPdu): (seq<(nat, nat)>, Option<Received>) {
    match Receive(p, mgr, pdu, ivIndex)
    case None => (cache, None)
    case Some(r) =>
      var entry := (r.header.seqNumber, r.header.src);
      if entry in cache then (cache, None) else (cache + [entry], if r.authentic then Some(r) else None)
  }

  function AdmitAll(p: Primitives, mgr: Manager, ivIndex: Bytes, pdus: seq<AirPdu>): (r: (seq<(nat, nat)>, seq<Option<Received>>))
    ensures |r.1| == |pdus|
  {
    if pdus == [] then ([], [])
    else
      var (cache, before) := AdmitAll(p, mgr, ivIndex, pdus[..|pdus| - 1]);
      var (next, up) := Admit(p, mgr, ivIndex, cache, pdus[|pdus| - 1]);
      (next, before + [up])
  }

  /** Sequence number and source that a PDU shows. */
  function Shown(p: Primitives, mgr: Manager, ivIndex: Bytes, pdu: AirPdu): Option<(nat, nat)> {
    match Receive(p, mgr, pdu, ivIndex)
    case None => None
    case Some(r) => Some((r.header.seqNumber, r.header.src))
  }

  function ShownAll(p: Primitives, mgr: Manager, ivIndex: Bytes, pdus: seq<AirPdu>): (r: seq<Option<(nat, nat)>>)
    ensures |r| == |pdus|
  {
    seq(|pdus|, i requires 0 <= i < |pdus| => Shown(p, mgr, ivIndex, pdus[i]))
  }

  lemma {:induction false} CacheHoldsShown(p: Primitives, mgr: Manager, ivIndex: Bytes, pdus: seq<AirPdu>)
    ensures forall e :: e in AdmitAll(p, mgr, ivIndex, pdus).0 <==> Some(e) in ShownAll(p, mgr, ivIndex, pdus)
  {
    if pdus != [] {
      var front, pdu := pdus[..|pdus| - 1], pdus[|pdus| - 1];
      CacheHoldsShown(p, mgr, ivIndex, front);
      assert ShownAll(p, mgr, ivIndex, pdus) == ShownAll(p, mgr, ivIndex, front) + [Shown(p, mgr, ivIndex, pdu)];
    }
  }

  lemma {:induction false} AdmittedAt(p: Primitives, mgr: Manager, ivIndex: Bytes, pdus: seq<AirPdu>, i: nat)
    requires i < |pdus|
    ensures AdmitAll(p, mgr, ivIndex, pdus).1[i]
            == Admit(p, mgr, ivIndex, AdmitAll(p, mgr, ivIndex, pdus[..i]).0, pdus[i]).1
  {
    if i < |pdus| - 1 {
      AdmittedAt(p, mgr, ivIndex, pdus[..|pdus| - 1], i);
      assert pdus[..|pdus| - 1][..i] == pdus[..i];
    }
  }

  /** Over any run, a PDU is admitted exactly if its MIC holds and no PDU before it,
      admitted or not, shows the same sequence number and source. */
  lemma AdmittedIffFirst(p: Primitives, mgr: Manager, ivIndex: Bytes, pdus: seq<AirPdu>, i: nat)
    requires i < |pdus|
    ensures var r := Receive(p, mgr, pdus[i], ivIndex);
            AdmitAll(p, mgr, ivIndex, pdus).1[i]
            == if r.Some? && r.value.authentic && Shown(p, mgr, ivIndex, pdus[i]) !in ShownAll(p, mgr, ivIndex, pdus[..i])
               then r else None
  {
    AdmittedAt(p, mgr, ivIndex, pdus, i);
    CacheHoldsShown(p, mgr, ivIndex, pdus[..i]);
  }

  lemma AdmitTwo(p: Primitives, mgr: Manager, ivIndex: Bytes, a: AirPdu, b: AirPdu)
    ensures AdmitAll(p, mgr, ivIndex, [a, b]).1
            == [Admit(p, mgr, ivIndex, [], a).1, Admit(p, mgr, ivIndex, Admit(p, mgr, ivIndex, [], a).0, b).1]
  {
    assert [a, b][..1] == [a] && [a][..0] == [];
    assert AdmitAll(p, mgr, ivIndex, [a]) == (Admit(p, mgr, ivIndex, [], a).0, [] + [Admit(p, mgr, ivIndex, [], a).1]);
  }

  /** So a copy whose TTL was altered, and whose MIC fails, keeps the genuine PDU out when it
      comes first. */
  lemma AlteredCopyShutsOut(p: Primitives, mgr: Manager, nid: Byte, h: Header, ttl: nat, dst: Bytes, transport: Bytes, ivIndex: Bytes)
    requires Parameters(p, mgr, nid, h, dst, ivIndex) && (h.ctl == 1 || transport != [])
    requires ttl < 128 && ttl != h.ttl
    requires var c := mgr.ByNid(nid).value;
             var (cipher, mic) := p.ccm.seal(c.encKey, h.Nonce(ivIndex), [], dst + transport, h.MacLen());
             Unforged(p.ccm, c.encKey, h.Nonce(ivIndex), [], cipher, mic, h.MacLen())
    ensures var sent := Send(p, mgr, nid, h, dst, transport, ivIndex);
            var copy := Altered(p, mgr, nid, h.(ttl := ttl), Encrypt(p, mgr, nid, h, dst, transport, ivIndex).value, ivIndex);
            && sent.Some? && copy.Some?
            && AdmitAll(p, mgr, ivIndex, [copy.value, sent.value]).1 == [None, None]
            && AdmitAll(p, mgr, ivIndex, [sent.value, copy.value]).1
               == [Some(Received(h, dst + transport, true)), None]
  {
    var g := h.(ttl := ttl);
    NetworkRoundTrip(p, mgr, nid, h, dst, transport, ivIndex);
    AlteredPduFailsMic(p, mgr, nid, h, g, dst, transport, ivIndex);
    var sent := Send(p, mgr, nid, h, dst, transport, ivIndex).value;
    var copy := Altered(p, mgr, nid, g, Encrypt(p, mgr, nid, h, dst, transport, ivIndex).value, ivIndex).value;
    AdmitTwo(p, mgr, ivIndex, copy, sent);
    AdmitTwo(p, mgr, ivIndex, sent, copy);
  }

  class NetworkLayer {
    const primitives: Primitives
    const manager: Manager
    const ivIndex: Bytes
    var cache: seq<(nat, nat)>

    constructor (primitives: Primitives, manager: Manager, ivIndex: Bytes)
      ensures this.primitives == primitives && this.manager == manager && this.ivIndex == ivIndex && cache == []
    {
      this.primitives, this.manager, this.ivIndex, cache := primitives, manager, ivIndex, [];
    }

    method CacheVerif(h: Header) returns (found: bool)
      modifies this
      ensures found == ((h.seqNumber, h.src) in old(cache))
      ensures cache == if found then old(cache) else old(cache) + [(h.seqNumber, h.src)]
    {
      found := (h.seqNumber, h.src) in cache;
      if !found {
        cache := cache + [(h.seqNumber, h.src)];
      }
    }

    /** `on_net_pdu_received`: what goes up to the lower transport layer. */
    method OnNetPduReceived(pdu: AirPdu) returns (up: Option<Received>)
      modifies this
      ensures (cache, up) == Admit(primitives, manager, ivIndex, old(cache), pdu)
    {
      var clear := Deobfuscate(primitives, manager, pdu.nid, pdu.obfuscated, pdu.encrypted, ivIndex);
      if clear.None? || |clear.value| != 6 { return None; }
      var h := ReadHeader(clear.value);
      var cached := CacheVerif(h);
      if cached { return None; }
      var decrypted := Decrypt(primitives, manager, pdu.nid, h, pdu.encrypted, ivIndex);
      if decrypted.None? || !decrypted.value.1 { return None; }
      return Some(Received(h, decrypted.value.0, true));
    }
  }

  // ----- Private beacons -----

  /** Flags byte and IV index. */
  datatype Beacon = Beacon(keyRefresh: nat, ivUpdate: nat, ivi: nat) {
    predicate InRange() { keyRefresh < 2 && ivUpdate < 2 && ivi < 0x1_0000_0000 }

    function Data(): (r: Bytes)
      requires InRange()
      ensures |r| == 5
    {
      [keyRefresh + 2 * ivUpdate] + BigEndian(ivi, 4)
    }
  }

  /** Section 3.10.4.1 of the Mesh Protocol. */
  function BeaconTag(p: Primitives, key: Bytes, random: Bytes, data: Bytes): Bytes {
    var t0 := p.aes.encrypt(key, [0x19] + random + [0, 5]);
    var t1 := p.aes.encrypt(key, Xor(t0, data + Zeros(11)));
    var t2 := Xor(t1, p.aes.encrypt(key, [1] + random + [0, 0]));
    t2[..Min(8, |t2|)]
  }

  function BeaconMask(p: Primitives, key: Bytes, random: Bytes): Bytes {
    var s := p.aes.encrypt(key, [1] + random + [0, 1]);
    s[..Min(5, |s|)]
  }

  /** The obfuscated data and the authentication tag. */
  function ObfuscateBeacon(p: Primitives, mgr: Manager, b: Beacon, random: Bytes): (Bytes, Bytes)
    requires b.InRange()
  {
    (Xor(BeaconMask(p, mgr.privateBeaconKey, random), b.Data()), BeaconTag(p, mgr.privateBeaconKey, random, b.Data()))
  }

  function DeobfuscateBeacon(p: Primitives, mgr: Manager, random: Bytes, obfuscated: Bytes, tag: Bytes): (Bytes, bool) {
    var data := Xor(BeaconMask(p, mgr.privateBeaconKey, random), obfuscated);
    (data, BeaconTag(p, mgr.privateBeaconKey, random, data) == tag)
  }

  /** CCM of RFC 3610 with a 13-byte nonce and an 8-byte MIC, for messages of up to a block:
      the MIC is the CBC-MAC of B_0 and the padded message, under S_0; the message goes
      under S_1. */
  function ReferenceCcm(aes: BlockCipher, key: Bytes, nonce: Bytes, message: Bytes): (Bytes, Bytes)
    requires aes.Lawful() && |nonce| == 13 && |message| <= 16
  {
    var l, m := 2, 8;
    var b0 := [8 * ((m - 2) / 2) + (l - 1)] + nonce + BigEndian(|message|, l);
    var counter := (i: nat) => [l - 1] + nonce + BigEndian(i, l);
    var x := aes.encrypt(key, Xor(aes.encrypt(key, b0), message + Zeros(16 - |message|)));
    (Xor(message, aes.encrypt(key, counter(1))), Xor(x[..m], aes.encrypt(key, counter(0))[..m]))
  }

  /** A private beacon is that, with its random for the nonce. */
  lemma BeaconIsCcm(p: Primitives, mgr: Manager, b: Beacon, random: Bytes)
    requires p.Lawful() && b.InRange() && |random| == 13
    ensures ObfuscateBeacon(p, mgr, b, random) == ReferenceCcm(p.aes, mgr.privateBeaconKey, random, b.Data())
  {
    var key, data := mgr.privateBeaconKey, b.Data();
    SmallNumber(0, 2);
    SmallNumber(1, 2);
    SmallNumber(5, 2);
    assert [0x19] + random + [0, 5] == [0x19] + random + BigEndian(5, 2);
    assert [1] + random + [0, 0] == [1] + random + BigEndian(0, 2) && [1] + random + [0, 1] == [1] + random + BigEndian(1, 2);
    var s := p.aes.encrypt(key, [1] + random + [0, 1]);
    assert Xor(s[..5], data) == Xor(data, s) by {
      XorCommutes(s[..5], data);
    }
    var t1 := p.aes.encrypt(key, Xor(p.aes.encrypt(key, [0x19] + random + [0, 5]), data + Zeros(11)));
    var s0 := p.aes.encrypt(key, [1] + random + [0, 0]);
    assert Xor(t1, s0)[..8] == Xor(t1[..8], s0[..8]);
  }

  /** Flags byte, then the IV index, most significant byte first. */
  lemma BeaconLayout()
    ensures Beacon(1, 0, 5).Data() == [1, 0, 0, 0, 5] && Beacon(0, 1, 5).Data() == [2, 0, 0, 0, 5]
  {
    SmallNumber(5, 4);
  }

  lemma BeaconDataDecodes(b: Beacon)
    requires b.InRange()
    ensures b.Data()[0] % 2 == b.keyRefresh && b.Data()[0] / 2 == b.ivUpdate && FromBigEndian(b.Data()[1..]) == b.ivi
  {
    assert b.Data()[1..] == BigEndian(b.ivi, 4);
    assert Pow256(4) == 0x1_0000_0000;
    BigEndianRoundTrip(b.ivi, 4);
  }

  /** A beacon comes back with its data and a valid tag, for every 13-byte random; the
      five bytes determine the flags and the IV index. */
  lemma BeaconRoundTrip(p: Primitives, mgr: Manager, b: Beacon, random: Bytes)
    requires p.Lawful() && b.InRange() && |random| == 13
    ensures var (obfuscated, tag) := ObfuscateBeacon(p, mgr, b, random);
            && DeobfuscateBeacon(p, mgr, random, obfuscated, tag) == (b.Data(), true)
            && b == Beacon(b.Data()[0] % 2, b.Data()[0] / 2, FromBigEndian(b.Data()[1..]))
  {
    var mask := BeaconMask(p, mgr.privateBeaconKey, random);
    var data := b.Data();
    assert Xor(mask, Xor(mask, data)) == data by {
      assert |mask| == 5;
      XorCommutes(mask, data);
      XorCommutes(mask, Xor(data, mask));
      XorTwice(data, mask);
    }
    BeaconDataDecodes(b);
  }
}
