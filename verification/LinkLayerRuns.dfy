/** Whole runs of the link-layer decryptor over a lossy channel: for one session, and what
    becomes of another. The sender numbers its packets per direction; the channel may drop,
    repeat or reorder them, and change the header bits that are not authenticated. */
module LinkLayerRuns {
  import opened ByteStrings
  import opened Ciphers
  import opened LinkLayer

  /** Packet number `count` of direction `d`, before encryption. */
  datatype Sent = Sent(d: Direction, count: nat, pdu: Bytes)

  /** A packet as it arrives: the two header bytes are those on the air. */
  datatype Delivery = Delivery(sent: Sent, header: Byte, length: Byte)

  datatype Setting = Setting(aes: BlockCipher, ccm: Ccm, material: Material, keys: seq<Bytes>, key: Bytes) {
    function Session(): Session { SessionOf(aes, key, material) }

    /** The right key is known, and the others give other session keys. */
    ghost predicate Valid() {
      && ccm.Lawful() && key in keys
      && forall k :: k in keys && k != key ==> SessionOf(aes, k, material).key != Session().key
    }
  }

  /** A PDU has a two-byte header; the counter stays within 32 bits; only the bits
      outside the mask differ in the header; nobody else's tag fits. */
  ghost predicate Genuine(e: Setting, x: Delivery) {
    && |x.sent.pdu| >= 2
    && x.sent.count + 1 + ERROR_TOLERANCE <= COUNTER_LIMIT
    && SameClearBits(x.header, x.sent.pdu[0])
    && var (c, mic) := SealOf(e, x.sent);
       Unforged(e.ccm, e.Session().key, Nonce(e.Session(), x.sent.d, x.sent.count), [ClearBits(x.sent.pdu[0])], c, mic, 4)
  }

  function SealOf(e: Setting, p: Sent): (Bytes, Bytes)
    requires |p.pdu| >= 2
  {
    e.ccm.seal(e.Session().key, Nonce(e.Session(), p.d, p.count), [ClearBits(p.pdu[0])], p.pdu[2..], 4)
  }

  lemma EncryptedIs(ccm: Ccm, s: Session, d: Direction, n: nat, pdu: Bytes)
    requires |pdu| >= 2
    ensures var (c, mic) := ccm.seal(s.key, Nonce(s, d, n), [ClearBits(pdu[0])], pdu[2..], 4);
            Encrypted(ccm, s, d, n, pdu) == pdu[..2] + c + mic
  {
    MaskHeaderIs(pdu[0], pdu[0]);
  }

  lemma WithoutHeader(two: Bytes, c: Bytes, mic: Bytes, header: Bytes)
    requires |two| == 2
    ensures header + (two + c + mic)[2..] == header + c + mic
  {
    AppendAssociates(two, c, mic);
    AppendAssociates(header, c, mic);
    assert (two + (c + mic))[2..] == c + mic;
  }

  /** What `encrypt` returned, with the header bytes of the air. */
  function OnAir(e: Setting, x: Delivery): (r: Bytes)
    requires |x.sent.pdu| >= 2
    ensures r == [x.header, x.length] + SealOf(e, x.sent).0 + SealOf(e, x.sent).1
  {
    EncryptedIs(e.ccm, e.Session(), x.sent.d, x.sent.count, x.sent.pdu);
    WithoutHeader(x.sent.pdu[..2], SealOf(e, x.sent).0, SealOf(e, x.sent).1, [x.header, x.length]);
    [x.header, x.length] + Encrypted(e.ccm, e.Session(), x.sent.d, x.sent.count, x.sent.pdu)[2..]
  }

  /** What decryption should give: the header of the air, the length without the MIC, and
      the original body. */
  function Plain(x: Delivery): Attempt
    requires |x.sent.pdu| >= 2
  {
    Decrypted(x.header, x.length as int - 4, x.sent.pdu[2..])
  }

  /** When the length on the air counts the MIC, that is the original PDU, up to the three
      header bits that are not authenticated. */
  lemma PlainIsOriginal(x: Delivery)
    requires |x.sent.pdu| >= 2 && x.length == x.sent.pdu[1] as int + 4 && SameClearBits(x.header, x.sent.pdu[0])
    ensures var r := Plain(x);
            && ClearBits(r.header) == ClearBits(x.sent.pdu[0])
            && [x.sent.pdu[0], r.len] + r.body == x.sent.pdu
  {
  }

  lemma NonceParts(s: Session, d: Direction, n: nat)
    ensures var m := Nonce(s, d, n);
            |m| >= 5 && m[..4] == LittleEndian(n, 4) && m[4] == (if d == MasterToSlave then 0 else 0x80) && m[5..] == s.iv
  {
  }

  /** Direction, counter and IV determine the nonce. */
  lemma NonceInjective(s: Session, d: Direction, n: nat, s': Session, d': Direction, n': nat)
    requires n < COUNTER_LIMIT && n' < COUNTER_LIMIT
    requires Nonce(s, d, n) == Nonce(s', d', n')
    ensures d == d' && n == n' && s.iv == s'.iv
  {
    NonceParts(s, d, n);
    NonceParts(s', d', n');
    assert Pow256(4) == COUNTER_LIMIT;
    LittleEndianInjective(n, n', 4);
  }

  /** The parts of a payload of two header bytes, ciphertext and MIC. */
  lemma PayloadParts(header: Byte, length: Byte, c: Bytes, mic: Bytes)
    requires |mic| == 4
    ensures var q := [header, length] + c + mic;
            Body(q) == c && Mic(q) == mic && FirstTwo(q) == [header, length] && q[0] == header
    ensures AsPacket([header, length] + c) == Decrypted(header, length as int - 4, c)
  {
  }

  lemma TryAtParts(ccm: Ccm, s: Session, d: Direction, n: nat, header: Byte, length: Byte, c: Bytes, mic: Bytes)
    requires |mic| == 4
    ensures TryAt(ccm, s, d, n, [header, length] + c + mic) == ccm.open(s.key, Nonce(s, d, n), [MaskHeader(header)], c, mic, 4)
  {
    PayloadParts(header, length, c, mic);
  }

  /** Whatever bits 2 to 4 of the header on the air are, what a peer sealed under the header
      with these bits zero opens. */
  lemma SealedUnderClear(ccm: Ccm, s: Session, d: Direction, n: nat, clear: Byte, header: Byte, length: Byte, text: Bytes)
    requires ccm.Lawful() && clear / 4 % 8 == 0 && SameClearBits(header, clear)
    ensures var (c, mic) := ccm.seal(s.key, Nonce(s, d, n), [clear], text, 4);
            TryAt(ccm, s, d, n, [header, length] + c + mic) == (text, true)
  {
    var (c, mic) := ccm.seal(s.key, Nonce(s, d, n), [clear], text, 4);
    MaskHeaderIs(header, clear);
    MaskHeaderIs(clear, clear);
    ClearHeader(clear);
    assert MaskHeader(header) == clear;
    TryAtParts(ccm, s, d, n, header, length, c, mic);
  }

  // ----- Layouts, on concrete values -----

  /** Session key and IV: the slave's key diversifier, then the master's, most significant
      byte first; the master's vector, then the slave's, least significant byte first. */
  lemma SessionLayout(aes: BlockCipher, ltk: Bytes)
    ensures SessionOf(aes, ltk, Material(1, 2, 3, 4)) ==
            Session(aes.encrypt(ltk, [0, 0, 0, 0, 0, 0, 0, 3, 0, 0, 0, 0, 0, 0, 0, 1]), [2, 0, 0, 0, 4, 0, 0, 0])
  {
    SmallNumber(1, 8);
    SmallNumber(3, 8);
    SmallNumber(2, 4);
    SmallNumber(4, 4);
    assert BigEndian(3, 8) + BigEndian(1, 8) == [0, 0, 0, 0, 0, 0, 0, 3, 0, 0, 0, 0, 0, 0, 0, 1];
    assert LittleEndian(2, 4) + LittleEndian(4, 4) == [2, 0, 0, 0, 4, 0, 0, 0];
  }

  /** The nonce: counter, least significant byte first, direction bit, IV. */
  lemma NonceLayout(s: Session)
    ensures Nonce(s, MasterToSlave, 5) == [5, 0, 0, 0, 0] + s.iv && Nonce(s, SlaveToMaster, 5) == [5, 0, 0, 0, 0x80] + s.iv
  {
    SmallNumber(5, 4);
    assert LittleEndian(5, 4) + [0] == [5, 0, 0, 0, 0] && LittleEndian(5, 4) + [0x80] == [5, 0, 0, 0, 0x80];
  }

  /** One lost packet in a row is made up for, two are not. */
  lemma WindowExample(x: Delivery)
    ensures Accepts(Counters(0, 0), x) <==> x.sent.count in {0, 1}
    ensures x.sent.d == SlaveToMaster ==> (Accepts(Counters(7, 3), x) <==> x.sent.count in {3, 4})
  {
  }

  /** A sniffed packet has the payload between access address and CRC; it is passed over if
      it holds no data or is an empty continuation. */
  lemma PacketLayout(access: Bytes, payload: Bytes, crc: Bytes, isData: bool, llid: nat, len: nat)
    requires |access| == 4 && |crc| == 3 && payload != []
    ensures var p := Packet(isData, llid, len, access + payload + crc);
            && p.HasPayload() && p.Payload() == payload
            && (p.Skipped() <==> !isData || (len == 0 && llid == 1))
  {
  }

  /** Between two managers of one session: what `encrypt` returns at counter `n` decrypts to
      the payload, at `n`, exactly if the window of the receiver's counter reaches `n`. */
  lemma EncryptThenDecrypt(ccm: Ccm, s: Session, d: Direction, n: nat, payload: Bytes, count: nat, window: nat)
    requires ccm.Lawful() && |payload| >= 2 && n < COUNTER_LIMIT && count + window <= COUNTER_LIMIT
    requires var (c, mic) := ccm.seal(s.key, Nonce(s, d, n), [ClearBits(payload[0])], payload[2..], 4);
             Unforged(ccm, s.key, Nonce(s, d, n), [ClearBits(payload[0])], c, mic, 4)
    ensures var q := Encrypted(ccm, s, d, n, payload);
            && Search(ccm, s, d, count, window, q) == (if count <= n < count + window then Some(n) else None)
            && FirstTwo(q) + TryAt(ccm, s, d, n, q).0 == payload
  {
    var (c, mic) := ccm.seal(s.key, Nonce(s, d, n), [ClearBits(payload[0])], payload[2..], 4);
    var q := Encrypted(ccm, s, d, n, payload);
    EncryptedIs(ccm, s, d, n, payload);
    assert payload[..2] == [payload[0], payload[1]];
    PayloadParts(payload[0], payload[1], c, mic);
    MaskHeaderIs(payload[0], payload[0]);
    assert TryAt(ccm, s, d, n, q) == (payload[2..], true);
    SearchFindsFirst(ccm, s, d, count, window, q);
    match Search(ccm, s, d, count, window, q)
    case Some(k) =>
      TryAtParts(ccm, s, d, k, payload[0], payload[1], c, mic);
      NonceInjective(s, d, k, s, d, n);
    case None =>
  }

  /** What an attempt on a packet from the air amounts to. */
  lemma OnAirOpens(e: Setting, x: Delivery, s: Session, d: Direction, n: nat)
    requires e.ccm.Lawful() && Genuine(e, x)
    ensures var (c, mic) := SealOf(e, x.sent);
            TryAt(e.ccm, s, d, n, OnAir(e, x)) == e.ccm.open(s.key, Nonce(s, d, n), [ClearBits(x.sent.pdu[0])], c, mic, 4)
  {
    var (c, mic) := SealOf(e, x.sent);
    MaskHeaderIs(x.header, x.sent.pdu[0]);
    MaskHeaderIs(x.sent.pdu[0], x.sent.pdu[0]);
    TryAtParts(e.ccm, s, d, n, x.header, x.length, c, mic);
  }

  /** An attempt succeeds only with the right session, direction and counter. */
  lemma TryOnAir(e: Setting, x: Delivery, s: Session, d: Direction, n: nat)
    requires e.ccm.Lawful() && Genuine(e, x) && n < COUNTER_LIMIT
    ensures TryAt(e.ccm, s, d, n, OnAir(e, x)).1 <==> s == e.Session() && d == x.sent.d && n == x.sent.count
    ensures TryAt(e.ccm, s, d, n, OnAir(e, x)).1 ==> TryAt(e.ccm, s, d, n, OnAir(e, x)).0 == x.sent.pdu[2..]
  {
    OnAirOpens(e, x, s, d, n);
    if TryAt(e.ccm, s, d, n, OnAir(e, x)).1 {
      NonceInjective(s, d, n, e.Session(), x.sent.d, x.sent.count);
    }
  }

  /** A hit gives the packet back. */
  lemma HitOnAir(e: Setting, x: Delivery, st: ManagerState)
    requires e.ccm.Lawful() && Genuine(e, x) && st.session == e.Session()
    ensures Hit(e.ccm, st, x.sent.d, x.sent.count, OnAir(e, x))
            == (Plain(x), st.(counters := st.counters.Set(x.sent.d, x.sent.count + 1)))
  {
    TryOnAir(e, x, e.Session(), x.sent.d, x.sent.count);
    var (c, mic) := SealOf(e, x.sent);
    PayloadParts(x.header, x.length, c, mic);
    PayloadParts(x.header, x.length, x.sent.pdu[2..], mic);
  }

  lemma SearchOnAir(e: Setting, x: Delivery, s: Session, d: Direction, n: nat)
    requires e.ccm.Lawful() && Genuine(e, x) && n + ERROR_TOLERANCE <= COUNTER_LIMIT
    ensures Search(e.ccm, s, d, n, ERROR_TOLERANCE, OnAir(e, x)) ==
            if s == e.Session() && d == x.sent.d && n <= x.sent.count < n + ERROR_TOLERANCE
            then Some(x.sent.count) else None
  {
    SearchFindsFirst(e.ccm, s, d, n, ERROR_TOLERANCE, OnAir(e, x));
    match Search(e.ccm, s, d, n, ERROR_TOLERANCE, OnAir(e, x))
    case Some(k) => TryOnAir(e, x, s, d, k);
    case None =>
      if n <= x.sent.count < n + ERROR_TOLERANCE {
        TryOnAir(e, x, s, d, x.sent.count);
      }
  }

  // ----- The counters alone -----

  predicate Accepts(c: Counters, x: Delivery) {
    c.Get(x.sent.d) <= x.sent.count < c.Get(x.sent.d) + ERROR_TOLERANCE
  }

  /** The direction's counter becomes the sender's plus one; the other one stays. */
  function Track(c: Counters, x: Delivery): Counters {
    if Accepts(c, x) then c.Set(x.sent.d, x.sent.count + 1) else c
  }

  predicate Fits(c: Counters) {
    c.master + ERROR_TOLERANCE <= COUNTER_LIMIT && c.slave + ERROR_TOLERANCE <= COUNTER_LIMIT
  }

  lemma RightManager(e: Setting, x: Delivery, c: Counters)
    requires e.ccm.Lawful() && Genuine(e, x) && Fits(c)
    ensures TryManager(e.ccm, ManagerState(e.Session(), c), OnAir(e, x)) ==
            if Accepts(c, x) then (Plain(x), ManagerState(e.Session(), Track(c, x)))
            else (NotDecrypted, ManagerState(e.Session(), c))
  {
    var d := x.sent.d;
    var st := ManagerState(e.Session(), c);
    SearchOnAir(e, x, e.Session(), d, c.Get(d));
    SearchOnAir(e, x, e.Session(), Other(d), c.Get(Other(d)));
    TryManagerIs(e.ccm, st, OnAir(e, x), d);
    HitOnAir(e, x, st);
  }

  lemma WrongManager(e: Setting, x: Delivery, st: ManagerState)
    requires e.ccm.Lawful() && Genuine(e, x) && Fits(st.counters) && st.session != e.Session()
    ensures TryManager(e.ccm, st, OnAir(e, x)) == (NotDecrypted, st)
  {
    SearchOnAir(e, x, st.session, MasterToSlave, st.counters.master);
    SearchOnAir(e, x, st.session, SlaveToMaster, st.counters.slave);
  }

  /** A manager decrypts a packet exactly if it is of the packet's session and its counter
      is near enough; otherwise it stays as it is. */
  lemma TryManagerOnAir(e: Setting, x: Delivery, st: ManagerState)
    requires e.ccm.Lawful() && Genuine(e, x) && Fits(st.counters)
    ensures TryManager(e.ccm, st, OnAir(e, x)) ==
            if st.session == e.Session() && Accepts(st.counters, x)
            then (Plain(x), st.(counters := Track(st.counters, x)))
            else (NotDecrypted, st)
  {
    if st.session == e.Session() {
      RightManager(e, x, st.counters);
    } else {
      WrongManager(e, x, st);
    }
  }

  /** The managers of the decryptor when its counters are `c`: none before the first
      packet has been decrypted. */
  ghost predicate Holds(e: Setting, managers: Managers, c: Counters) {
    || (managers == map[] && c == Counters(0, 0))
    || managers == map[e.key := ManagerState(e.Session(), c)]
  }

  lemma {:induction false} AttemptKeysTracks(e: Setting, x: Delivery, managers: Managers, c: Counters, keys: seq<Bytes>)
    requires e.Valid() && Genuine(e, x) && Fits(c) && Holds(e, managers, c)
    requires forall k :: k in keys ==> k in e.keys
    ensures AttemptKeys(e.aes, e.ccm, managers, e.material, keys, OnAir(e, x)) ==
            if e.key in keys && Accepts(c, x)
            then (Plain(x), managers[e.key := ManagerState(e.Session(), Track(c, x))])
            else (NotDecrypted, managers)
    decreases |keys|
  {
    if keys != [] {
      var k := keys[0];
      var st := ManagerFor(e.aes, managers, k, e.material);
      if k == e.key {
        assert st == ManagerState(e.Session(), c);
      } else {
        assert k in e.keys;
        assert st == ManagerState(SessionOf(e.aes, k, e.material), Counters(0, 0));
      }
      TryManagerOnAir(e, x, st);
      AttemptKeysTracks(e, x, managers, c, keys[1..]);
    }
  }

  lemma AttemptTracks(e: Setting, x: Delivery, managers: Managers, c: Counters)
    requires e.Valid() && Genuine(e, x) && Fits(c) && Holds(e, managers, c)
    ensures var (r, managers') := AttemptAll(e.aes, e.ccm, managers, [e.material], e.keys, OnAir(e, x));
            && r == (if Accepts(c, x) then Plain(x) else NotDecrypted)
            && Holds(e, managers', Track(c, x))
            && (!Accepts(c, x) ==> managers' == managers)
  {
    AttemptKeysTracks(e, x, managers, c, e.keys);
    assert [e.material][1..] == [];
  }

  // ----- Runs -----

  /** The results and the managers after a list of deliveries. */
  ghost function Decode(e: Setting, xs: seq<Delivery>): (seq<Attempt>, Managers)
    requires forall x :: x in xs ==> |x.sent.pdu| >= 2
  {
    if xs == [] then ([], map[])
    else
      var (rs, managers) := Decode(e, xs[..|xs| - 1]);
      var (r, managers') := AttemptAll(e.aes, e.ccm, managers, [e.material], e.keys, OnAir(e, xs[|xs| - 1]));
      (rs + [r], managers')
  }

  function TrackAll(xs: seq<Delivery>): Counters {
    if xs == [] then Counters(0, 0) else Track(TrackAll(xs[..|xs| - 1]), xs[|xs| - 1])
  }

  ghost predicate AllGenuine(e: Setting, xs: seq<Delivery>) {
    forall x :: x in xs ==> Genuine(e, x)
  }

  /** What the counters alone predict: packet by packet, the original bytes if its
      number is within the window of the tracked counter, a rejection otherwise. */
  ghost function Expected(xs: seq<Delivery>): (rs: seq<Attempt>)
    requires forall x :: x in xs ==> |x.sent.pdu| >= 2
    ensures |rs| == |xs|
  {
    if xs == [] then []
    else
      var front, x := xs[..|xs| - 1], xs[|xs| - 1];
      Expected(front) + [if Accepts(TrackAll(front), x) then Plain(x) else NotDecrypted]
  }

  /** On every run the decryptor does what the counters predict. */
  lemma {:induction false} DecryptorTracks(e: Setting, xs: seq<Delivery>)
    requires e.Valid() && AllGenuine(e, xs)
    ensures Decode(e, xs).0 == Expected(xs)
    ensures Holds(e, Decode(e, xs).1, TrackAll(xs)) && Fits(TrackAll(xs))
  {
    if xs != [] {
      var front, x := xs[..|xs| - 1], xs[|xs| - 1];
      assert x in xs;
      DecryptorTracks(e, front);
      AttemptTracks(e, x, Decode(e, front).1, TrackAll(front));
    }
  }

  /** The number the sender gives to the next packet of direction `d` after the last
      one delivered. */
  function NextCount(xs: seq<Delivery>, d: Direction): nat {
    if xs == [] then 0
    else
      var x := xs[|xs| - 1].sent;
      if x.d == d then x.count + 1 else NextCount(xs[..|xs| - 1], d)
  }

  /** Packets of a direction arrive in order, and fewer than ERROR_TOLERANCE of them
      are missing between two that arrive, or before the first. */
  ghost predicate LossWithinTolerance(xs: seq<Delivery>) {
    xs == [] ||
    var front, x := xs[..|xs| - 1], xs[|xs| - 1].sent;
    LossWithinTolerance(front) && NextCount(front, x.d) <= x.count < NextCount(front, x.d) + ERROR_TOLERANCE
  }

  /** All the packets, decrypted. */
  function Originals(xs: seq<Delivery>): (rs: seq<Attempt>)
    requires forall x :: x in xs ==> |x.sent.pdu| >= 2
    ensures |rs| == |xs|
  {
    seq(|xs|, i requires 0 <= i < |xs| => assert xs[i] in xs; Plain(xs[i]))
  }

  lemma {:induction false} ExpectedIffLossBounded(xs: seq<Delivery>)
    requires forall x :: x in xs ==> |x.sent.pdu| >= 2
    ensures Expected(xs) == Originals(xs) <==> LossWithinTolerance(xs)
    ensures LossWithinTolerance(xs) ==>
              TrackAll(xs) == Counters(NextCount(xs, MasterToSlave), NextCount(xs, SlaveToMaster))
  {
    if xs != [] {
      var front, x := xs[..|xs| - 1], xs[|xs| - 1];
      ExpectedIffLossBounded(front);
      assert Originals(xs) == Originals(front) + [Plain(x)];
      var last := if Accepts(TrackAll(front), x) then Plain(x) else NotDecrypted;
      assert (Expected(front) + [last] == Originals(front) + [Plain(x)])
        <==> Expected(front) == Originals(front) && last == Plain(x) by {
        assert (Expected(front) + [last])[..|front|] == Expected(front);
        assert (Originals(front) + [Plain(x)])[..|front|] == Originals(front);
        assert (Expected(front) + [last])[|front|] == last;
        assert (Originals(front) + [Plain(x)])[|front|] == Plain(x);
      }
    }
  }

  /** Every delivered packet decrypts to its original bytes if and only if packets
      arrive in order per direction and fewer than ERROR_TOLERANCE consecutive ones
      are lost; then each counter is the sender's next number. */
  lemma LossyRunDecrypts(e: Setting, xs: seq<Delivery>)
    requires e.Valid() && AllGenuine(e, xs)
    ensures Decode(e, xs).0 == Originals(xs) <==> LossWithinTolerance(xs)
    ensures LossWithinTolerance(xs) ==>
              Holds(e, Decode(e, xs).1, Counters(NextCount(xs, MasterToSlave), NextCount(xs, SlaveToMaster)))
  {
    DecryptorTracks(e, xs);
    ExpectedIffLossBounded(xs);
  }

  lemma {:induction false} ExpectedAt(xs: seq<Delivery>, k: nat)
    requires k < |xs| && forall x :: x in xs ==> |x.sent.pdu| >= 2
    ensures Expected(xs)[k] == if Accepts(TrackAll(xs[..k]), xs[k]) then Plain(xs[k]) else NotDecrypted
  {
    if k < |xs| - 1 {
      ExpectedAt(xs[..|xs| - 1], k);
      assert xs[..|xs| - 1][..k] == xs[..k];
    }
  }

  /** From position `m` on, the packets of direction `d` are too far ahead. */
  ghost predicate TooFarAhead(xs: seq<Delivery>, m: nat, d: Direction)
    requires m <= |xs|
  {
    forall j :: m <= j < |xs| && xs[j].sent.d == d ==> TrackAll(xs[..m]).Get(d) + ERROR_TOLERANCE <= xs[j].sent.count
  }

  lemma {:induction false} CounterStays(xs: seq<Delivery>, m: nat, k: nat, d: Direction)
    requires m <= k <= |xs| && TooFarAhead(xs, m, d)
    ensures TrackAll(xs[..k]).Get(d) == TrackAll(xs[..m]).Get(d)
    decreases k
  {
    if k > m {
      CounterStays(xs, m, k - 1, d);
      assert xs[..k][..k - 1] == xs[..k - 1];
    }
  }

  /** Then none of them is ever decrypted: a failed attempt puts the counter back, so the
      gap only grows. */
  lemma DesynchronisedForever(xs: seq<Delivery>, m: nat, d: Direction)
    requires m <= |xs| && (forall x :: x in xs ==> |x.sent.pdu| >= 2) && TooFarAhead(xs, m, d)
    ensures TrackAll(xs).Get(d) == TrackAll(xs[..m]).Get(d)
    ensures forall k :: m <= k < |xs| && xs[k].sent.d == d ==> Expected(xs)[k] == NotDecrypted
  {
    CounterStays(xs, m, |xs|, d);
    assert xs[..|xs|] == xs;
    forall k | m <= k < |xs| && xs[k].sent.d == d ensures Expected(xs)[k] == NotDecrypted {
      ExpectedAt(xs, k);
      CounterStays(xs, m, k, d);
    }
  }

  // ----- Several sessions -----

  /** Key `k` has a manager of the packet's session, near enough; `m` is the material that a
      new manager would be made from. */
  predicate Follows(e: Setting, managers: Managers, m: Material, k: Bytes, x: Delivery) {
    var st := ManagerFor(e.aes, managers, k, m);
    st.session == e.Session() && Accepts(st.counters, x)
  }

  ghost predicate AllFit(managers: Managers) {
    forall k :: k in managers ==> Fits(managers[k].counters)
  }

  /** With any managers, any keys and the material of any sessions, a packet is decrypted
      exactly if some key follows its session. */
  lemma DecryptedIffFollowed(e: Setting, x: Delivery, managers: Managers, ms: seq<Material>)
    requires e.ccm.Lawful() && Genuine(e, x) && AllFit(managers)
    ensures var r := AttemptAll(e.aes, e.ccm, managers, ms, e.keys, OnAir(e, x));
            if exists m, k :: m in ms && k in e.keys && Follows(e, managers, m, k, x) then r.0 == Plain(x)
            else r == (NotDecrypted, managers)
  {
    var q := OnAir(e, x);
    forall m, k ensures TryManager(e.ccm, ManagerFor(e.aes, managers, k, m), q).0
                        == if Follows(e, managers, m, k, x) then Plain(x) else NotDecrypted {
      TryManagerOnAir(e, x, ManagerFor(e.aes, managers, k, m));
    }
    var i, j := AttemptAllFinds(e.aes, e.ccm, managers, ms, e.keys, q);
    if i < |ms| {
      assert Opens(e.aes, e.ccm, managers, ms[i], e.keys[j], q);
      assert Follows(e, managers, ms[i], e.keys[j], x);
    } else {
      forall m, k | m in ms && k in e.keys ensures !Follows(e, managers, m, k, x) {
        var i' :| 0 <= i' < |ms| && ms[i'] == m;
        assert !Opens(e.aes, e.ccm, managers, ms[i'], k, q);
      }
    }
  }

  /** The results and the managers after more deliveries. */
  ghost function DecodeFrom(e: Setting, managers: Managers, ms: seq<Material>, xs: seq<Delivery>): (seq<Attempt>, Managers)
    requires forall x :: x in xs ==> |x.sent.pdu| >= 2
    decreases |xs|
  {
    if xs == [] then ([], managers)
    else
      assert xs[0] in xs && forall x :: x in xs[1..] ==> x in xs;
      var (r, managers') := AttemptAll(e.aes, e.ccm, managers, ms, e.keys, OnAir(e, xs[0]));
      var (rs, managers'') := DecodeFrom(e, managers', ms, xs[1..]);
      ([r] + rs, managers'')
  }

  /** The stored manager of the key is of another session, and no other key gives this one. */
  ghost predicate Elsewhere(e: Setting, managers: Managers, ms: seq<Material>) {
    && e.key in managers && managers[e.key].session != e.Session()
    && forall k, m :: k in e.keys && k != e.key && m in ms ==> ManagerFor(e.aes, managers, k, m).session != e.Session()
  }

  lemma OtherSessionStep(e: Setting, managers: Managers, ms: seq<Material>, x: Delivery)
    requires e.ccm.Lawful() && Genuine(e, x) && AllFit(managers) && Elsewhere(e, managers, ms)
    ensures AttemptAll(e.aes, e.ccm, managers, ms, e.keys, OnAir(e, x)) == (NotDecrypted, managers)
  {
    DecryptedIffFollowed(e, x, managers, ms);
    forall m, k | m in ms && k in e.keys ensures !Follows(e, managers, m, k, x) {
      assert k != e.key ==> ManagerFor(e.aes, managers, k, m).session != e.Session();
    }
  }

  /** A key that has decrypted something of one session stays with that session: whatever
      material is added for another one, nothing of the other is ever decrypted, unless some
      other key gives the same session. */
  lemma {:induction false} OtherSessionIsMissed(e: Setting, managers: Managers, ms: seq<Material>, xs: seq<Delivery>)
    requires e.ccm.Lawful() && AllGenuine(e, xs) && AllFit(managers) && Elsewhere(e, managers, ms)
    ensures DecodeFrom(e, managers, ms, xs).1 == managers
    ensures DecodeFrom(e, managers, ms, xs).0 == Rejections(|xs|)
    decreases |xs|
  {
    if xs != [] {
      assert xs[0] in xs;
      OtherSessionStep(e, managers, ms, xs[0]);
      OtherSessionIsMissed(e, managers, ms, xs[1..]);
      assert Rejections(|xs|) == [NotDecrypted] + Rejections(|xs| - 1);
    }
  }

  function Rejections(n: nat): (rs: seq<Attempt>)
    ensures |rs| == n
  {
    seq(n, _ => NotDecrypted)
  }

  // ----- The assumptions can be met -----

  const HALF_LIMIT: nat := 0x8000_0000

  /** A toy CCM whose tag is the counter, with the direction in its top bit, under one
      session, and FF FF FF FF elsewhere. */
  function ToyTag(s: Session, key: Bytes, nonce: Bytes, n: nat): (tag: Bytes)
    ensures |tag| == n
  {
    if key == s.key && n == 4 && |nonce| >= 5 && nonce[3] < 128 && nonce[4] in {0, 0x80} && nonce[5..] == s.iv
    then nonce[..3] + [nonce[3] + nonce[4]]
    else seq(n, _ => 0xFF)
  }

  function ToyCcm(s: Session): Ccm {
    Ccm((key: Bytes, nonce: Bytes, aad: Bytes, plaintext: Bytes, n: nat) => (plaintext, ToyTag(s, key, nonce, n)),
        (key: Bytes, nonce: Bytes, aad: Bytes, c: Bytes, tag: Bytes, n: nat) => (c, tag == ToyTag(s, key, nonce, n)))
  }

  /** The four bytes of a counter below 2^31. */
  lemma FourBytes(n: nat)
    requires n < COUNTER_LIMIT
    ensures var b := LittleEndian(n, 4);
            n == b[0] as int + 0x100 * (b[1] as int) + 0x1_0000 * (b[2] as int) + 0x100_0000 * (b[3] as int)
  {
    LittleEndianAt(n, 4, 0);
    LittleEndianAt(n, 4, 1);
    LittleEndianAt(n, 4, 2);
    LittleEndianAt(n, 4, 3);
    LittleEndianAt(n / 0x100, 3, 1);
    LittleEndianAt(n / 0x100, 3, 2);
    LittleEndianAt(n / 0x100 / 0x100, 2, 1);
  }

  /** The toy tag of a packet, and no other nonce with the same tag. */
  lemma ToyTagIsUnique(s: Session, d: Direction, n: nat, key: Bytes, nonce: Bytes)
    requires n < HALF_LIMIT - 1
    requires ToyTag(s, key, nonce, 4) == ToyTag(s, s.key, Nonce(s, d, n), 4)
    ensures key == s.key && nonce == Nonce(s, d, n)
  {
    var own := Nonce(s, d, n);
    FourBytes(n);
    assert own[..4] == LittleEndian(n, 4) && own[4] == (if d == MasterToSlave then 0 else 0x80) && own[5..] == s.iv;
    forall i | 0 <= i < 4 ensures own[i] == LittleEndian(n, 4)[i] {
      assert own[i] == own[..4][i];
    }
    var tag := ToyTag(s, s.key, own, 4);
    assert tag == own[..3] + [own[3] + own[4]];
    assert tag != [0xFF, 0xFF, 0xFF, 0xFF] by {
      assert tag[0] == own[0] && tag[1] == own[1] && tag[2] == own[2] && tag[3] == own[3] + own[4];
    }
    assert key == s.key && |nonce| >= 5 && nonce[3] < 128 && nonce[4] in {0, 0x80} && nonce[5..] == s.iv;
    assert nonce[..3] == tag[..3] == own[..3] && nonce[3] + nonce[4] == tag[3] == own[3] + own[4];
    assert nonce == nonce[..3] + [nonce[3], nonce[4]] + nonce[5..];
    assert own == own[..3] + [own[3], own[4]] + own[5..];
  }

  /** With it, `Unforged` holds of every packet below 2^31 - 1, in both directions, at once. */
  lemma UnforgedIsPossible(s: Session, d: Direction, n: nat, aad: Bytes, plaintext: Bytes)
    requires n < HALF_LIMIT - 1
    ensures ToyCcm(s).Lawful()
    ensures var (c, tag) := ToyCcm(s).seal(s.key, Nonce(s, d, n), aad, plaintext, 4);
            Unforged(ToyCcm(s), s.key, Nonce(s, d, n), aad, c, tag, 4)
  {
    var nonce := Nonce(s, d, n);
    var (c, tag) := ToyCcm(s).seal(s.key, nonce, aad, plaintext, 4);
    forall key', nonce' | ToyCcm(s).open(key', nonce', aad, c, tag, 4).1 ensures key' == s.key && nonce' == nonce {
      ToyTagIsUnique(s, d, n, key', nonce');
    }
  }

  /** So every run of packets below 2^31 - 1, in both directions, can meet the hypotheses
      of `LossyRunDecrypts`. */
  lemma AllGenuineIsPossible(aes: BlockCipher, m: Material, key: Bytes, xs: seq<Delivery>)
    requires forall x :: x in xs ==>
               |x.sent.pdu| >= 2 && x.sent.count < HALF_LIMIT - 1 && SameClearBits(x.header, x.sent.pdu[0])
    ensures var e := Setting(aes, ToyCcm(SessionOf(aes, key, m)), m, [key], key);
            e.Valid() && AllGenuine(e, xs)
  {
    var s := SessionOf(aes, key, m);
    UnforgedIsPossible(s, MasterToSlave, 0, [], []);
    forall x | x in xs ensures Genuine(Setting(aes, ToyCcm(s), m, [key], key), x) {
      UnforgedIsPossible(s, x.sent.d, x.sent.count, [ClearBits(x.sent.pdu[0])], x.sent.pdu[2..]);
    }
  }
}
