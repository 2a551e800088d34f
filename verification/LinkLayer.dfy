/** BLE link-layer encryption (whad/ble/crypto.py): a manager per key with one
    packet counter per direction, and a decryptor that searches a small window of
    counters with every known key. */
module LinkLayer {
  import opened ByteStrings
  import opened Ciphers

  const COUNTER_LIMIT: nat := 0x1_0000_0000
  const ERROR_TOLERANCE: nat := 2

  datatype Direction = MasterToSlave | SlaveToMaster

  function Other(d: Direction): Direction {
    if d == MasterToSlave then SlaveToMaster else MasterToSlave
  }

  /** Session key diversifiers and initialisation vectors of one session. */
  datatype Material = Material(masterSkd: nat, masterIv: nat, slaveSkd: nat, slaveIv: nat)

  datatype Counters = Counters(master: nat, slave: nat) {
    function Get(d: Direction): nat {
      if d == MasterToSlave then master else slave
    }

    function Set(d: Direction, n: nat): Counters {
      if d == MasterToSlave then this.(master := n) else this.(slave := n)
    }
  }

  datatype Session = Session(key: Bytes, iv: Bytes)

  function SessionOf(aes: BlockCipher, ltk: Bytes, m: Material): Session {
    Session(aes.encrypt(ltk, BigEndian(m.slaveSkd, 8) + BigEndian(m.masterSkd, 8)),
            LittleEndian(m.masterIv, 4) + LittleEndian(m.slaveIv, 4))
  }

  function Nonce(s: Session, d: Direction, count: nat): Bytes {
    LittleEndian(count, 4) + (if d == MasterToSlave then [0] else [0x80]) + s.iv
  }

  /** `b & 0xe3`: the bits NESN, SN and MD are not authenticated. */
  function MaskHeader(b: Byte): Byte {
    b - b % 32 + b % 4
  }

  /** The authenticated header bits: LLID and the three bits on top. */
  function ClearBits(b: Byte): Byte {
    32 * (b / 32) + b % 4
  }

  predicate SameClearBits(b: Byte, c: Byte) {
    b % 4 == c % 4 && b / 32 == c / 32
  }

  /** Exactly the bits 2 to 4 are masked out: they become zero and tell no headers apart. */
  lemma MaskHeaderIs(b: Byte, c: Byte)
    ensures MaskHeader(b) == ClearBits(b) && SameClearBits(MaskHeader(b), b) && MaskHeader(b) / 4 % 8 == 0
    ensures MaskHeader(b) == MaskHeader(c) <==> SameClearBits(b, c)
  {
  }

  /** A header with the masked bits zero is what its mask leaves. */
  lemma ClearHeader(b: Byte)
    requires b / 4 % 8 == 0
    ensures ClearBits(b) == b
  {
    assert b / 4 == 8 * (b / 32) + b / 4 % 8;
  }

  /** `payload[2:-4]` and `payload[-4:]`. */
  function Body(payload: Bytes): Bytes {
    if |payload| >= 6 then payload[2..|payload| - 4] else []
  }

  function Mic(payload: Bytes): Bytes {
    if |payload| >= 4 then payload[|payload| - 4..] else payload
  }

  function FromThird(payload: Bytes): Bytes {
    if |payload| >= 2 then payload[2..] else []
  }

  function FirstTwo(payload: Bytes): Bytes {
    if |payload| >= 2 then payload[..2] else payload
  }

  /** What `encrypt` makes of a payload when the direction's counter is `count`. */
  function Encrypted(ccm: Ccm, s: Session, d: Direction, count: nat, payload: Bytes): Bytes
    requires payload != []
  {
    var (c, mic) := ccm.seal(s.key, Nonce(s, d, count), [MaskHeader(payload[0])], FromThird(payload), 4);
    FirstTwo(payload) + c + mic
  }

  /** One attempt of `decrypt`, at counter `count`. */
  function TryAt(ccm: Ccm, s: Session, d: Direction, count: nat, payload: Bytes): (Bytes, bool)
    requires payload != []
  {
    ccm.open(s.key, Nonce(s, d, count), [MaskHeader(payload[0])], Body(payload), Mic(payload), 4)
  }

  /** The first counter from `count` on, among `window`, at which the MIC verifies. */
  function Search(ccm: Ccm, s: Session, d: Direction, count: nat, window: nat, payload: Bytes): (r: Option<nat>)
    requires payload != []
    ensures r.Some? ==> count <= r.value < count + window
    decreases window
  {
    if window == 0 then None
    else if TryAt(ccm, s, d, count, payload).1 then Some(count)
    else Search(ccm, s, d, count + 1, window - 1, payload)
  }

  lemma {:induction false} SearchFindsFirst(ccm: Ccm, s: Session, d: Direction, count: nat, window: nat, payload: Bytes)
    requires payload != []
    ensures match Search(ccm, s, d, count, window, payload)
            case Some(n) =>
              && TryAt(ccm, s, d, n, payload).1
              && forall k :: count <= k < n ==> !TryAt(ccm, s, d, k, payload).1
            case None => forall k :: count <= k < count + window ==> !TryAt(ccm, s, d, k, payload).1
    decreases window
  {
    if window > 0 && !TryAt(ccm, s, d, count, payload).1 {
      SearchFindsFirst(ccm, s, d, count + 1, window - 1, payload);
    }
  }

  /** The counters, and the session they belong to. */
  datatype ManagerState = ManagerState(session: Session, counters: Counters)

  class LinkLayerCryptoManager {
    const ccm: Ccm
    const ltk: Bytes
    const session: Session
    var masterCnt: nat
    var slaveCnt: nat

    ghost function State(): ManagerState
      reads this
    {
      ManagerState(session, Counters(masterCnt, slaveCnt))
    }

    constructor (aes: BlockCipher, ccm: Ccm, ltk: Bytes, m: Material)
      ensures this.ccm == ccm && this.ltk == ltk
      ensures State() == ManagerState(SessionOf(aes, ltk, m), Counters(0, 0))
    {
      this.ccm, this.ltk := ccm, ltk;
      this.session := SessionOf(aes, ltk, m);
      masterCnt, slaveCnt := 0, 0;
    }

    function Counter(d: Direction): nat
      reads this
    {
      if d == MasterToSlave then masterCnt else slaveCnt
    }

    method IncrementCounter(d: Direction)
      modifies this
      ensures Counter(d) == old(Counter(d)) + 1 && Counter(Other(d)) == old(Counter(Other(d)))
    {
      if d == MasterToSlave { masterCnt := masterCnt + 1; } else { slaveCnt := slaveCnt + 1; }
    }

    method SetCounter(d: Direction, n: nat)
      modifies this
      ensures Counter(d) == n && Counter(Other(d)) == old(Counter(Other(d)))
    {
      if d == MasterToSlave { masterCnt := n; } else { slaveCnt := n; }
    }

    method Encrypt(payload: Bytes, d: Direction) returns (r: Bytes)
      requires payload != [] && Counter(d) < COUNTER_LIMIT
      ensures r == Encrypted(ccm, session, d, Counter(d), payload)
    {
      var header := [MaskHeader(payload[0])];
      var nonce := Nonce(session, d, Counter(d));
      var (ciphertext, mic) := ccm.seal(session.key, nonce, header, FromThird(payload), 4);
      r := FirstTwo(payload) + ciphertext + mic;
    }

    /** `decrypt`: on success the counter is left at the first value in the window
        that verifies; on failure it is put back. The other counter is not touched. */
    method Decrypt(payload: Bytes, d: Direction, errorTolerance: nat) returns (plaintext: Bytes, ok: bool)
      requires payload != [] && errorTolerance >= 1
      requires Counter(d) + errorTolerance <= COUNTER_LIMIT
      modifies this
      ensures Counter(Other(d)) == old(Counter(Other(d)))
      ensures var start := old(Counter(d));
              match Search(ccm, session, d, start, errorTolerance, payload)
              case Some(n) =>
                && ok && Counter(d) == n
                && plaintext == FirstTwo(payload) + TryAt(ccm, session, d, n, payload).0
              case None =>
                && !ok && Counter(d) == start
                && plaintext == FirstTwo(payload) + TryAt(ccm, session, d, start + errorTolerance - 1, payload).0
    {
      var header := [MaskHeader(payload[0])];
      var oldCounter := Counter(d);
      var text: Bytes := [];
      for i := 0 to errorTolerance
        invariant Counter(d) == oldCounter + i && Counter(Other(d)) == old(Counter(Other(d)))
        invariant Search(ccm, session, d, oldCounter, errorTolerance, payload) ==
                  Search(ccm, session, d, oldCounter + i, errorTolerance - i, payload)
        invariant i > 0 ==> text == TryAt(ccm, session, d, oldCounter + i - 1, payload).0
      {
        var nonce := Nonce(session, d, Counter(d));
        var attempt := ccm.open(session.key, nonce, header, Body(payload), Mic(payload), 4);
        text := attempt.0;
        if attempt.1 {
          return FirstTwo(payload) + text, true;
        }
        IncrementCounter(d);
      }
      SetCounter(d, oldCounter);
      return FirstTwo(payload) + text, false;
    }
  }

  // ----- The decryptor -----

  /** A sniffed packet: access address, payload and CRC make up `raw`. */
  datatype Packet = Packet(isData: bool, llid: nat, len: nat, raw: Bytes) {
    predicate HasPayload() { |raw| >= 8 }

    function Payload(): (p: Bytes)
      requires HasPayload()
      ensures p != []
    {
      raw[4..|raw| - 3]
    }

    /** Not a data packet, or an empty one: nothing to decrypt. */
    predicate Skipped() { !isData || (len == 0 && llid == 1) }
  }

  /** A packet decrypted: header byte, length field without the MIC, and body. */
  datatype Attempt = MissingMaterial | NotDecrypted | Decrypted(header: Byte, len: int, body: Bytes)

  /** The packet made of a plaintext; bytes that are not there are read as zero. */
  function AsPacket(plaintext: Bytes): Attempt {
    Decrypted(if |plaintext| > 0 then plaintext[0] else 0,
              (if |plaintext| > 1 then plaintext[1] as int else 0) - 4,
              FromThird(plaintext))
  }

  type Managers = map<Bytes, ManagerState>

  function ManagerFor(aes: BlockCipher, managers: Managers, key: Bytes, m: Material): ManagerState {
    if key in managers then managers[key] else ManagerState(SessionOf(aes, key, m), Counters(0, 0))
  }

  /** Master to slave first, then slave to master; the counter moves past a hit. */
  function TryManager(ccm: Ccm, st: ManagerState, payload: Bytes): (Attempt, ManagerState)
    requires payload != []
  {
    match Search(ccm, st.session, MasterToSlave, st.counters.master, ERROR_TOLERANCE, payload)
    case Some(n) => Hit(ccm, st, MasterToSlave, n, payload)
    case None =>
      match Search(ccm, st.session, SlaveToMaster, st.counters.slave, ERROR_TOLERANCE, payload)
      case Some(n) => Hit(ccm, st, SlaveToMaster, n, payload)
      case None => (NotDecrypted, st)
  }

  /** A hit in one direction only decides; without one nothing changes. */
  lemma TryManagerIs(ccm: Ccm, st: ManagerState, payload: Bytes, d: Direction)
    requires payload != []
    requires Search(ccm, st.session, Other(d), st.counters.Get(Other(d)), ERROR_TOLERANCE, payload) == None
    ensures TryManager(ccm, st, payload) ==
            match Search(ccm, st.session, d, st.counters.Get(d), ERROR_TOLERANCE, payload)
            case Some(n) => Hit(ccm, st, d, n, payload)
            case None => (NotDecrypted, st)
  {
  }

  lemma TryManagerKeeps(ccm: Ccm, st: ManagerState, payload: Bytes)
    requires payload != []
    ensures !TryManager(ccm, st, payload).0.Decrypted? ==> TryManager(ccm, st, payload).1 == st
  {
  }

  function Hit(ccm: Ccm, st: ManagerState, d: Direction, n: nat, payload: Bytes): (Attempt, ManagerState)
    requires payload != []
  {
    (AsPacket(FirstTwo(payload) + TryAt(ccm, st.session, d, n, payload).0),
     st.(counters := st.counters.Set(d, n + 1)))
  }

  function AttemptKeys(aes: BlockCipher, ccm: Ccm, managers: Managers, m: Material, keys: seq<Bytes>, payload: Bytes)
    : (Attempt, Managers)
    requires payload != []
    decreases |keys|
  {
    if keys == [] then (NotDecrypted, managers)
    else
      var (r, st) := TryManager(ccm, ManagerFor(aes, managers, keys[0], m), payload);
      if r.Decrypted? then (r, managers[keys[0] := st])
      else AttemptKeys(aes, ccm, managers, m, keys[1..], payload)
  }

  lemma {:induction false} AttemptKeysKeeps(aes: BlockCipher, ccm: Ccm, managers: Managers, m: Material, keys: seq<Bytes>, payload: Bytes)
    requires payload != []
    ensures var r := AttemptKeys(aes, ccm, managers, m, keys, payload);
            !r.0.Decrypted? ==> r == (NotDecrypted, managers)
    decreases |keys|
  {
    if keys != [] {
      AttemptKeysKeeps(aes, ccm, managers, m, keys[1..], payload);
    }
  }

  function AttemptAll(aes: BlockCipher, ccm: Ccm, managers: Managers, ms: seq<Material>, keys: seq<Bytes>, payload: Bytes)
    : (Attempt, Managers)
    requires payload != []
    decreases |ms|
  {
    if ms == [] then (NotDecrypted, managers)
    else
      var r := AttemptKeys(aes, ccm, managers, ms[0], keys, payload);
      if r.0.Decrypted? then r else AttemptAll(aes, ccm, managers, ms[1..], keys, payload)
  }

  /** The manager that key `k` has under material `m` opens the payload. */
  predicate Opens(aes: BlockCipher, ccm: Ccm, managers: Managers, m: Material, k: Bytes, payload: Bytes)
    requires payload != []
  {
    TryManager(ccm, ManagerFor(aes, managers, k, m), payload).0.Decrypted?
  }

  /** What a hit with key `k` under material `m` gives: the packet, and the manager stored. */
  function HitWith(aes: BlockCipher, ccm: Ccm, managers: Managers, m: Material, k: Bytes, payload: Bytes): (Attempt, Managers)
    requires payload != []
  {
    var (r, st) := TryManager(ccm, ManagerFor(aes, managers, k, m), payload);
    (r, managers[k := st])
  }

  /** The first key that opens the payload decides; `j` is its position, or the end. */
  lemma {:induction false} AttemptKeysFinds(
    aes: BlockCipher, ccm: Ccm, managers: Managers, m: Material, keys: seq<Bytes>, payload: Bytes) returns (j: nat)
    requires payload != []
    ensures j <= |keys| && forall j' :: 0 <= j' < j ==> !Opens(aes, ccm, managers, m, keys[j'], payload)
    ensures j < |keys| ==> Opens(aes, ccm, managers, m, keys[j], payload)
    ensures AttemptKeys(aes, ccm, managers, m, keys, payload)
            == if j < |keys| then HitWith(aes, ccm, managers, m, keys[j], payload) else (NotDecrypted, managers)
    decreases |keys|
  {
    if keys == [] || Opens(aes, ccm, managers, m, keys[0], payload) {
      j := 0;
    } else {
      var j' := AttemptKeysFinds(aes, ccm, managers, m, keys[1..], payload);
      j := j' + 1;
    }
  }

  /** Every session is tried with every key, in this order, and the first pair that opens the
      payload decides; nothing is decrypted exactly when no pair does. */
  lemma {:induction false} AttemptAllFinds(
    aes: BlockCipher, ccm: Ccm, managers: Managers, ms: seq<Material>, keys: seq<Bytes>, payload: Bytes) returns (i: nat, j: nat)
    requires payload != []
    ensures i <= |ms|
    ensures forall i', k :: 0 <= i' < i && k in keys ==> !Opens(aes, ccm, managers, ms[i'], k, payload)
    ensures i < |ms| ==>
              && j < |keys| && Opens(aes, ccm, managers, ms[i], keys[j], payload)
              && forall j' :: 0 <= j' < j ==> !Opens(aes, ccm, managers, ms[i], keys[j'], payload)
    ensures AttemptAll(aes, ccm, managers, ms, keys, payload)
            == if i < |ms| then HitWith(aes, ccm, managers, ms[i], keys[j], payload) else (NotDecrypted, managers)
    decreases |ms|
  {
    i, j := 0, 0;
    if ms != [] {
      j := AttemptKeysFinds(aes, ccm, managers, ms[0], keys, payload);
      if j == |keys| {
        var i';
        i', j := AttemptAllFinds(aes, ccm, managers, ms[1..], keys, payload);
        i := i' + 1;
      }
    }
  }

  class LinkLayerDecryptor {
    const aes: BlockCipher
    const ccm: Ccm
    var keys: seq<Bytes>
    var materials: seq<Material>
    var managers: map<Bytes, LinkLayerCryptoManager>
    ghost var states: Managers

    ghost predicate Valid()
      reads this, managers.Values
    {
      && states.Keys == managers.Keys
      && forall k :: k in managers ==> managers[k].ltk == k && managers[k].ccm == ccm && managers[k].State() == states[k]
    }

    /** The counters that `struct.pack` can still hold. */
    ghost predicate CountersFit()
      reads this
    {
      forall k :: k in states ==>
        && states[k].counters.master + ERROR_TOLERANCE <= COUNTER_LIMIT
        && states[k].counters.slave + ERROR_TOLERANCE <= COUNTER_LIMIT
    }

    constructor (aes: BlockCipher, ccm: Ccm, keys: seq<Bytes>)
      ensures Valid() && CountersFit() && states == map[]
      ensures this.aes == aes && this.ccm == ccm && this.keys == keys && materials == []
    {
      this.aes, this.ccm, this.keys := aes, ccm, keys;
      materials, managers, states := [], map[], map[];
    }

    method AddCryptoMaterial(m: Material)
      requires Valid()
      modifies `materials
      ensures Valid() && materials == old(materials) + [m]
    {
      materials := materials + [m];
    }

    /** The manager of a key: the stored one, or a new one that is not stored yet. */
    method ManagerOf(key: Bytes, m: Material) returns (manager: LinkLayerCryptoManager)
      requires Valid()
      ensures Valid() && manager.ltk == key && manager.ccm == ccm
      ensures manager.State() == ManagerFor(aes, states, key, m)
      ensures if key in managers then manager == managers[key]
              else fresh(manager) && manager !in managers.Values
    {
      if key !in managers {
        manager := new LinkLayerCryptoManager(aes, ccm, key, m);
      } else {
        manager := managers[key];
      }
    }

    /** Both directions of one manager. */
    method TryBoth(manager: LinkLayerCryptoManager, payload: Bytes) returns (r: Attempt)
      requires manager.ccm == ccm && payload != []
      requires manager.masterCnt + ERROR_TOLERANCE <= COUNTER_LIMIT
      requires manager.slaveCnt + ERROR_TOLERANCE <= COUNTER_LIMIT
      modifies manager
      ensures (r, manager.State()) == TryManager(ccm, old(manager.State()), payload)
    {
      var plaintext, success := manager.Decrypt(payload, MasterToSlave, ERROR_TOLERANCE);
      if success {
        manager.IncrementCounter(MasterToSlave);
      } else {
        plaintext, success := manager.Decrypt(payload, SlaveToMaster, ERROR_TOLERANCE);
        if success {
          manager.IncrementCounter(SlaveToMaster);
        }
      }
      r := if success then AsPacket(plaintext) else NotDecrypted;
    }

    /** The body of the loop: a manager is stored once it has decrypted something. */
    method TryKey(key: Bytes, m: Material, payload: Bytes) returns (r: Attempt)
      requires Valid() && CountersFit() && payload != []
      modifies `managers, `states, managers.Values
      ensures Valid()
      ensures var (a, st) := TryManager(ccm, ManagerFor(aes, old(states), key, m), payload);
              && r == a
              && states == if a.Decrypted? then old(states)[key := st] else old(states)
      ensures !r.Decrypted? ==> CountersFit() && managers == old(managers)
    {
      var manager := ManagerOf(key, m);
      r := TryBoth(manager, payload);
      if r.Decrypted? {
        managers := managers[key := manager];
        states := states[key := manager.State()];
      } else {
        TryManagerKeeps(ccm, ManagerFor(aes, states, key, m), payload);
      }
    }

    /** The inner loop, over the keys. */
    method TryKeys(m: Material, payload: Bytes) returns (r: Attempt)
      requires Valid() && CountersFit() && payload != []
      modifies `managers, `states, managers.Values
      ensures Valid()
      ensures (r, states) == AttemptKeys(aes, ccm, old(states), m, keys, payload)
      ensures !r.Decrypted? ==> CountersFit() && managers == old(managers) && states == old(states)
    {
      ghost var before := states;
      r := NotDecrypted;
      var j := 0;
      while j < |keys|
        invariant 0 <= j <= |keys| && Valid() && CountersFit()
        invariant states == before && managers == old(managers) && r == NotDecrypted
        invariant AttemptKeys(aes, ccm, before, m, keys, payload) == AttemptKeys(aes, ccm, before, m, keys[j..], payload)
      {
        assert keys[j..][1..] == keys[j + 1..];
        r := TryKey(keys[j], m, payload);
        if r.Decrypted? { return; }
        j := j + 1;
      }
    }

    /** `attempt_to_decrypt`. */
    method AttemptToDecrypt(packet: Packet) returns (r: Attempt)
      requires Valid() && CountersFit() && packet.HasPayload()
      modifies `managers, `states, managers.Values
      ensures Valid()
      ensures materials == [] || keys == [] ==> r == MissingMaterial && states == old(states)
      ensures materials != [] && keys != [] && packet.Skipped() ==> r == NotDecrypted && states == old(states)
      ensures materials != [] && keys != [] && !packet.Skipped() ==>
                (r, states) == AttemptAll(aes, ccm, old(states), materials, keys, packet.Payload())
    {
      if materials == [] || keys == [] { return MissingMaterial; }
      if packet.Skipped() { return NotDecrypted; }
      var payload := packet.Payload();
      ghost var before := states;
      var i := 0;
      while i < |materials|
        invariant 0 <= i <= |materials| && Valid() && CountersFit()
        invariant states == before && managers == old(managers)
        invariant AttemptAll(aes, ccm, before, materials, keys, payload) ==
                  AttemptAll(aes, ccm, before, materials[i..], keys, payload)
      {
        assert materials[i..][1..] == materials[i + 1..];
        r := TryKeys(materials[i], payload);
        if r.Decrypted? { return; }
        AttemptKeysKeeps(aes, ccm, before, materials[i], keys, payload);
        i := i + 1;
      }
      return NotDecrypted;
    }
  }
}
