/** PB-ADV provisioning (whad/btmesh/crypto.py), driven in the order of the
    provisioning layer (whad/btmesh/stack/provisioning). Each party fills in its
    fields step by step; the functions below say what the fields end up as. */
module MeshProvisioning {
  import opened ByteStrings
  import opened Ciphers
  import opened MeshNetwork

  /** BTM_ECDH_P256_CMAC_AES128_AES_CCM and BTM_ECDH_P256_HMAC_SHA256_AES_CCM. */
  datatype Algorithm = CmacAes128 | HmacSha256 {
    function AuthSize(): nat { if this == CmacAes128 then 16 else 32 }
  }

  datatype PublicKey = PublicKey(x: Bytes, y: Bytes)

  /** P-256: both ways of combining a private and a public key agree. */
  datatype Dh = Dh(publicOf: nat -> PublicKey, shared: (nat, PublicKey) -> Bytes) {
    ghost predicate Lawful() {
      forall a, b :: shared(a, publicOf(b)) == shared(b, publicOf(a))
    }
  }

  const PRCK: Bytes := [0x70, 0x72, 0x63, 0x6B]
  const PRCK256: Bytes := [0x70, 0x72, 0x63, 0x6B, 0x32, 0x35, 0x36]
  const PRSK: Bytes := [0x70, 0x72, 0x73, 0x6B]
  const PRSN: Bytes := [0x70, 0x72, 0x73, 0x6E]
  const PRDK: Bytes := [0x70, 0x72, 0x64, 0x6B]

  function S2(p: Primitives, m: Bytes): Bytes {
    p.hmac(Zeros(32), m)
  }

  function K5(p: Primitives, n: Bytes, salt: Bytes, info: Bytes): Bytes {
    p.hmac(p.hmac(salt, n), info)
  }

  /** The three PDUs that enter the confirmation inputs. */
  datatype Pdus = Pdus(invite: Bytes, capabilities: Bytes, start: Bytes)

  /** What both parties know when they derive keys. `early` is the authentication
      value held when the confirmation key is derived. */
  datatype Transcript = Transcript(
    alg: Algorithm, pdus: Pdus, provisioner: PublicKey, provisionee: PublicKey,
    secret: Bytes, randProvisioner: Bytes, randProvisionee: Bytes, early: Bytes)

  function SaltFrom(p: Primitives, alg: Algorithm, pdus: Pdus, provisioner: PublicKey, provisionee: PublicKey): Bytes {
    var inputs := pdus.invite + pdus.capabilities + pdus.start
                  + provisioner.x + provisioner.y + provisionee.x + provisionee.y;
    if alg == CmacAes128 then S1(p, inputs) else S2(p, inputs)
  }

  function KeyFrom(p: Primitives, alg: Algorithm, secret: Bytes, auth: Bytes, salt: Bytes): Bytes {
    if alg == CmacAes128 then K1(p, secret, salt, PRCK) else K5(p, secret + auth, salt, PRCK256)
  }

  function ConfirmationFrom(p: Primitives, alg: Algorithm, key: Bytes, rand: Bytes, auth: Bytes): Bytes {
    if alg == CmacAes128 then p.cmac(key, rand + auth) else p.hmac(key, rand)
  }

  function ConfirmationSalt(p: Primitives, t: Transcript): Bytes {
    SaltFrom(p, t.alg, t.pdus, t.provisioner, t.provisionee)
  }

  function ConfirmationKey(p: Primitives, t: Transcript): Bytes {
    KeyFrom(p, t.alg, t.secret, t.early, ConfirmationSalt(p, t))
  }

  /** The confirmation of `rand` by a party that holds the authentication value `auth`. */
  function Confirmation(p: Primitives, t: Transcript, rand: Bytes, auth: Bytes): Bytes {
    ConfirmationFrom(p, t.alg, ConfirmationKey(p, t), rand, auth)
  }

  function ProvisioningSalt(p: Primitives, t: Transcript): Bytes {
    S1(p, ConfirmationSalt(p, t) + t.randProvisioner + t.randProvisionee)
  }

  function SessionKey(p: Primitives, secret: Bytes, salt: Bytes): Bytes {
    K1(p, secret, salt, PRSK)
  }

  function SessionNonce(p: Primitives, secret: Bytes, salt: Bytes): Bytes {
    Last(K1(p, secret, salt, PRSN), 13)
  }

  function DeviceKey(p: Primitives, secret: Bytes, salt: Bytes): Bytes {
    K1(p, secret, salt, PRDK)
  }

  function Last(s: Bytes, n: nat): Bytes {
    if |s| <= n then s else s[|s| - n..]
  }

  /** The derivations of sections 5.4.2.4.1 and 5.4.2.5, written out: what goes in, in which
      order, and under which label. Session key, session nonce and device key are MACs of
      three different labels under one key, so none can stand for another. */
  lemma DerivationsAre(p: Primitives, t: Transcript, rand: Bytes, auth: Bytes)
    requires p.Lawful()
    ensures var inputs := t.pdus.invite + t.pdus.capabilities + t.pdus.start
                          + t.provisioner.x + t.provisioner.y + t.provisionee.x + t.provisionee.y;
            var salt, key := ConfirmationSalt(p, t), ConfirmationKey(p, t);
            && (t.alg == CmacAes128 ==>
                  && t.alg.AuthSize() == 16 && salt == p.cmac(Zeros(16), inputs)
                  && key == p.cmac(p.cmac(salt, t.secret), [0x70, 0x72, 0x63, 0x6B])
                  && Confirmation(p, t, rand, auth) == p.cmac(key, rand + auth))
            && (t.alg == HmacSha256 ==>
                  && t.alg.AuthSize() == 32 && salt == p.hmac(Zeros(32), inputs)
                  && key == p.hmac(p.hmac(salt, t.secret + t.early), [0x70, 0x72, 0x63, 0x6B, 0x32, 0x35, 0x36])
                  && Confirmation(p, t, rand, auth) == p.hmac(key, rand))
            && ProvisioningSalt(p, t) == p.cmac(Zeros(16), salt + t.randProvisioner + t.randProvisionee)
    ensures var salt := ProvisioningSalt(p, t);
            var mac := (name: Bytes) => p.cmac(p.cmac(salt, t.secret), name);
            && SessionKey(p, t.secret, salt) == mac([0x70, 0x72, 0x73, 0x6B])
            && SessionNonce(p, t.secret, salt) == mac([0x70, 0x72, 0x73, 0x6E])[3..]
            && DeviceKey(p, t.secret, salt) == mac([0x70, 0x72, 0x64, 0x6B])
            && |SessionNonce(p, t.secret, salt)| == 13
  {
  }

  class CryptoManager {
    const p: Primitives
    const dh: Dh
    const alg: Algorithm
    const isProvisioner: bool
    var privateKey: nat
    var keyProvisioner: PublicKey
    var keyProvisionee: PublicKey
    var ecdhSecret: Bytes
    var randProvisioner: Bytes
    var randProvisionee: Bytes
    var authValue: Bytes
    var confirmationSalt: Bytes
    var confirmationKey: Bytes
    var confirmationProvisioner: Bytes
    var confirmationProvisionee: Bytes
    var receivedConfirmation: Bytes
    var provisioningSalt: Bytes
    var sessionKey: Bytes
    var sessionNonce: Bytes

    constructor (p: Primitives, dh: Dh, alg: Algorithm, isProvisioner: bool)
      ensures this.p == p && this.dh == dh && this.alg == alg && this.isProvisioner == isProvisioner
      ensures authValue == Zeros(alg.AuthSize())
    {
      this.p, this.dh, this.alg, this.isProvisioner := p, dh, alg, isProvisioner;
      privateKey, keyProvisioner, keyProvisionee := 0, PublicKey([], []), PublicKey([], []);
      ecdhSecret, randProvisioner, randProvisionee, authValue := [], [], [], Zeros(alg.AuthSize());
      confirmationSalt, confirmationKey, provisioningSalt, sessionKey, sessionNonce := [], [], [], [], [];
      confirmationProvisioner, confirmationProvisionee, receivedConfirmation := [], [], [];
    }

    /** The confirmation salt and key are what `t` gives. */
    ghost predicate Keyed(t: Transcript)
      reads this
    {
      && alg == t.alg && ecdhSecret == t.secret
      && keyProvisioner == t.provisioner && keyProvisionee == t.provisionee
      && confirmationSalt == ConfirmationSalt(p, t) && confirmationKey == ConfirmationKey(p, t)
    }

    method GenerateKeypair(key: nat)
      modifies `privateKey, `keyProvisioner, `keyProvisionee
      ensures privateKey == key
      ensures keyProvisioner == if isProvisioner then dh.publicOf(key) else old(keyProvisioner)
      ensures keyProvisionee == if isProvisioner then old(keyProvisionee) else dh.publicOf(key)
    {
      privateKey := key;
      if isProvisioner { keyProvisioner := dh.publicOf(key); } else { keyProvisionee := dh.publicOf(key); }
    }

    /** `on_public_key` of both layers: the peer's key comes in, and everything up to
        the confirmation key is derived with the authentication value held so far. */
    method OnPublicKey(peer: PublicKey, pdus: Pdus, random: Bytes)
      modifies `keyProvisioner, `keyProvisionee, `ecdhSecret, `confirmationSalt, `confirmationKey,
               `randProvisioner, `randProvisionee
      ensures ecdhSecret == dh.shared(privateKey, peer)
      ensures keyProvisioner == if isProvisioner then old(keyProvisioner) else peer
      ensures keyProvisionee == if isProvisioner then peer else old(keyProvisionee)
      ensures randProvisioner == if isProvisioner then random else old(randProvisioner)
      ensures randProvisionee == if isProvisioner then old(randProvisionee) else random
      ensures confirmationSalt == SaltFrom(p, alg, pdus, keyProvisioner, keyProvisionee)
      ensures confirmationKey == KeyFrom(p, alg, ecdhSecret, authValue, confirmationSalt)
    {
      if isProvisioner { keyProvisionee := peer; } else { keyProvisioner := peer; }
      ecdhSecret := dh.shared(privateKey, peer);
      var inputs := pdus.invite + pdus.capabilities + pdus.start
                    + keyProvisioner.x + keyProvisioner.y + keyProvisionee.x + keyProvisionee.y;
      confirmationSalt := if alg == CmacAes128 then S1(p, inputs) else S2(p, inputs);
      confirmationKey := if alg == CmacAes128 then K1(p, ecdhSecret, confirmationSalt, PRCK)
                         else K5(p, ecdhSecret + authValue, confirmationSalt, PRCK256);
      if isProvisioner { randProvisioner := random; } else { randProvisionee := random; }
    }

    method SetAuthValue(value: Option<Bytes>)
      modifies `authValue
      ensures authValue == if value.Some? then value.value else old(authValue)
    {
      if value.Some? { authValue := value.value; }
    }

    /** `compute_confirmation_provisioner`, `compute_confirmation_provisionee`. */
    method ComputeConfirmation(ofProvisioner: bool) returns (c: Bytes)
      modifies `confirmationProvisioner, `confirmationProvisionee
      ensures c == if ofProvisioner then confirmationProvisioner else confirmationProvisionee
      ensures c == ConfirmationFrom(p, alg, confirmationKey,
                     if ofProvisioner then randProvisioner else randProvisionee, authValue)
      ensures if ofProvisioner then confirmationProvisionee == old(confirmationProvisionee)
              else confirmationProvisioner == old(confirmationProvisioner)
    {
      var rand := if ofProvisioner then randProvisioner else randProvisionee;
      c := if alg == CmacAes128 then p.cmac(confirmationKey, rand + authValue) else p.hmac(confirmationKey, rand);
      if ofProvisioner { confirmationProvisioner := c; } else { confirmationProvisionee := c; }
    }

    method ReceiveConfirmation(c: Bytes)
      modifies `receivedConfirmation
      ensures receivedConfirmation == c
    {
      receivedConfirmation := c;
    }

    /** `on_random`: the peer's random comes in and must explain its confirmation. */
    method OnRandom(random: Bytes) returns (ok: bool)
      modifies `randProvisioner, `randProvisionee, `confirmationProvisioner, `confirmationProvisionee
      ensures randProvisioner == if isProvisioner then old(randProvisioner) else random
      ensures randProvisionee == if isProvisioner then random else old(randProvisionee)
      ensures ok <==> receivedConfirmation == ConfirmationFrom(p, alg, confirmationKey, random, authValue)
      ensures if isProvisioner
              then confirmationProvisioner == old(confirmationProvisioner)
                   && confirmationProvisionee == ConfirmationFrom(p, alg, confirmationKey, random, authValue)
              else confirmationProvisionee == old(confirmationProvisionee)
                   && confirmationProvisioner == ConfirmationFrom(p, alg, confirmationKey, random, authValue)
    {
      if isProvisioner { randProvisionee := random; } else { randProvisioner := random; }
      var expected := ComputeConfirmation(!isProvisioner);
      ok := receivedConfirmation == expected;
    }

    method ComputeSession()
      modifies `provisioningSalt, `sessionKey, `sessionNonce
      ensures provisioningSalt == S1(p, confirmationSalt + randProvisioner + randProvisionee)
      ensures sessionKey == SessionKey(p, ecdhSecret, provisioningSalt)
      ensures sessionNonce == SessionNonce(p, ecdhSecret, provisioningSalt)
    {
      provisioningSalt := S1(p, confirmationSalt + randProvisioner + randProvisionee);
      sessionKey := K1(p, ecdhSecret, provisioningSalt, PRSK);
      sessionNonce := Last(K1(p, ecdhSecret, provisioningSalt, PRSN), 13);
    }

    method Encrypt(plaintext: Bytes) returns (cipher: Bytes, mic: Bytes)
      ensures (cipher, mic) == p.ccm.seal(sessionKey, sessionNonce, [], plaintext, 8)
    {
      var sealed := p.ccm.seal(sessionKey, sessionNonce, [], plaintext, 8);
      cipher, mic := sealed.0, sealed.1;
    }

    method Decrypt(cipher: Bytes, mic: Bytes) returns (plaintext: Bytes, ok: bool)
      ensures (plaintext, ok) == p.ccm.open(sessionKey, sessionNonce, [], cipher, mic, 8)
    {
      var opened' := p.ccm.open(sessionKey, sessionNonce, [], cipher, mic, 8);
      plaintext, ok := opened'.0, opened'.1;
    }
  }

  /** Public keys are exchanged; each party derives its secret, salt and key. */
  method ExchangeKeys(a: CryptoManager, b: CryptoManager, keyA: nat, keyB: nat, pdus: Pdus, randA: Bytes, randB: Bytes,
                      ghost t: Transcript)
    requires Pair(a, b) && a.authValue == b.authValue == t.early
    requires t.alg == a.alg && t.pdus == pdus && t.secret == a.dh.shared(keyA, a.dh.publicOf(keyB))
    requires t.provisioner == a.dh.publicOf(keyA) && t.provisionee == a.dh.publicOf(keyB)
    modifies a`privateKey, a`keyProvisioner, a`keyProvisionee, a`ecdhSecret, a`confirmationSalt, a`confirmationKey,
             a`randProvisioner, a`randProvisionee
    modifies b`privateKey, b`keyProvisioner, b`keyProvisionee, b`ecdhSecret, b`confirmationSalt, b`confirmationKey,
             b`randProvisioner, b`randProvisionee
    ensures a.Keyed(t) && b.Keyed(t)
    ensures a.randProvisioner == randA && b.randProvisionee == randB
  {
    a.GenerateKeypair(keyA);
    b.GenerateKeypair(keyB);
    b.OnPublicKey(a.keyProvisioner, pdus, randB);
    a.OnPublicKey(b.keyProvisionee, pdus, randA);
  }

  /** The first check that fails: the provisionee's of the provisioner, made first, or
      the provisioner's of the provisionee. */
  datatype Verdict = Accepted | RefusedByProvisionee | RefusedByProvisioner

  /** CMAC gives `rand` the same confirmation with either authentication value. */
  predicate SameMac(p: Primitives, t: Transcript, rand: Bytes, authA: Bytes, authB: Bytes) {
    p.cmac(ConfirmationKey(p, t), rand + authA) == p.cmac(ConfirmationKey(p, t), rand + authB)
  }

  /** How two parties of one transcript judge each other when the provisioner holds
      `authA` and the provisionee `authB`. */
  function Judge(p: Primitives, t: Transcript, authA: Bytes, authB: Bytes): Verdict {
    if Confirmation(p, t, t.randProvisioner, authA) != Confirmation(p, t, t.randProvisioner, authB) then RefusedByProvisionee
    else if Confirmation(p, t, t.randProvisionee, authA) != Confirmation(p, t, t.randProvisionee, authB) then RefusedByProvisioner
    else Accepted
  }

  /** Each party commits to its random. The authentication value comes in only now, and
      each party has its own. */
  method ExchangeConfirmations(a: CryptoManager, b: CryptoManager, authA: Option<Bytes>, authB: Option<Bytes>,
                               ghost t: Transcript)
    requires Pair(a, b) && a.Keyed(t) && b.Keyed(t)
    requires a.randProvisioner == t.randProvisioner && b.randProvisionee == t.randProvisionee
    modifies a`authValue, a`receivedConfirmation, a`confirmationProvisioner, a`confirmationProvisionee
    modifies b`authValue, b`receivedConfirmation, b`confirmationProvisioner, b`confirmationProvisionee
    ensures a.Keyed(t) && b.Keyed(t)
    ensures a.authValue == (if authA.Some? then authA.value else old(a.authValue))
    ensures b.authValue == (if authB.Some? then authB.value else old(b.authValue))
    ensures a.confirmationProvisioner == b.receivedConfirmation == Confirmation(a.p, t, t.randProvisioner, a.authValue)
    ensures b.confirmationProvisionee == a.receivedConfirmation == Confirmation(a.p, t, t.randProvisionee, b.authValue)
  {
    a.SetAuthValue(authA);
    b.SetAuthValue(authB);
    var ca := a.ComputeConfirmation(true);
    b.ReceiveConfirmation(ca);
    var cb := b.ComputeConfirmation(false);
    a.ReceiveConfirmation(cb);
  }

  /** Confirmations, then the randoms that explain them. Under HMAC the parties always
      accept each other; under CMAC exactly if the MACs agree for both randoms. */
  method Confirm(a: CryptoManager, b: CryptoManager, authA: Option<Bytes>, authB: Option<Bytes>, ghost t: Transcript)
    returns (verdict: Verdict)
    requires Pair(a, b) && a.Keyed(t) && b.Keyed(t)
    requires a.randProvisioner == t.randProvisioner && b.randProvisionee == t.randProvisionee
    modifies a`authValue, a`receivedConfirmation, a`randProvisioner, a`randProvisionee,
             a`confirmationProvisioner, a`confirmationProvisionee
    modifies b`authValue, b`receivedConfirmation, b`randProvisioner, b`randProvisionee,
             b`confirmationProvisioner, b`confirmationProvisionee
    ensures a.Keyed(t) && b.Keyed(t)
    ensures a.authValue == (if authA.Some? then authA.value else old(a.authValue))
    ensures b.authValue == (if authB.Some? then authB.value else old(b.authValue))
    ensures verdict == Judge(a.p, t, a.authValue, b.authValue)
    ensures verdict == Accepted <==>
              t.alg == HmacSha256 ||
              (&& SameMac(a.p, t, t.randProvisioner, a.authValue, b.authValue)
               && SameMac(a.p, t, t.randProvisionee, a.authValue, b.authValue))
    ensures verdict == RefusedByProvisionee <==>
              t.alg == CmacAes128 && !SameMac(a.p, t, t.randProvisioner, a.authValue, b.authValue)
    ensures a.confirmationProvisioner == Confirmation(a.p, t, t.randProvisioner, a.authValue)
    ensures b.confirmationProvisionee == Confirmation(a.p, t, t.randProvisionee, b.authValue)
    ensures verdict == Accepted ==>
              && a.randProvisioner == b.randProvisioner == t.randProvisioner
              && a.randProvisionee == b.randProvisionee == t.randProvisionee
              && a.confirmationProvisioner == b.confirmationProvisioner
              && a.confirmationProvisionee == b.confirmationProvisionee
  {
    ExchangeConfirmations(a, b, authA, authB, t);
    var ok := b.OnRandom(a.randProvisioner);
    if !ok { return RefusedByProvisionee; }
    ok := a.OnRandom(b.randProvisionee);
    return if ok then Accepted else RefusedByProvisioner;
  }

  /** CMAC tells the two messages apart that the two values make of a random. */
  predicate NoCollision(p: Primitives, t: Transcript, authA: Bytes, authB: Bytes) {
    && (SameMac(p, t, t.randProvisioner, authA, authB) ==> t.randProvisioner + authA == t.randProvisioner + authB)
    && (SameMac(p, t, t.randProvisionee, authA, authB) ==> t.randProvisionee + authA == t.randProvisionee + authB)
  }

  /** Short of a collision, parties accept each other exactly if they hold the same
      value, or use HMAC, which does not look at it. */
  lemma AcceptedIffSameValue(p: Primitives, t: Transcript, authA: Bytes, authB: Bytes)
    requires NoCollision(p, t, authA, authB)
    ensures Judge(p, t, authA, authB) == Accepted <==> t.alg == HmacSha256 || authA == authB
  {
    var rand := t.randProvisioner;
    if rand + authA == rand + authB {
      assert (rand + authA)[|rand|..] == authA && (rand + authB)[|rand|..] == authB;
    }
  }

  /** The same pair of values, 1234 against 4321, under both algorithms: HMAC accepts it
      whatever the primitives are; CMAC, as soon as it tells the two messages apart. */
  lemma MismatchExample(p: Primitives, t: Transcript)
    ensures var authA, authB := BigEndian(1234, t.alg.AuthSize()), BigEndian(4321, t.alg.AuthSize());
            && authA != authB
            && (t.alg == HmacSha256 ==> Judge(p, t, authA, authB) == Accepted)
            && (t.alg == CmacAes128 && NoCollision(p, t, authA, authB) ==> Judge(p, t, authA, authB) != Accepted)
  {
    var size := t.alg.AuthSize();
    var authA, authB := BigEndian(1234, size), BigEndian(4321, size);
    assert authA[size - 1] == 1234 % 256 && authB[size - 1] == 4321 % 256 by {
      BigEndianAt(1234, size, size - 1);
      BigEndianAt(4321, size, size - 1);
    }
    if NoCollision(p, t, authA, authB) {
      AcceptedIffSameValue(p, t, authA, authB);
    }
  }

  /** The provisioning data cross under keys that each party derives on its own. */
  method SendData(a: CryptoManager, b: CryptoManager, data: Bytes, ghost t: Transcript)
    returns (received: Bytes, authentic: bool)
    requires Pair(a, b) && a.Keyed(t) && b.Keyed(t)
    requires a.randProvisioner == b.randProvisioner == t.randProvisioner
    requires a.randProvisionee == b.randProvisionee == t.randProvisionee
    modifies a`provisioningSalt, a`sessionKey, a`sessionNonce, b`provisioningSalt, b`sessionKey, b`sessionNonce
    ensures received == data && authentic
    ensures a.provisioningSalt == b.provisioningSalt == ProvisioningSalt(a.p, t)
    ensures a.sessionKey == b.sessionKey == SessionKey(a.p, t.secret, ProvisioningSalt(a.p, t))
    ensures a.sessionNonce == b.sessionNonce == SessionNonce(a.p, t.secret, ProvisioningSalt(a.p, t))
  {
    a.ComputeSession();
    var cipher, mic := a.Encrypt(data);
    b.ComputeSession();
    received, authentic := b.Decrypt(cipher, mic);
  }

  /** A provisioner and a provisionee with the same primitives and algorithm. */
  ghost predicate Pair(a: CryptoManager, b: CryptoManager) {
    && a != b && a.isProvisioner && !b.isProvisioner
    && a.p == b.p && a.dh == b.dh && a.alg == b.alg && a.p.Lawful() && a.dh.Lawful()
  }

  /** That is possible of all sixteen-byte values at once: a toy CMAC that gives back the
      last sixteen bytes of its message. */
  lemma NoCollisionIsPossible(p: Primitives, t: Transcript, authA: Bytes, authB: Bytes)
    requires p.Lawful() && |authA| == |authB| == 16
    ensures var toy := p.(cmac := (key: Bytes, m: Bytes) => Last(Zeros(16) + m, 16));
            toy.Lawful() && NoCollision(toy, t, authA, authB)
  {
    forall rand: Bytes, auth: Bytes | |auth| == 16 ensures Last(Zeros(16) + (rand + auth), 16) == auth {
      assert Zeros(16) + (rand + auth) == (Zeros(16) + rand) + auth;
    }
  }

  datatype RunResult = Completed(received: Bytes, authentic: bool) | InvalidConfirmation(verdict: Verdict)

  function ValueHeld(alg: Algorithm, auth: Option<Bytes>): Bytes {
    if auth.Some? then auth.value else Zeros(alg.AuthSize())
  }

  /** A run of the protocol between two fresh parties over a link that delivers what is
      sent, each with the authentication value its user gave it, if any. It completes
      exactly if they accept each other; then both hold the keys of one and the same
      transcript, and the provisioning data arrive authentic. */
  method Provision(a: CryptoManager, b: CryptoManager, keyA: nat, keyB: nat, pdus: Pdus,
                   randA: Bytes, randB: Bytes, authA: Option<Bytes>, authB: Option<Bytes>, data: Bytes)
    returns (result: RunResult, ghost t: Transcript)
    requires Pair(a, b)
    requires a.authValue == b.authValue == Zeros(a.alg.AuthSize())
    modifies a, b
    ensures t == Transcript(a.alg, pdus, a.dh.publicOf(keyA), a.dh.publicOf(keyB), a.dh.shared(keyA, a.dh.publicOf(keyB)),
                            randA, randB, Zeros(a.alg.AuthSize()))
    ensures var verdict := Judge(a.p, t, ValueHeld(a.alg, authA), ValueHeld(a.alg, authB));
            result == if verdict == Accepted then Completed(data, true) else InvalidConfirmation(verdict)
    ensures a.alg == HmacSha256 || ValueHeld(a.alg, authA) == ValueHeld(a.alg, authB) ==> result == Completed(data, true)
    ensures a.Keyed(t) && b.Keyed(t)
    ensures result.Completed? ==>
              && a.confirmationProvisioner == b.confirmationProvisioner
              && a.confirmationProvisionee == b.confirmationProvisionee
              && a.provisioningSalt == b.provisioningSalt == ProvisioningSalt(a.p, t)
              && a.sessionKey == b.sessionKey == SessionKey(a.p, t.secret, ProvisioningSalt(a.p, t))
              && a.sessionNonce == b.sessionNonce == SessionNonce(a.p, t.secret, ProvisioningSalt(a.p, t))
              && DeviceKey(a.p, a.ecdhSecret, a.provisioningSalt) == DeviceKey(b.p, b.ecdhSecret, b.provisioningSalt)
  {
    t := Transcript(a.alg, pdus, a.dh.publicOf(keyA), a.dh.publicOf(keyB), a.dh.shared(keyA, a.dh.publicOf(keyB)),
                    randA, randB, Zeros(a.alg.AuthSize()));
    ExchangeKeys(a, b, keyA, keyB, pdus, randA, randB, t);
    var verdict := Confirm(a, b, authA, authB, t);
    if verdict != Accepted { result := InvalidConfirmation(verdict); return; }
    var received, authentic := SendData(a, b, data, t);
    result := Completed(received, authentic);
  }
}
