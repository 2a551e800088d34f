/** The confirm value of BLE legacy pairing and the analyzer that recovers the keys of
    a captured pairing (whad/ble/crypto.py; Bluetooth Core, Vol 3 Part H, section 2.2). */
module LegacyPairing {
  import opened ByteStrings
  import opened Ciphers

  /** The public inputs of the confirm value: both pairing PDUs, and the types and
      values of both addresses. */
  datatype Inputs = Inputs(pres: Bytes, preq: Bytes, iat: Byte, ia: Bytes, rat: Byte, ra: Bytes) {
    function P1(): Bytes { pres + preq + [rat] + [iat] }

    function P2(): Bytes { Zeros(4) + ia + ra }

    predicate Valid() { |pres| == 7 && |preq| == 7 && |ia| == 6 && |ra| == 6 }
  }

  function C1(aes: BlockCipher, key: Bytes, r: Bytes, x: Inputs): Bytes {
    aes.encrypt(key, Xor(aes.encrypt(key, Xor(x.P1(), r)), x.P2()))
  }

  function C1Inverse(aes: BlockCipher, key: Bytes, confirm: Bytes, x: Inputs): Bytes {
    Xor(aes.decrypt(key, Xor(aes.decrypt(key, confirm), x.P2())), x.P1())
  }

  /** On 16-byte blocks each of `c1` and `c1m1` undoes the other. */
  lemma C1RoundTrip(aes: BlockCipher, key: Bytes, r: Bytes, x: Inputs)
    requires aes.Lawful() && x.Valid() && |r| == 16
    ensures C1Inverse(aes, key, C1(aes, key, r, x), x) == r
    ensures C1(aes, key, C1Inverse(aes, key, r, x), x) == r
  {
    var p1, p2 := x.P1(), x.P2();
    XorTwice(aes.encrypt(key, Xor(p1, r)), p2);
    XorCommutes(p1, r);
    XorTwice(r, p1);
    var back := aes.decrypt(key, r);
    XorTwice(back, p2);
    var outer := aes.decrypt(key, Xor(back, p2));
    XorCommutes(p1, Xor(outer, p1));
    XorTwice(outer, p1);
  }

  // ----- Key recovery -----

  const TK_COUNT: nat := 1000000

  function Reversed(s: Bytes): (r: Bytes)
    ensures |r| == |s|
  {
    seq(|s|, i requires 0 <= i < |s| => s[|s| - 1 - i])
  }

  /** A six-digit passkey as a temporary key. */
  function TemporaryKey(i: nat): Bytes {
    Zeros(12) + BigEndian(i, 4)
  }

  /** `s1`. */
  function ShortTermKey(aes: BlockCipher, tk: Bytes, r1: Bytes, r2: Bytes): Bytes
    requires |r1| == 16 && |r2| == 16
  {
    aes.encrypt(tk, r1[8..16] + r2[8..16])
  }

  datatype Address = Address(value: Bytes, random: bool)

  /** Where everything goes in the two inputs and in the passkey block. */
  lemma InputLayout(x: Inputs)
    requires x.Valid()
    ensures |x.P1()| == 16 && x.P1()[..7] == x.pres && x.P1()[7..14] == x.preq && x.P1()[14] == x.rat && x.P1()[15] == x.iat
    ensures |x.P2()| == 16 && x.P2()[..4] == [0, 0, 0, 0] && x.P2()[4..10] == x.ia && x.P2()[10..] == x.ra
    ensures TemporaryKey(0x0102_0304) == [0, 0, 0, 0, 0, 0, 0, 0, 0, 0, 0, 0, 1, 2, 3, 4]
  {
    Conventions();
  }

  /** The confirm value of section 2.2.3, written out. */
  lemma C1Is(aes: BlockCipher, key: Bytes, r: Bytes, pres: Bytes, preq: Bytes, iat: Byte, ia: Bytes, rat: Byte, ra: Bytes)
    ensures C1(aes, key, r, Inputs(pres, preq, iat, ia, rat, ra))
            == aes.encrypt(key, Xor(aes.encrypt(key, Xor(pres + preq + [rat, iat], r)), [0, 0, 0, 0] + ia + ra))
  {
    assert pres + preq + [rat] + [iat] == pres + preq + [rat, iat];
    assert Zeros(4) == [0, 0, 0, 0];
  }

  lemma ReversedAppend(a: Bytes, b: Bytes)
    ensures Reversed(a + b) == Reversed(b) + Reversed(a)
  {
  }

  /** The short-term key encrypts the low halves of both randoms, the slave's first; in the
      order of the air that is the master's first, all reversed. */
  lemma ShortTermKeyHalves(aes: BlockCipher, tk: Bytes, slaveRandom: Bytes, masterRandom: Bytes)
    requires aes.Lawful() && |slaveRandom| == |masterRandom| == 16
    ensures aes.decrypt(tk, ShortTermKey(aes, tk, Reversed(slaveRandom), Reversed(masterRandom)))
            == Reversed(masterRandom[..8] + slaveRandom[..8])
  {
    assert Reversed(slaveRandom)[8..16] == Reversed(slaveRandom[..8]);
    assert Reversed(masterRandom)[8..16] == Reversed(masterRandom[..8]);
    ReversedAppend(masterRandom[..8], slaveRandom[..8]);
  }

  class LegacyPairingCracking {
    const aes: BlockCipher
    var initiator: Option<Address>
    var responder: Option<Address>
    var pairingReq: Option<Bytes>
    var pairingRsp: Option<Bytes>
    var masterConfirm: Option<Bytes>
    var masterRandom: Option<Bytes>
    var slaveConfirm: Option<Bytes>
    var slaveRandom: Option<Bytes>
    var tk: Option<Bytes>
    var stk: Option<Bytes>

    /** The `ready` property, and the sizes that the packets have. */
    ghost predicate Ready()
      reads `initiator, `responder, `pairingReq, `pairingRsp, `masterConfirm, `masterRandom, `slaveConfirm, `slaveRandom
    {
      && initiator.Some? && responder.Some? && |initiator.value.value| == 6 && |responder.value.value| == 6
      && pairingReq.Some? && pairingRsp.Some? && |pairingReq.value| == 7 && |pairingRsp.value| == 7
      && (masterConfirm.Some? || slaveConfirm.Some?)
      && masterRandom.Some? && slaveRandom.Some? && |masterRandom.value| == 16 && |slaveRandom.value| == 16
    }

    /** Everything goes in with its bytes reversed. */
    ghost function Captured(): Inputs
      requires Ready()
      reads `initiator, `responder, `pairingReq, `pairingRsp, `masterConfirm, `masterRandom, `slaveConfirm, `slaveRandom
    {
      Inputs(Reversed(pairingRsp.value), Reversed(pairingReq.value),
             if initiator.value.random then 1 else 0, Reversed(initiator.value.value),
             if responder.value.random then 1 else 0, Reversed(responder.value.value))
    }

    /** Passkey `i` explains the confirm value that was captured first. */
    ghost predicate Explains(i: nat)
      requires Ready()
      reads `initiator, `responder, `pairingReq, `pairingRsp, `masterConfirm, `masterRandom, `slaveConfirm, `slaveRandom
    {
      if masterConfirm.Some? then C1(aes, TemporaryKey(i), Reversed(masterRandom.value), Captured()) == Reversed(masterConfirm.value)
      else C1(aes, TemporaryKey(i), Reversed(slaveRandom.value), Captured()) == Reversed(slaveConfirm.value)
    }

    /** The body of the search, up to the comparison: it is `c1` on reversed inputs. */
    method ConfirmValue(key: Bytes, rand: Bytes) returns (c: Bytes)
      requires Ready()
      ensures c == C1(aes, key, Reversed(rand), Captured())
    {
      var p1 := Reversed(pairingRsp.value) + Reversed(pairingReq.value)
                + ([if responder.value.random then 1 else 0] + [if initiator.value.random then 1 else 0]);
      var p2 := Zeros(4) + Reversed(initiator.value.value) + Reversed(responder.value.value);
      assert p1 == Captured().P1() && p2 == Captured().P2();
      var a := Xor(p1, Reversed(rand));
      var res1 := aes.encrypt(key, a);
      c := aes.encrypt(key, Xor(res1, p2));
    }

    /** The `keys` property: a result found before is given back as it is; otherwise the
        search decides, and `found` is the least passkey that explains the capture. */
    method Keys() returns (r: Option<(Bytes, Bytes)>, ghost found: nat)
      requires Ready()
      modifies `tk, `stk
      ensures old(tk).Some? && old(stk).Some? ==>
                r == Some((old(tk).value, old(stk).value)) && tk == old(tk) && stk == old(stk)
      ensures old(tk).None? || old(stk).None? ==>
                && (r.None? <==> forall i :: 0 <= i < 1_000_000 ==> !Explains(i))
                && (r.None? ==> tk == old(tk) && stk == old(stk))
                && (r.Some? ==> IsLeast(found) && r.value == KeysOf(found))
      ensures r.Some? ==> tk == Some(r.value.0) && stk == Some(r.value.1)
    {
      if tk.Some? && stk.Some? {
        return Some((tk.value, stk.value)), 0;
      }
      r, found := Search();
    }

    ghost predicate IsLeast(i: nat)
      requires Ready()
      reads `initiator, `responder, `pairingReq, `pairingRsp, `masterConfirm, `masterRandom, `slaveConfirm, `slaveRandom
    {
      i < TK_COUNT && Explains(i) && forall j :: 0 <= j < i ==> !Explains(j)
    }

    /** The temporary key of passkey `i`, and the short-term key that it gives. */
    ghost function KeysOf(i: nat): (Bytes, Bytes)
      requires Ready()
      reads `initiator, `responder, `pairingReq, `pairingRsp, `masterConfirm, `masterRandom, `slaveConfirm, `slaveRandom
    {
      (TemporaryKey(i), ShortTermKey(aes, TemporaryKey(i), Reversed(slaveRandom.value), Reversed(masterRandom.value)))
    }

    /** The search: `found` is the least passkey that explains the capture; nothing is
        returned exactly when there is none. */
    method Search() returns (r: Option<(Bytes, Bytes)>, ghost found: nat)
      requires Ready()
      modifies `tk, `stk
      ensures r.None? <==> forall i :: 0 <= i < 1_000_000 ==> !Explains(i)
      ensures r.None? ==> tk == old(tk) && stk == old(stk)
      ensures r.Some? ==> IsLeast(found) && r.value == KeysOf(found)
      ensures r.Some? ==> tk == Some(r.value.0) && stk == Some(r.value.1)
    {
      var rand := if masterConfirm.Some? then masterRandom.value else slaveRandom.value;
      var confirm := if masterConfirm.Some? then masterConfirm.value else slaveConfirm.value;
      found := 0;
      for i := 0 to TK_COUNT
        invariant tk == old(tk) && stk == old(stk)
        invariant forall j :: 0 <= j < i ==> !Explains(j)
      {
        var key := TemporaryKey(i);
        var res2 := ConfirmValue(key, rand);
        if res2 == Reversed(confirm) {
          var short := ShortTermKey(aes, key, Reversed(slaveRandom.value), Reversed(masterRandom.value));
          found := i;
          tk, stk := Some(key), Some(short);
          assert Explains(found);
          return Some((key, short)), i;
        }
      }
      return None, 0;
    }
  }

  /** What makes a passkey explain a capture, in the order of the air: the initiator's address
      type and request come first, and each confirm value goes with its own side's random. */
  lemma ExplainsIs(l: LegacyPairingCracking, i: nat, req: Bytes, rsp: Bytes, initiator: Address, responder: Address)
    requires l.Ready() && l.pairingReq == Some(req) && l.pairingRsp == Some(rsp)
    requires l.initiator == Some(initiator) && l.responder == Some(responder)
    ensures
      var tk := TemporaryKey(i);
      var p1 := Reversed([if initiator.random then 1 else 0, if responder.random then 1 else 0] + req + rsp);
      var p2 := Reversed(responder.value + initiator.value + [0, 0, 0, 0]);
      var inner := (random: Bytes) => l.aes.encrypt(tk, Xor(p1, Reversed(random)));
      && (l.masterConfirm.Some? ==>
            (l.Explains(i) <==> l.aes.encrypt(tk, Xor(inner(l.masterRandom.value), p2)) == Reversed(l.masterConfirm.value)))
      && (l.masterConfirm.None? ==>
            (l.Explains(i) <==> l.aes.encrypt(tk, Xor(inner(l.slaveRandom.value), p2)) == Reversed(l.slaveConfirm.value)))
  {
    var iat: Byte, rat: Byte := if initiator.random then 1 else 0, if responder.random then 1 else 0;
    ReversedAppend([iat, rat] + req, rsp);
    ReversedAppend([iat, rat], req);
    assert Reversed([iat, rat]) == [rat] + [iat];
    var x := l.Captured();
    assert x.P1() == Reversed([iat, rat] + req + rsp);
    ReversedAppend(responder.value + initiator.value, [0, 0, 0, 0]);
    ReversedAppend(responder.value, initiator.value);
    assert Reversed([0, 0, 0, 0]) == Zeros(4);
    assert x.P2() == Reversed(responder.value + initiator.value + [0, 0, 0, 0]);
  }

  /** The keys found: the passkey, and a block that decrypts under it to the low halves of both
      randoms. */
  lemma KeysOfIs(l: LegacyPairingCracking, i: nat)
    requires l.aes.Lawful() && l.Ready()
    ensures l.KeysOf(i).0 == TemporaryKey(i)
    ensures l.aes.decrypt(TemporaryKey(i), l.KeysOf(i).1) == Reversed(l.masterRandom.value[..8] + l.slaveRandom.value[..8])
  {
    ShortTermKeyHalves(l.aes, TemporaryKey(i), l.slaveRandom.value, l.masterRandom.value);
  }
}
