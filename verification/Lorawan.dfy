/** LoRaWAN 1.0 payload encryption and packet protection (whad/lorawan/crypto.py). */
module Lorawan {
  import opened ByteStrings
  import opened Ciphers

  type U32 = n: nat | n < 0x1_0000_0000
  type U16 = n: nat | n < 0x1_0000

  // ----- The stream cipher -----

  /** Block A_i: section 4.3.3 of LoRaWAN 1.0. Index 0 belongs to the frame options. */
  function ABlock(devAddr: U32, fcnt: U32, uplink: bool, index: Byte): (r: Bytes)
    ensures |r| == 16
  {
    [1] + LittleEndian(0, 4) + [if uplink then 0 else 1] + LittleEndian(devAddr, 4) + LittleEndian(fcnt, 4) + [0] + [index]
  }

  const MAX_FRAME: nat := 255 * 16

  function KeystreamByte(aes: BlockCipher, key: Bytes, devAddr: U32, fcnt: U32, uplink: bool, i: nat): Byte
    requires aes.Lawful() && i < MAX_FRAME
  {
    aes.encrypt(key, ABlock(devAddr, fcnt, uplink, i / 16 + 1))[i % 16]
  }

  /** Every byte xored with the keystream byte at its position. */
  function FrameXor(aes: BlockCipher, key: Bytes, devAddr: U32, fcnt: U32, uplink: bool, frame: Bytes): (r: Bytes)
    requires aes.Lawful() && |frame| <= MAX_FRAME
    ensures |r| == |frame|
  {
    seq(|frame|, i requires 0 <= i < |frame| => XorByte(frame[i], KeystreamByte(aes, key, devAddr, fcnt, uplink, i)))
  }

  function FoptsXor(aes: BlockCipher, key: Bytes, devAddr: U32, fcnt: U32, uplink: bool, fopts: Bytes): (r: Bytes)
    requires aes.Lawful() && |fopts| <= 16
    ensures |r| == |fopts|
  {
    Xor(fopts, aes.encrypt(key, ABlock(devAddr, fcnt, uplink, 0)))
  }

  /** The blocks A_1 to A_n. */
  method GenerateBlocks(devAddr: U32, fcnt: U32, uplink: bool, n: nat) returns (blocks: seq<Bytes>)
    requires n <= 255
    ensures |blocks| == n && forall j :: 0 <= j < n ==> blocks[j] == ABlock(devAddr, fcnt, uplink, j + 1)
  {
    blocks := [];
    for i := 0 to n
      invariant |blocks| == i
      invariant forall j :: 0 <= j < i ==> blocks[j] == ABlock(devAddr, fcnt, uplink, j + 1)
    {
      blocks := blocks + [ABlock(devAddr, fcnt, uplink, i + 1)];
    }
  }

  method GenerateKeystream(aes: BlockCipher, key: Bytes, blocks: seq<Bytes>) returns (ks: Bytes)
    requires aes.Lawful() && forall j :: 0 <= j < |blocks| ==> |blocks[j]| == 16
    ensures |ks| == 16 * |blocks|
    ensures forall k :: 0 <= k < |ks| ==> ks[k] == aes.encrypt(key, blocks[k / 16])[k % 16]
  {
    ks := [];
    for j := 0 to |blocks|
      invariant |ks| == 16 * j
      invariant forall k :: 0 <= k < |ks| ==> ks[k] == aes.encrypt(key, blocks[k / 16])[k % 16]
    {
      var block := aes.encrypt(key, blocks[j]);
      forall k | 16 * j <= k < 16 * j + 16 ensures k / 16 == j && k % 16 == k - 16 * j {
      }
      ks := ks + block;
    }
  }

  /** `encrypt_frame`: the block index is one byte, so more than 255 blocks raise. */
  method EncryptFrame(aes: BlockCipher, key: Bytes, devAddr: U32, fcnt: U32, frame: Bytes, uplink: bool)
    returns (r: Option<Bytes>)
    requires aes.Lawful()
    ensures r == if |frame| <= MAX_FRAME then Some(FrameXor(aes, key, devAddr, fcnt, uplink, frame)) else None
  {
    var frameLength := |frame|;
    var nbBlocks := frameLength / 16;
    if frameLength % 16 > 0 {
      nbBlocks := nbBlocks + 1;
    }
    if nbBlocks > 255 { return None; }
    var blocks := GenerateBlocks(devAddr, fcnt, uplink, nbBlocks);
    var ks := GenerateKeystream(aes, key, blocks);
    forall k | 0 <= k < frameLength ensures ks[k] == KeystreamByte(aes, key, devAddr, fcnt, uplink, k) {
      assert 0 <= k / 16 < nbBlocks;
    }
    var output: Bytes := [];
    for i := 0 to frameLength
      invariant |output| == i
      invariant forall k :: 0 <= k < i ==> output[k] == XorByte(frame[k], ks[k])
    {
      output := output + [XorByte(frame[i], ks[i])];
    }
    assert output == FrameXor(aes, key, devAddr, fcnt, uplink, frame);
    return Some(output);
  }

  /** `encrypt_fopts`: one block of keystream, so more than 16 bytes raise. */
  method EncryptFopts(aes: BlockCipher, key: Bytes, devAddr: U32, fcnt: U32, fopts: Bytes, uplink: bool)
    returns (r: Option<Bytes>)
    requires aes.Lawful()
    ensures r == if |fopts| <= 16 then Some(FoptsXor(aes, key, devAddr, fcnt, uplink, fopts)) else None
  {
    var ks := aes.encrypt(key, ABlock(devAddr, fcnt, uplink, 0));
    var output: Bytes := [];
    for i := 0 to |fopts|
      invariant |output| == i <= 16
      invariant forall k :: 0 <= k < i ==> output[k] == XorByte(fopts[k], ks[k])
    {
      if i >= |ks| { return None; }
      output := output + [XorByte(fopts[i], ks[i])];
    }
    assert output == FoptsXor(aes, key, devAddr, fcnt, uplink, fopts);
    return Some(output);
  }

  lemma FrameXorTwice(aes: BlockCipher, key: Bytes, devAddr: U32, fcnt: U32, uplink: bool, frame: Bytes)
    requires aes.Lawful() && |frame| <= MAX_FRAME
    ensures FrameXor(aes, key, devAddr, fcnt, uplink, FrameXor(aes, key, devAddr, fcnt, uplink, frame)) == frame
  {
    var once := FrameXor(aes, key, devAddr, fcnt, uplink, frame);
    forall i | 0 <= i < |frame| ensures FrameXor(aes, key, devAddr, fcnt, uplink, once)[i] == frame[i] {
      XorByteTwice(frame[i], KeystreamByte(aes, key, devAddr, fcnt, uplink, i));
    }
  }

  lemma FrameXorPrefix(aes: BlockCipher, key: Bytes, devAddr: U32, fcnt: U32, uplink: bool, frame: Bytes, n: nat)
    requires aes.Lawful() && n <= |frame| <= MAX_FRAME
    ensures FrameXor(aes, key, devAddr, fcnt, uplink, frame[..n]) == FrameXor(aes, key, devAddr, fcnt, uplink, frame)[..n]
  {
  }

  lemma FoptsXorTwice(aes: BlockCipher, key: Bytes, devAddr: U32, fcnt: U32, uplink: bool, fopts: Bytes)
    requires aes.Lawful() && |fopts| <= 16
    ensures FoptsXor(aes, key, devAddr, fcnt, uplink, FoptsXor(aes, key, devAddr, fcnt, uplink, fopts)) == fopts
  {
    XorTwice(fopts, aes.encrypt(key, ABlock(devAddr, fcnt, uplink, 0)));
  }

  /** No block, and so no keystream block, is used twice: not within a frame, not for
      its options, not for another device, counter or direction. */
  lemma ABlockInjective(d: U32, f: U32, up: bool, i: Byte, d': U32, f': U32, up': bool, i': Byte)
    requires ABlock(d, f, up, i) == ABlock(d', f', up', i')
    ensures d == d' && f == f' && up == up' && i == i'
  {
    var b, b' := ABlock(d, f, up, i), ABlock(d', f', up', i');
    assert b[5] == (if up then 0 else 1) && b'[5] == (if up' then 0 else 1);
    assert b[6..10] == LittleEndian(d, 4) && b'[6..10] == LittleEndian(d', 4);
    assert b[10..14] == LittleEndian(f, 4) && b'[10..14] == LittleEndian(f', 4);
    assert b[15] == i && b'[15] == i';
    assert Pow256(4) == 0x1_0000_0000;
    LittleEndianInjective(d, d', 4);
    LittleEndianInjective(f, f', 4);
  }

  /** Equal keystream blocks of one key come from the same frame position. */
  lemma KeystreamBlocksDiffer(aes: BlockCipher, key: Bytes, d: U32, f: U32, up: bool, i: Byte, d': U32, f': U32, up': bool, i': Byte)
    requires aes.Lawful()
    requires aes.encrypt(key, ABlock(d, f, up, i)) == aes.encrypt(key, ABlock(d', f', up', i'))
    ensures d == d' && f == f' && up == up' && i == i'
  {
    assert aes.decrypt(key, aes.encrypt(key, ABlock(d, f, up, i))) == ABlock(d, f, up, i);
    assert aes.decrypt(key, aes.encrypt(key, ABlock(d', f', up', i'))) == ABlock(d', f', up', i');
    ABlockInjective(d, f, up, i, d', f', up', i');
  }

  // ----- Packets -----

  /** The MAC payload of a data frame; `fctrl` holds the flags and the options length. */
  datatype Mac = Mac(devAddr: U32, fctrl: Byte, fcnt: U16, fopts: Bytes, fport: Byte, payload: Bytes) {
    function Raw(): Bytes {
      LittleEndian(devAddr, 4) + [fctrl] + LittleEndian(fcnt, 2) + fopts + [fport] + payload
    }
  }

  datatype Body = JoinAccept(raw: Bytes) | Uplink(mac: Mac) | Downlink(mac: Mac) | OtherBody(raw: Bytes)

  /** Header byte, body, and the 4 bytes of the MIC. */
  datatype Phy = Phy(mhdr: Byte, body: Body, mic: Bytes) {
    function MType(): nat { mhdr / 32 }

    /** The layers are bound to the message type. */
    predicate Valid() {
      && |mic| == 4
      && (MType() == 1 <==> body.JoinAccept?)
      && (MType() == 2 || MType() == 4 <==> body.Uplink?)
      && (MType() == 3 || MType() == 5 <==> body.Downlink?)
    }

    /** The packet without its MIC. */
    function Head(): Bytes {
      [mhdr] + match body
               case JoinAccept(raw) => raw
               case OtherBody(raw) => raw
               case Uplink(mac) => mac.Raw()
               case Downlink(mac) => mac.Raw()
    }
  }

  datatype Error = MissingNwkSKey | MissingAppSKey | MissingAppKey | BadMic | NotAligned | TooLong | NoUplinkLayer

  datatype Result = Ok(phy: Phy) | Err(error: Error)

  datatype Keys = Keys(appKey: Option<Bytes>, appSKey: Option<Bytes>, nwkSKey: Option<Bytes>)

  function MicOf(p: Primitives, key: Bytes, data: Bytes): (r: Bytes)
    requires p.Lawful()
    ensures |r| == 4
  {
    p.cmac(key, data)[..4]
  }

  /** Block B_0: section 4.4 of LoRaWAN 1.0. The length is one byte. */
  function B0(devAddr: U32, fcnt: U32, uplink: bool, length: Byte): Bytes {
    [0x49] + LittleEndian(0, 4) + [if uplink then 0 else 1] + LittleEndian(devAddr, 4) + LittleEndian(fcnt, 4) + [0] + [length]
  }

  function DataMic(p: Primitives, key: Bytes, mac: Mac, uplink: bool, head: Bytes): (r: Option<Bytes>)
    requires p.Lawful()
    ensures r.Some? <==> |head| < 256
    ensures r.Some? ==> |r.value| == 4
  {
    if |head| >= 256 then None
    else Some(MicOf(p, key, B0(mac.devAddr, mac.fcnt, uplink, |head|) + head))
  }

  /** The options, then the payload: with the network key on port 0. */
  function MacXor(p: Primitives, appSKey: Bytes, nwkSKey: Bytes, mac: Mac, uplink: bool): (r: Option<Mac>)
    requires p.Lawful()
    ensures r.Some? <==> |mac.fopts| <= 16 && |mac.payload| <= MAX_FRAME
    ensures r.Some? ==> |r.value.fopts| == |mac.fopts| && |r.value.payload| == |mac.payload|
  {
    if |mac.fopts| > 16 || |mac.payload| > MAX_FRAME then None
    else
      var key := if mac.fport == 0 then nwkSKey else appSKey;
      Some(mac.(fopts := FoptsXor(p.aes, appSKey, mac.devAddr, mac.fcnt, uplink, mac.fopts),
                payload := FrameXor(p.aes, key, mac.devAddr, mac.fcnt, uplink, mac.payload)))
  }

  function EncryptData(p: Primitives, phy: Phy, appSKey: Bytes, nwkSKey: Bytes): Result
    requires p.Lawful() && (phy.body.Uplink? || phy.body.Downlink?)
  {
    match MacXor(p, appSKey, nwkSKey, phy.body.mac, phy.body.Uplink?)
    case None => Err(TooLong)
    case Some(mac) =>
      var phy' := phy.(body := if phy.body.Uplink? then Uplink(mac) else Downlink(mac));
      match DataMic(p, nwkSKey, mac, phy.body.Uplink?, phy'.Head())
      case None => Err(TooLong)
      case Some(mic) => Ok(phy'.(mic := mic))
  }

  /** On port 0 the decrypted payload is computed but not put back. */
  function DecryptUplink(p: Primitives, phy: Phy, appSKey: Bytes, nwkSKey: Bytes): Result
    requires p.Lawful() && phy.body.Uplink?
  {
    var mac := phy.body.mac;
    match DataMic(p, nwkSKey, mac, true, phy.Head())
    case None => Err(TooLong)
    case Some(expected) =>
      if expected != phy.mic then Err(BadMic)
      else
        match MacXor(p, appSKey, nwkSKey, mac, true)
        case None => Err(TooLong)
        case Some(mac') =>
          Ok(phy.(body := Uplink(if mac.fport == 0 then mac.(fopts := mac'.fopts) else mac')))
  }

  /** ECB mode: block by block, for whole blocks only. */
  function Ecb(f: (Bytes, Bytes) -> Bytes, key: Bytes, data: Bytes): Option<Bytes>
    decreases |data|
  {
    if data == [] then Some([])
    else if |data| < 16 then None
    else
      match Ecb(f, key, data[16..])
      case None => None
      case Some(rest) => Some(f(key, data[..16]) + rest)
  }

  lemma EcbOneMore(f: (Bytes, Bytes) -> Bytes, key: Bytes, head: Bytes, rest: Bytes)
    requires |head| == 16
    ensures Ecb(f, key, head + rest) ==
            match Ecb(f, key, rest) case None => None case Some(r) => Some(f(key, head) + r)
  {
    assert (head + rest)[..16] == head && (head + rest)[16..] == rest;
  }

  lemma {:induction false} EcbInverse(aes: BlockCipher, key: Bytes, data: Bytes)
    requires aes.Lawful()
    ensures match Ecb(aes.decrypt, key, data)
            case Some(enc) => |data| % 16 == 0 && |enc| == |data| && Ecb(aes.encrypt, key, enc) == Some(data)
            case None => |data| % 16 != 0
    decreases |data|
  {
    if |data| >= 16 {
      var head, tail := data[..16], data[16..];
      assert head + tail == data;
      EcbInverse(aes, key, tail);
      EcbOneMore(aes.decrypt, key, head, tail);
      match Ecb(aes.decrypt, key, tail)
      case Some(rest) => EcbOneMore(aes.encrypt, key, aes.decrypt(key, head), rest);
      case None =>
    }
  }

  /** Reading a packet from raw bytes: the last four are the MIC. */
  function JoinAcceptFrom(mhdr: Byte, rest: Bytes): Phy
    requires |rest| >= 4
  {
    Phy(mhdr, JoinAccept(rest[..|rest| - 4]), rest[|rest| - 4..])
  }

  /** Encryption uses the inverse cipher and always writes the header byte 0x20. */
  function EncryptJoinAccept(p: Primitives, phy: Phy, appKey: Bytes): Result
    requires p.Lawful() && phy.body.JoinAccept?
  {
    match Ecb(p.aes.decrypt, appKey, phy.body.raw + MicOf(p, appKey, phy.Head()))
    case None => Err(NotAligned)
    case Some(enc) => if |enc| < 4 then Err(NotAligned) else Ok(JoinAcceptFrom(0x20, enc))
  }

  function DecryptJoinAccept(p: Primitives, phy: Phy, appKey: Bytes): Result
    requires p.Lawful() && phy.body.JoinAccept?
  {
    match Ecb(p.aes.encrypt, appKey, phy.body.raw + phy.mic)
    case None => Err(NotAligned)
    case Some(dec) =>
      if |dec| < 4 then Err(BadMic)
      else
        var clear := JoinAcceptFrom(phy.mhdr, dec);
        if MicOf(p, appKey, clear.Head()) == clear.mic then Ok(clear) else Err(BadMic)
  }

  function EncryptPacketSpec(p: Primitives, phy: Phy, keys: Keys): Result
    requires p.Lawful()
  {
    if phy.body.JoinAccept? then
      if keys.appKey.None? then Err(MissingAppKey) else EncryptJoinAccept(p, phy, keys.appKey.value)
    else if phy.body.OtherBody? then Ok(phy)
    else if keys.nwkSKey.None? then Err(MissingNwkSKey)
    else if keys.appSKey.None? then Err(MissingAppSKey)
    else EncryptData(p, phy, keys.appSKey.value, keys.nwkSKey.value)
  }

  /** For a downlink packet the code asks for the uplink layer, which is not there. */
  function DecryptPacketSpec(p: Primitives, phy: Phy, keys: Keys): Result
    requires p.Lawful()
  {
    if phy.body.JoinAccept? then
      if keys.appKey.None? then Err(MissingAppKey) else DecryptJoinAccept(p, phy, keys.appKey.value)
    else if phy.body.OtherBody? then Ok(phy)
    else if keys.nwkSKey.None? then Err(MissingNwkSKey)
    else if keys.appSKey.None? then Err(MissingAppSKey)
    else if phy.body.Downlink? then Err(NoUplinkLayer)
    else DecryptUplink(p, phy, keys.appSKey.value, keys.nwkSKey.value)
  }

  // ----- Round trips -----

  lemma XorByteKeeps(x: Byte, k: Byte)
    ensures XorByte(x, k) == x <==> k == 0
  {
    Pow2Of8();
    XorBitsKeeps(x, k, BYTE_BITS);
  }

  lemma {:induction false} XorBitsKeeps(x: nat, k: nat, bits: nat)
    requires x < Pow2(bits) && k < Pow2(bits)
    ensures XorBits(x, k, bits) == x <==> k == 0
  {
    if bits > 0 {
      XorBitsKeeps(x / 2, k / 2, bits - 1);
    }
  }

  /** The network key's keystream does nothing to this payload. */
  ghost predicate KeystreamIsZero(p: Primitives, key: Bytes, mac: Mac)
    requires p.Lawful() && |mac.payload| <= MAX_FRAME
  {
    forall i :: 0 <= i < |mac.payload| ==> KeystreamByte(p.aes, key, mac.devAddr, mac.fcnt, true, i) == 0
  }

  lemma FrameXorKeeps(p: Primitives, key: Bytes, mac: Mac)
    requires p.Lawful() && |mac.payload| <= MAX_FRAME
    ensures FrameXor(p.aes, key, mac.devAddr, mac.fcnt, true, mac.payload) == mac.payload <==> KeystreamIsZero(p, key, mac)
  {
    var out := FrameXor(p.aes, key, mac.devAddr, mac.fcnt, true, mac.payload);
    forall i | 0 <= i < |mac.payload|
      ensures out[i] == mac.payload[i] <==> KeystreamByte(p.aes, key, mac.devAddr, mac.fcnt, true, i) == 0
    {
      XorByteKeeps(mac.payload[i], KeystreamByte(p.aes, key, mac.devAddr, mac.fcnt, true, i));
    }
    assert out == mac.payload <==> forall i :: 0 <= i < |mac.payload| ==> out[i] == mac.payload[i];
  }

  lemma MacXorTwice(p: Primitives, appSKey: Bytes, nwkSKey: Bytes, mac: Mac, uplink: bool)
    requires p.Lawful() && |mac.fopts| <= 16 && |mac.payload| <= MAX_FRAME
    ensures MacXor(p, appSKey, nwkSKey, MacXor(p, appSKey, nwkSKey, mac, uplink).value, uplink) == Some(mac)
  {
    FoptsXorTwice(p.aes, appSKey, mac.devAddr, mac.fcnt, uplink, mac.fopts);
    FrameXorTwice(p.aes, if mac.fport == 0 then nwkSKey else appSKey, mac.devAddr, mac.fcnt, uplink, mac.payload);
  }

  /** An encrypted uplink packet passes the MIC check, and decrypting it gives back the
      packet, up to its MIC field, exactly when the port is not 0 or the keystream of
      the network key happens to be zero over the payload. */
  lemma UplinkRoundTrip(p: Primitives, phy: Phy, keys: Keys)
    requires p.Lawful() && phy.body.Uplink? && keys.nwkSKey.Some? && keys.appSKey.Some?
    requires EncryptPacketSpec(p, phy, keys).Ok?
    ensures var sent := EncryptPacketSpec(p, phy, keys).phy;
            && DecryptPacketSpec(p, sent, keys).Ok?
            && (DecryptPacketSpec(p, sent, keys).phy == phy.(mic := sent.mic) <==>
                  phy.body.mac.fport != 0 || KeystreamIsZero(p, keys.nwkSKey.value, phy.body.mac))
  {
    var mac, a, n := phy.body.mac, keys.appSKey.value, keys.nwkSKey.value;
    var sent := EncryptPacketSpec(p, phy, keys).phy;
    MacXorTwice(p, a, n, mac, true);
    var mac' := sent.body.mac;
    assert MacXor(p, a, n, mac', true) == Some(mac);
    assert sent.Head() == phy.(body := Uplink(mac')).Head();
    if mac.fport == 0 {
      FrameXorKeeps(p, n, mac);
      assert DecryptPacketSpec(p, sent, keys).phy.body.mac.payload == FrameXor(p.aes, n, mac.devAddr, mac.fcnt, true, mac.payload);
    }
  }

  /** A join-accept comes back, with its MIC filled in, exactly when its header byte is
      0x20, for every body that fills whole blocks together with the MIC. */
  lemma JoinAcceptRoundTrip(p: Primitives, phy: Phy, keys: Keys)
    requires p.Lawful() && phy.body.JoinAccept? && keys.appKey.Some?
    ensures EncryptPacketSpec(p, phy, keys).Ok? <==> (|phy.body.raw| + 4) % 16 == 0
    ensures (|phy.body.raw| + 4) % 16 == 0 ==>
              var sent := EncryptPacketSpec(p, phy, keys).phy;
              (phy.mhdr == 0x20 <==>
                 DecryptPacketSpec(p, sent, keys) == Ok(phy.(mic := MicOf(p, keys.appKey.value, phy.Head()))))
  {
    var key := keys.appKey.value;
    var data := phy.body.raw + MicOf(p, key, phy.Head());
    EcbInverse(p.aes, key, data);
    if |data| % 16 == 0 {
      var enc := Ecb(p.aes.decrypt, key, data).value;
      var sent := JoinAcceptFrom(0x20, enc);
      assert sent.body.raw + sent.mic == enc;
      var clear := JoinAcceptFrom(0x20, data);
      assert clear.body.raw == phy.body.raw && clear.mic == MicOf(p, key, phy.Head());
    }
  }

  /** No downlink packet is ever decrypted, although encryption leaves all that is needed:
      what it makes carries the MIC that a receiver would compute, and the keystreams take
      its options and payload back to the original ones. */
  lemma DownlinkNeverDecrypts(p: Primitives, phy: Phy, keys: Keys)
    requires p.Lawful() && phy.body.Downlink?
    ensures DecryptPacketSpec(p, phy, keys).Err?
    ensures keys.nwkSKey.Some? && keys.appSKey.Some? && EncryptPacketSpec(p, phy, keys).Ok? ==>
              var sent, n := EncryptPacketSpec(p, phy, keys).phy, keys.nwkSKey.value;
              && sent.body.Downlink?
              && DataMic(p, n, sent.body.mac, false, sent.Head()) == Some(sent.mic)
              && MacXor(p, keys.appSKey.value, n, sent.body.mac, false) == Some(phy.body.mac)
              && DecryptPacketSpec(p, sent, keys) == Err(NoUplinkLayer)
  {
    if keys.nwkSKey.Some? && keys.appSKey.Some? && EncryptPacketSpec(p, phy, keys).Ok? {
      var sent := EncryptPacketSpec(p, phy, keys).phy;
      MacXorTwice(p, keys.appSKey.value, keys.nwkSKey.value, phy.body.mac, false);
      assert sent.Head() == phy.(body := Downlink(sent.body.mac)).Head();
    }
  }

  // ----- What goes out, byte by byte -----

  /** Section 4.3.3 of LoRaWAN 1.0, written out for one device, counter and index. */
  lemma ABlockLayout()
    ensures ABlock(0x0102_0304, 5, true, 6) == [1, 0, 0, 0, 0, 0, 4, 3, 2, 1, 5, 0, 0, 0, 0, 6]
    ensures ABlock(0x0102_0304, 5, false, 0) == [1, 0, 0, 0, 0, 1, 4, 3, 2, 1, 5, 0, 0, 0, 0, 0]
  {
    Conventions();
    SmallNumber(0, 4);
    SmallNumber(5, 4);
  }

  /** The same for block B_0 of section 4.4, and below for the bytes of a packet. */
  lemma B0Layout()
    ensures B0(0x0102_0304, 5, true, 6) == [0x49, 0, 0, 0, 0, 0, 4, 3, 2, 1, 5, 0, 0, 0, 0, 6]
    ensures B0(0x0102_0304, 5, false, 6) == [0x49, 0, 0, 0, 0, 1, 4, 3, 2, 1, 5, 0, 0, 0, 0, 6]
  {
    Conventions();
    SmallNumber(0, 4);
    SmallNumber(5, 4);
  }

  lemma HeadLayout(mic: Bytes)
    ensures var mac := Mac(0x0102_0304, 0x81, 5, [0xF0], 7, [0xA0, 0xA1]);
            Phy(0x40, Uplink(mac), mic).Head() == [0x40, 4, 3, 2, 1, 0x81, 5, 0, 0xF0, 7, 0xA0, 0xA1]
  {
    Conventions();
    SmallNumber(5, 2);
  }

  /** Byte `i` under block `i / 16 + 1` of the key. */
  ghost predicate UnderKey(p: Primitives, key: Bytes, mac: Mac, uplink: bool, clear: Bytes, enc: Bytes)
    requires p.Lawful()
  {
    && |enc| == |clear| <= MAX_FRAME
    && forall i :: 0 <= i < |clear| ==>
         enc[i] == XorByte(clear[i], p.aes.encrypt(key, ABlock(mac.devAddr, mac.fcnt, uplink, i / 16 + 1))[i % 16])
  }

  /** The options under block 0 of the application key. */
  ghost predicate UnderBlock0(p: Primitives, key: Bytes, mac: Mac, uplink: bool, clear: Bytes, enc: Bytes)
    requires p.Lawful()
  {
    && |enc| == |clear| <= 16
    && forall i :: 0 <= i < |clear| ==>
         enc[i] == XorByte(clear[i], p.aes.encrypt(key, ABlock(mac.devAddr, mac.fcnt, uplink, 0))[i])
  }

  /** The MIC of section 4.4: under the network key, over B_0 and the packet. */
  function ExpectedMic(p: Primitives, nwkSKey: Bytes, mac: Mac, uplink: bool, head: Bytes): Bytes
    requires p.Lawful() && |head| < 256
  {
    p.cmac(nwkSKey, [0x49, 0, 0, 0, 0, if uplink then 0 else 1] + LittleEndian(mac.devAddr, 4)
                    + LittleEndian(mac.fcnt, 4) + [0, |head|] + head)[..4]
  }

  lemma ExpectedMicIs(p: Primitives, nwkSKey: Bytes, mac: Mac, uplink: bool, head: Bytes)
    requires p.Lawful()
    ensures |head| < 256 ==> DataMic(p, nwkSKey, mac, uplink, head) == Some(ExpectedMic(p, nwkSKey, mac, uplink, head))
  {
    SmallNumber(0, 4);
    if |head| < 256 {
      assert B0(mac.devAddr, mac.fcnt, uplink, |head|)
          == [0x49, 0, 0, 0, 0, if uplink then 0 else 1] + LittleEndian(mac.devAddr, 4) + LittleEndian(mac.fcnt, 4) + [0, |head|];
    }
  }

  function MacOf(body: Body): Mac
    requires body.Uplink? || body.Downlink?
  {
    match body case Uplink(mac) => mac case Downlink(mac) => mac
  }

  lemma MacXorBytes(p: Primitives, appSKey: Bytes, nwkSKey: Bytes, mac: Mac, uplink: bool)
    requires p.Lawful() && |mac.fopts| <= 16 && |mac.payload| <= MAX_FRAME
    ensures var enc := MacXor(p, appSKey, nwkSKey, mac, uplink).value;
            && enc == mac.(fopts := enc.fopts, payload := enc.payload)
            && UnderBlock0(p, appSKey, mac, uplink, mac.fopts, enc.fopts)
            && (mac.fport == 0 ==> UnderKey(p, nwkSKey, mac, uplink, mac.payload, enc.payload))
            && (mac.fport != 0 ==> UnderKey(p, appSKey, mac, uplink, mac.payload, enc.payload))
  {
  }

  /** An encrypted data packet: the payload goes under the network session key on port 0 and
      under the application session key on every other port, the options always under the
      latter, and the MIC is under the former, over the encrypted bytes. */
  lemma EncryptedDataIs(p: Primitives, phy: Phy, keys: Keys)
    requires p.Lawful() && (phy.body.Uplink? || phy.body.Downlink?) && keys.nwkSKey.Some? && keys.appSKey.Some?
    requires EncryptPacketSpec(p, phy, keys).Ok?
    ensures var sent, up := EncryptPacketSpec(p, phy, keys).phy, phy.body.Uplink?;
            && sent.mhdr == phy.mhdr && sent.body.Uplink? == up && sent.body.Downlink? == !up
            && var mac, enc := MacOf(phy.body), MacOf(sent.body);
               && enc == mac.(fopts := enc.fopts, payload := enc.payload)
               && UnderBlock0(p, keys.appSKey.value, mac, up, mac.fopts, enc.fopts)
               && (mac.fport == 0 ==> UnderKey(p, keys.nwkSKey.value, mac, up, mac.payload, enc.payload))
               && (mac.fport != 0 ==> UnderKey(p, keys.appSKey.value, mac, up, mac.payload, enc.payload))
               && |sent.Head()| < 256 && sent.mic == ExpectedMic(p, keys.nwkSKey.value, mac, up, sent.Head())
  {
    var mac, up := MacOf(phy.body), phy.body.Uplink?;
    MacXorBytes(p, keys.appSKey.value, keys.nwkSKey.value, mac, up);
    var enc := MacXor(p, keys.appSKey.value, keys.nwkSKey.value, mac, up).value;
    var head := phy.(body := if up then Uplink(enc) else Downlink(enc)).Head();
    ExpectedMicIs(p, keys.nwkSKey.value, enc, up, head);
    assert EncryptPacketSpec(p, phy, keys).phy.Head() == head;
  }

  /** A decrypted uplink packet carries the MIC of what came in, and its bytes are those that
      came in under the same keys; on port 0 the payload stays as it is. */
  lemma DecryptedUplinkIs(p: Primitives, phy: Phy, keys: Keys)
    requires p.Lawful() && phy.body.Uplink? && keys.nwkSKey.Some? && keys.appSKey.Some?
    ensures var r, mac := DecryptPacketSpec(p, phy, keys), phy.body.mac;
            && (r.Ok? <==> |phy.Head()| < 256 && phy.mic == ExpectedMic(p, keys.nwkSKey.value, mac, true, phy.Head())
                           && |mac.fopts| <= 16 && |mac.payload| <= MAX_FRAME)
            && (r.Ok? ==>
                  && r.phy.mhdr == phy.mhdr && r.phy.mic == phy.mic && r.phy.body.Uplink?
                  && var dec := r.phy.body.mac;
                     && dec == mac.(fopts := dec.fopts, payload := dec.payload)
                     && UnderBlock0(p, keys.appSKey.value, mac, true, mac.fopts, dec.fopts)
                     && (mac.fport == 0 ==> dec.payload == mac.payload)
                     && (mac.fport != 0 ==> UnderKey(p, keys.appSKey.value, mac, true, mac.payload, dec.payload)))
  {
    var mac := phy.body.mac;
    ExpectedMicIs(p, keys.nwkSKey.value, mac, true, phy.Head());
    if |mac.fopts| <= 16 && |mac.payload| <= MAX_FRAME {
      MacXorBytes(p, keys.appSKey.value, keys.nwkSKey.value, mac, true);
    }
  }

  /** A join-accept goes out through the inverse cipher, so that a device needs only the
      forward one to read it: body and MIC, both under the application key. */
  lemma EncryptedJoinAcceptIs(p: Primitives, phy: Phy, keys: Keys)
    requires p.Lawful() && phy.body.JoinAccept? && keys.appKey.Some? && EncryptPacketSpec(p, phy, keys).Ok?
    ensures var sent, key := EncryptPacketSpec(p, phy, keys).phy, keys.appKey.value;
            && sent.mhdr == 0x20 && sent.body.JoinAccept?
            && Ecb(p.aes.encrypt, key, sent.body.raw + sent.mic)
               == Some(phy.body.raw + p.cmac(key, [phy.mhdr] + phy.body.raw)[..4])
  {
    var key := keys.appKey.value;
    var data := phy.body.raw + MicOf(p, key, phy.Head());
    EcbInverse(p.aes, key, data);
    var enc := Ecb(p.aes.decrypt, key, data).value;
    assert enc[..|enc| - 4] + enc[|enc| - 4..] == enc;
  }

  lemma {:induction false} EcbSize(aes: BlockCipher, key: Bytes, data: Bytes)
    requires aes.Lawful()
    ensures match Ecb(aes.encrypt, key, data)
            case Some(enc) => |data| % 16 == 0 && |enc| == |data|
            case None => |data| % 16 != 0
    decreases |data|
  {
    if |data| >= 16 {
      EcbSize(aes, key, data[16..]);
    }
  }

  /** A received join-accept: `clear` is what the forward cipher makes of body and MIC. It is
      accepted exactly if its last four bytes are the MIC of the header and the others, and
      comes out as these. */
  lemma DecryptedJoinAcceptIs(p: Primitives, phy: Phy, keys: Keys)
    requires p.Lawful() && phy.body.JoinAccept? && keys.appKey.Some? && |phy.mic| == 4
    ensures var r, key := DecryptPacketSpec(p, phy, keys), keys.appKey.value;
            match Ecb(p.aes.encrypt, key, phy.body.raw + phy.mic)
            case None => r == Err(NotAligned) && (|phy.body.raw| + 4) % 16 != 0
            case Some(clear) =>
              && |clear| == |phy.body.raw| + 4 && |clear| % 16 == 0
              && var raw, mic := clear[..|clear| - 4], clear[|clear| - 4..];
                 r == if p.cmac(key, [phy.mhdr] + raw)[..4] == mic then Ok(Phy(phy.mhdr, JoinAccept(raw), mic)) else Err(BadMic)
  {
    EcbSize(p.aes, keys.appKey.value, phy.body.raw + phy.mic);
  }

  /** One block at a time, in order. */
  lemma EcbTwoBlocks(f: (Bytes, Bytes) -> Bytes, key: Bytes, a: Bytes, b: Bytes)
    requires |a| == |b| == 16
    ensures Ecb(f, key, a + b) == Some(f(key, a) + f(key, b))
  {
    EcbOneMore(f, key, a, b);
    assert b[..16] == b && b[16..] == [];
    assert f(key, b) + [] == f(key, b);
  }

  /** Which missing key is complained about. */
  lemma MissingKeys(p: Primitives, phy: Phy, keys: Keys)
    requires p.Lawful()
    ensures var enc, dec := EncryptPacketSpec(p, phy, keys), DecryptPacketSpec(p, phy, keys);
            && (phy.body.OtherBody? ==> enc == dec == Ok(phy))
            && (phy.body.JoinAccept? ==> (keys.appKey.None? <==> enc == Err(MissingAppKey)) && (keys.appKey.None? <==> dec == Err(MissingAppKey)))
            && (phy.body.Uplink? || phy.body.Downlink? ==>
                  && (enc == Err(MissingNwkSKey) <==> keys.nwkSKey.None?)
                  && (dec == Err(MissingNwkSKey) <==> keys.nwkSKey.None?)
                  && (enc == Err(MissingAppSKey) <==> keys.nwkSKey.Some? && keys.appSKey.None?)
                  && (dec == Err(MissingAppSKey) <==> keys.nwkSKey.Some? && keys.appSKey.None?))
  {
  }

  // ----- The packet object -----

  class PhyPayload {
    var mhdr: Byte
    var body: Body
    var mic: Bytes

    function Value(): Phy
      reads this
    {
      Phy(mhdr, body, mic)
    }

    constructor (phy: Phy)
      ensures Value() == phy
    {
      mhdr, body, mic := phy.mhdr, phy.body, phy.mic;
    }
  }

  /** The options and the payload of a data packet, replaced one after the other. */
  method XorMac(p: Primitives, packet: PhyPayload, appSKey: Bytes, nwkSKey: Bytes, keepPort0: bool) returns (ok: bool)
    requires p.Lawful() && (packet.body.Uplink? || packet.body.Downlink?)
    modifies packet`body
    ensures var up := old(packet.body).Uplink?;
            match MacXor(p, appSKey, nwkSKey, old(packet.body).mac, up)
            case None => !ok
            case Some(mac) =>
              var mac' := if keepPort0 && mac.fport == 0 then mac.(payload := old(packet.body).mac.payload) else mac;
              ok && packet.body == if up then Uplink(mac') else Downlink(mac')
  {
    var up, mac := packet.body.Uplink?, packet.body.mac;
    var fopts := EncryptFopts(p.aes, appSKey, mac.devAddr, mac.fcnt, mac.fopts, up);
    if fopts.None? { return false; }
    mac := mac.(fopts := fopts.value);
    packet.body := if up then Uplink(mac) else Downlink(mac);
    var payload: Option<Bytes>;
    if mac.fport == 0 {
      payload := EncryptFrame(p.aes, nwkSKey, mac.devAddr, mac.fcnt, mac.payload, up);
    } else {
      payload := EncryptFrame(p.aes, appSKey, mac.devAddr, mac.fcnt, mac.payload, up);
    }
    if payload.None? { return false; }
    if !(keepPort0 && mac.fport == 0) {
      mac := mac.(payload := payload.value);
      packet.body := if up then Uplink(mac) else Downlink(mac);
    }
    return true;
  }

  datatype Outcome = Done(packet: PhyPayload) | Raised(error: Error)

  /** What a call gives back or raises, as the functions above say it. */
  ghost predicate Says(o: Outcome, r: Result)
    reads match o case Done(packet) => {packet} case Raised(_) => {}
  {
    match r
    case Ok(phy) => o.Done? && o.packet.Value() == phy
    case Err(e) => o == Raised(e)
  }

  /** `encrypt_packet`: data packets are overwritten in place, a join-accept is built anew. */
  method EncryptPacket(p: Primitives, packet: PhyPayload, keys: Keys) returns (o: Outcome)
    requires p.Lawful() && packet.Value().Valid()
    modifies packet
    ensures Says(o, EncryptPacketSpec(p, old(packet.Value()), keys))
    ensures o.Done? && !old(packet.body).JoinAccept? ==> o.packet == packet
    ensures old(packet.body).JoinAccept? ==> packet.Value() == old(packet.Value())
  {
    match packet.Value().MType()
    case 1 =>
      if keys.appKey.None? { return Raised(MissingAppKey); }
      var enc := EncryptJoinAccept(p, packet.Value(), keys.appKey.value);
      if enc.Err? { return Raised(enc.error); }
      var fresh' := new PhyPayload(enc.phy);
      return Done(fresh');
    case _ =>
      if packet.body.OtherBody? { return Done(packet); }
      if keys.nwkSKey.None? { return Raised(MissingNwkSKey); }
      if keys.appSKey.None? { return Raised(MissingAppSKey); }
      var ok := XorMac(p, packet, keys.appSKey.value, keys.nwkSKey.value, false);
      if !ok { return Raised(TooLong); }
      var mic := DataMic(p, keys.nwkSKey.value, packet.body.mac, packet.body.Uplink?, packet.Value().Head());
      if mic.None? { return Raised(TooLong); }
      packet.mic := mic.value;
      return Done(packet);
  }

  /** `decrypt_packet`: when it raises because of the MIC, no field has changed. */
  method DecryptPacket(p: Primitives, packet: PhyPayload, keys: Keys) returns (o: Outcome)
    requires p.Lawful() && packet.Value().Valid()
    modifies packet
    ensures Says(o, DecryptPacketSpec(p, old(packet.Value()), keys))
    ensures o == Raised(BadMic) || old(packet.body).JoinAccept? ==> packet.Value() == old(packet.Value())
    ensures o.Done? && !old(packet.body).JoinAccept? ==> o.packet == packet
  {
    match packet.Value().MType()
    case 1 =>
      if keys.appKey.None? { return Raised(MissingAppKey); }
      var dec := DecryptJoinAccept(p, packet.Value(), keys.appKey.value);
      if dec.Err? { return Raised(dec.error); }
      var fresh' := new PhyPayload(dec.phy);
      return Done(fresh');
    case _ =>
      if packet.body.OtherBody? { return Done(packet); }
      if keys.nwkSKey.None? { return Raised(MissingNwkSKey); }
      if keys.appSKey.None? { return Raised(MissingAppSKey); }
      if packet.body.Downlink? { return Raised(NoUplinkLayer); }
      var expected := DataMic(p, keys.nwkSKey.value, packet.body.mac, true, packet.Value().Head());
      if expected.None? { return Raised(TooLong); }
      if expected.value != packet.mic { return Raised(BadMic); }
      var ok := XorMac(p, packet, keys.appSKey.value, keys.nwkSKey.value, true);
      if !ok { return Raised(TooLong); }
      return Done(packet);
  }
}
