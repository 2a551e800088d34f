/** The Matyas-Meyer-Oseas hash and the keyed hash of Zigbee (whad/zigbee/crypto.py;
    ZigBee specification, Annex B.6). */
module ZigbeeHash {
  import opened ByteStrings
  import opened Ciphers

  /** How many zero bytes the padding loop appends after 80. */
  function ZerosNeeded(n: nat): (z: nat)
    ensures z < 16 && (n + 1 + z) % 16 == 0
  {
    WholeBlocks(n / 16 + 1);
    assert n + 1 + (15 - n % 16) == 16 * (n / 16 + 1);
    15 - n % 16
  }

  lemma WholeBlocks(n: nat)
    ensures 16 * n % 16 == 0
  {
  }

  /** Appending zeros one by one fills the block at that length and not before. */
  lemma ZerosFill(n: nat, size: nat)
    requires n < size <= n + 1 + ZerosNeeded(n)
    ensures size % 16 == 0 <==> size == n + 1 + ZerosNeeded(n)
  {
    if size < n + 1 + ZerosNeeded(n) {
      assert size == 16 * (n / 16) + (n % 16 + (size - n)) && n % 16 + (size - n) < 16;
    }
  }

  /** The bit length of the input, on two bytes. */
  function LengthField(n: nat): (r: Bytes)
    ensures |r| == 2
  {
    [n * 8 / 256 % 256, n * 8 % 256]
  }

  /** 80, zeros up to a whole block; then the last two bytes are overwritten. */
  function Pad(input: Bytes): (r: Bytes)
    ensures |r| == |input| + 1 + ZerosNeeded(|input|)
  {
    var m := input + [0x80] + Zeros(ZerosNeeded(|input|));
    m[..|m| - 2] + LengthField(|input|)
  }

  function Compress(aes: BlockCipher, state: Bytes, block: Bytes): Bytes {
    Xor(aes.encrypt(state, block), block)
  }

  /** The hash, block by block. */
  function Mmo(aes: BlockCipher, state: Bytes, m: Bytes): Bytes
    requires |m| % 16 == 0
    decreases |m|
  {
    if m == [] then state else Mmo(aes, Compress(aes, state, m[..16]), m[16..])
  }

  function HashOf(aes: BlockCipher, input: Bytes): Bytes {
    Mmo(aes, Zeros(16), Pad(input))
  }

  lemma {:induction false} MmoSize(aes: BlockCipher, state: Bytes, m: Bytes)
    requires aes.Lawful() && |state| == 16 && |m| % 16 == 0
    ensures |Mmo(aes, state, m)| == 16
    decreases |m|
  {
    if m != [] {
      assert |m[..16]| == 16;
      MmoSize(aes, Compress(aes, state, m[..16]), m[16..]);
    }
  }

  method Padded(input: Bytes) returns (m: Bytes)
    ensures m == Pad(input)
  {
    m := input;
    m := m + [0x80];
    ZerosFill(|input|, |m|);
    while |m| % 16 != 0
      invariant |input| < |m| <= |input| + 1 + ZerosNeeded(|input|)
      invariant |m| % 16 == 0 <==> |m| == |input| + 1 + ZerosNeeded(|input|)
      invariant m == input + [0x80] + Zeros(|m| - |input| - 1)
      decreases |input| + 1 + ZerosNeeded(|input|) - |m|
    {
      m := m + [0];
      ZerosFill(|input|, |m|);
    }
    m := m[..|m| - 2] + [|input| * 8 / 256 % 256, |input| * 8 % 256];
  }

  /** The inner loop of `hash`. */
  method XorBlock(ciphertext: Bytes, block: Bytes) returns (output: Bytes)
    requires |ciphertext| >= |block|
    ensures output == Xor(ciphertext, block)
  {
    output := [];
    for j := 0 to |block|
      invariant |output| == j
      invariant forall k :: 0 <= k < j ==> output[k] == XorByte(ciphertext[k], block[k])
    {
      output := output + [XorByte(ciphertext[j], block[j])];
    }
  }

  lemma MmoStep(aes: BlockCipher, state: Bytes, m: Bytes, i: nat)
    requires aes.Lawful() && |state| == 16 && |m| % 16 == 0 && i % 16 == 0 && i + 16 <= |m|
    ensures var block := m[i..i + 16];
            && |aes.encrypt(state, block)| == 16
            && Mmo(aes, state, m[i..]) == Mmo(aes, Xor(aes.encrypt(state, block), block), m[i + 16..])
  {
    assert m[i..][..16] == m[i..i + 16] && m[i..][16..] == m[i + 16..];
  }

  /** The loop of `hash`. */
  method Chain(aes: BlockCipher, start: Bytes, m: Bytes, ghost blocks: nat) returns (output: Bytes)
    requires aes.Lawful() && |start| == 16 && |m| == 16 * blocks
    ensures |m| % 16 == 0 && output == Mmo(aes, start, m)
  {
    output := start;
    WholeBlocks(blocks);
    assert m[0..] == m;
    ghost var n := 0;
    var i := 0;
    while i < |m|
      invariant n <= blocks && i == 16 * n && |output| == 16
      invariant Mmo(aes, output, m[i..]) == Mmo(aes, start, m)
    {
      WholeBlocks(n);
      MmoStep(aes, output, m, i);
      var block := m[i..i + 16];
      var ciphertext := aes.encrypt(output, block);
      output := XorBlock(ciphertext, block);
      n := n + 1;
      i := i + 16;
    }
  }

  /** `hash`. */
  method Hash(aes: BlockCipher, input: Bytes) returns (output: Bytes)
    requires aes.Lawful()
    ensures output == HashOf(aes, input) && |output| == 16
  {
    output := Zeros(16);
    var m := Padded(input);
    MmoSize(aes, output, m);
    output := Chain(aes, output, m, |m| / 16);
  }

  const IPAD: Byte := 0x36
  const OPAD: Byte := 0x5C

  function XorAll(key: Bytes, mask: Byte): (r: Bytes)
    ensures |r| == |key|
  {
    seq(|key|, i requires 0 <= i < |key| => XorByte(mask, key[i]))
  }

  function KeyedHashOf(aes: BlockCipher, key: Bytes, input: Byte): Bytes {
    HashOf(aes, XorAll(key, OPAD) + HashOf(aes, XorAll(key, IPAD) + [input]))
  }

  /** `hash_key`. */
  method HashKey(aes: BlockCipher, key: Bytes, input: Byte) returns (r: Bytes)
    requires aes.Lawful()
    ensures r == KeyedHashOf(aes, key, input) && |r| == 16
  {
    var hashIn: Bytes, hashOut: Bytes := [], [];
    for i := 0 to |key|
      invariant |hashIn| == i && |hashOut| == i
      invariant forall k :: 0 <= k < i ==> hashIn[k] == XorByte(OPAD, key[k]) && hashOut[k] == XorByte(IPAD, key[k])
    {
      hashIn := hashIn + [XorByte(OPAD, key[i])];
      hashOut := hashOut + [XorByte(IPAD, key[i])];
    }
    assert hashIn == XorAll(key, OPAD) && hashOut == XorAll(key, IPAD);
    hashOut := hashOut + [input];
    var inner := Hash(aes, hashOut);
    hashIn := hashIn + inner;
    r := Hash(aes, hashIn);
  }

  // ----- The padding -----

  /** Up to 13 bytes in the last block, the padding is the input, 80, the fewest zeros
      that leave room for the length, and the length. */
  lemma PadShape(input: Bytes)
    requires |input| % 16 <= 13
    ensures var z := ZerosNeeded(|input|);
            z >= 2 && Pad(input) == input + [0x80] + Zeros(z - 2) + LengthField(|input|)
  {
    var z := ZerosNeeded(|input|);
    var m := input + [0x80] + Zeros(z);
    assert m[..|m| - 2] == input + [0x80] + Zeros(z - 2);
  }

  lemma PadKeepsInput(input: Bytes)
    requires |input| % 16 != 15
    ensures Pad(input)[..|input|] == input
  {
    assert ZerosNeeded(|input|) >= 1;
  }

  /** The padded length and the length field together give the length of the input. */
  lemma PadGivesLength(a: Bytes, b: Bytes)
    requires Pad(a) == Pad(b)
    ensures |a| == |b|
  {
    assert LengthField(|a|) == Pad(a)[|Pad(a)| - 2..] == Pad(b)[|Pad(b)| - 2..] == LengthField(|b|);
    assert LengthField(|a|)[0] == LengthField(|b|)[0] && LengthField(|a|)[1] == LengthField(|b|)[1];
    LengthModulo(|a|, |b|);
  }

  lemma LengthModulo(m: nat, n: nat)
    requires m * 8 / 256 % 256 == n * 8 / 256 % 256 && m * 8 % 256 == n * 8 % 256
    requires m + ZerosNeeded(m) == n + ZerosNeeded(n)
    ensures m == n
  {
    assert m % 32 == n % 32;
    assert -16 < m - n < 16;
  }

  /** No other input has the same padding, exactly when the last block does not hold 15
      bytes: there the length overwrites the last byte of the input as well as 80. */
  lemma PadInjective(a: Bytes)
    ensures (forall b :: Pad(b) == Pad(a) ==> b == a) <==> |a| % 16 != 15
  {
    if |a| % 16 != 15 {
      forall b | Pad(b) == Pad(a) ensures b == a {
        PadGivesLength(a, b);
        PadKeepsInput(a);
        PadKeepsInput(b);
      }
    } else {
      var n := |a| - 1;
      var b := a[..n] + [(a[n] as int + 1) % 256];
      assert b != a by { assert b[n] != a[n]; }
      assert ZerosNeeded(|a|) == 0;
      var ma, mb := a + [0x80] + Zeros(0), b + [0x80] + Zeros(0);
      assert ma[..|ma| - 2] == a[..n] == mb[..|mb| - 2];
      assert Pad(b) == Pad(a);
    }
  }

  lemma HashSize(aes: BlockCipher, input: Bytes)
    requires aes.Lawful()
    ensures |HashOf(aes, input)| == 16
  {
    MmoSize(aes, Zeros(16), Pad(input));
  }

  /** With a 16-byte key, both calls of `hash` that `hash_key` makes get inputs of the good
      lengths: the second is the key and the 16 bytes of the first hash. */
  lemma KeyedHashPadsWell(aes: BlockCipher, key: Bytes, input: Byte)
    requires aes.Lawful() && |key| == 16
    ensures var m := XorAll(key, IPAD) + [input];
            && Pad(m) == m + [0x80] + Zeros(12) + LengthField(17)
            && var outer := XorAll(key, OPAD) + HashOf(aes, m);
               Pad(outer) == outer + [0x80] + Zeros(13) + LengthField(32)
  {
    var m := XorAll(key, IPAD) + [input];
    HashSize(aes, m);
    PadShape(m);
    PadShape(XorAll(key, OPAD) + HashOf(aes, m));
  }

  lemma MmoBlock(aes: BlockCipher, state: Bytes, block: Bytes, rest: Bytes)
    requires |block| == 16 && |rest| % 16 == 0
    ensures |block + rest| % 16 == 0 && Mmo(aes, state, block + rest) == Mmo(aes, Xor(aes.encrypt(state, block), block), rest)
  {
    assert (block + rest)[..16] == block && (block + rest)[16..] == rest;
  }

  /** The keyed hash of Annex B.1.4 on a 16-byte key, block by block: two blocks inside, the
      key and then the input byte; three blocks outside, the key, the hash of those, and the
      padding. Each block is encrypted under the state before it and xored with itself. */
  lemma KeyedHashIs(aes: BlockCipher, key: Bytes, input: Byte)
    requires aes.Lawful() && |key| == 16
    ensures var step := (state: Bytes, block: Bytes) => Xor(aes.encrypt(state, block), block);
            var k1, k2 := seq(16, i requires 0 <= i < 16 => XorByte(0x36, key[i])), seq(16, i requires 0 <= i < 16 => XorByte(0x5C, key[i]));
            var inner := step(step(Zeros(16), k1), [input, 0x80] + Zeros(12) + [0, 0x88]);
            KeyedHashOf(aes, key, input) == step(step(step(Zeros(16), k2), inner), [0x80] + Zeros(13) + [1, 0])
  {
    var k1, k2 := XorAll(key, IPAD), XorAll(key, OPAD);
    var b1 := [input, 0x80] + Zeros(12) + [0, 0x88];
    var m := k1 + [input];
    KeyedHashPadsWell(aes, key, input);
    assert Pad(m) == k1 + (b1 + []);
    MmoBlock(aes, Zeros(16), k1, b1 + []);
    MmoBlock(aes, Xor(aes.encrypt(Zeros(16), k1), k1), b1, []);
    var inner := HashOf(aes, m);
    HashSize(aes, m);
    var b2 := [0x80] + Zeros(13) + [1, 0];
    assert Pad(k2 + inner) == k2 + (inner + (b2 + []));
    var s1 := Xor(aes.encrypt(Zeros(16), k2), k2);
    MmoBlock(aes, Zeros(16), k2, inner + (b2 + []));
    MmoBlock(aes, s1, inner, b2 + []);
    MmoBlock(aes, Xor(aes.encrypt(s1, inner), inner), b2, []);
  }
}
