/** Bit strings and the cropping of match patterns (whad/helpers.py). */
module Pattern {
  import opened ByteStrings

  // ----- Bit strings -----

  ghost predicate IsBits(bits: string) {
    forall i :: 0 <= i < |bits| ==> bits[i] == '0' || bits[i] == '1'
  }

  /** `n` in binary, on `width` digits. */
  function Binary(n: nat, width: nat): (r: string)
    ensures |r| == width && IsBits(r)
  {
    if width == 0 then "" else Binary(n / 2, width - 1) + [if n % 2 == 1 then '1' else '0']
  }

  /** `int(bits, 2)`. */
  function BinaryValue(bits: string): nat {
    if bits == "" then 0
    else 2 * BinaryValue(bits[..|bits| - 1]) + if bits[|bits| - 1] == '1' then 1 else 0
  }

  lemma {:induction false} BinaryValueOf(n: nat, width: nat)
    requires n < Pow2(width)
    ensures BinaryValue(Binary(n, width)) == n
  {
    if width > 0 {
      BinaryValueOf(n / 2, width - 1);
      assert Binary(n, width)[..width - 1] == Binary(n / 2, width - 1);
    }
  }

  lemma {:induction false} BinaryOfValue(bits: string)
    requires IsBits(bits)
    ensures BinaryValue(bits) < Pow2(|bits|) && Binary(BinaryValue(bits), |bits|) == bits
  {
    if bits != "" {
      var front := bits[..|bits| - 1];
      BinaryOfValue(front);
      assert bits == front + [bits[|bits| - 1]];
    }
  }

  /** `bytes_to_bits`: eight digits a byte. */
  function BytesToBits(data: Bytes): (r: string)
    ensures |r| == 8 * |data| && IsBits(r)
  {
    if data == [] then "" else Binary(data[0], BYTE_BITS) + BytesToBits(data[1..])
  }

  function ZeroDigits(n: nat): (r: string)
    ensures |r| == n && IsBits(r)
  {
    seq(n, _ => '0')
  }

  /** The digits of a chunk, filled up with zeros on the right. */
  function Filled(chunk: string): (r: string)
    requires |chunk| <= 8 && IsBits(chunk)
    ensures |r| == 8 && IsBits(r)
  {
    chunk + ZeroDigits(8 - |chunk|)
  }

  function ChunkByte(chunk: string): Byte
    requires |chunk| <= 8 && IsBits(chunk)
  {
    BinaryOfValue(Filled(chunk));
    Pow2Of8();
    BinaryValue(Filled(chunk))
  }

  /** `bits_to_bytes`. */
  function BitsToBytes(bits: string): Bytes
    requires IsBits(bits)
    decreases |bits|
  {
    if |bits| == 0 then []
    else if |bits| <= 8 then [ChunkByte(bits)]
    else [ChunkByte(bits[..8])] + BitsToBytes(bits[8..])
  }

  lemma {:induction false} BytesBitsRoundTrip(data: Bytes)
    ensures BitsToBytes(BytesToBits(data)) == data
  {
    if data != [] {
      var bits := BytesToBits(data);
      var first := Binary(data[0], BYTE_BITS);
      assert bits[..8] == first && bits[8..] == BytesToBits(data[1..]);
      assert Filled(first) == first;
      Pow2Of8();
      BinaryValueOf(data[0], BYTE_BITS);
      assert |bits| == 8 ==> bits == first && data[1..] == [];
      BytesBitsRoundTrip(data[1..]);
    }
  }

  lemma BytesToBitsOneMore(b: Byte, rest: Bytes)
    ensures BytesToBits([b] + rest) == Binary(b, BYTE_BITS) + BytesToBits(rest)
  {
    assert ([b] + rest)[1..] == rest;
  }

  lemma ChunkByteRoundTrip(chunk: string)
    requires |chunk| <= 8 && IsBits(chunk)
    ensures Binary(ChunkByte(chunk), BYTE_BITS) == Filled(chunk)
  {
    BinaryOfValue(Filled(chunk));
  }

  /** How many digits are missing to whole bytes. */
  function Missing(n: nat): nat {
    (8 - n % 8) % 8
  }

  lemma MissingOf(n: nat)
    ensures Missing(n + 8) == Missing(n) && (1 <= n <= 8 ==> Missing(n) == 8 - n)
  {
  }

  /** The other way round, a bit string comes back filled up to whole bytes. */
  lemma {:induction false} BitsBytesRoundTrip(bits: string)
    requires IsBits(bits)
    ensures BytesToBits(BitsToBytes(bits)) == bits + ZeroDigits(Missing(|bits|))
    decreases |bits|
  {
    if |bits| == 0 {
    } else if |bits| <= 8 {
      MissingOf(|bits|);
      ChunkByteRoundTrip(bits);
      BytesToBitsOneMore(ChunkByte(bits), []);
      assert [ChunkByte(bits)] + [] == BitsToBytes(bits);
    } else {
      var chunk, rest := bits[..8], bits[8..];
      ChunkByteRoundTrip(chunk);
      BytesToBitsOneMore(ChunkByte(chunk), BitsToBytes(rest));
      BitsBytesRoundTrip(rest);
      assert Filled(chunk) == chunk && chunk + rest == bits;
      MissingOf(|rest|);
      assert chunk + rest + ZeroDigits(Missing(|rest|)) == chunk + (rest + ZeroDigits(Missing(|rest|)));
    }
  }

  lemma Small()
    ensures Binary(0, 4) == "0000" && Binary(1, 1) == "1" && Binary(12, 4) == "1100"
  {
    assert Binary(0, 1) == "0" && Binary(0, 2) == "00" && Binary(0, 3) == "000";
    assert Binary(3, 2) == "11" && Binary(6, 3) == "110";
  }

  lemma One()
    ensures Binary(0x01, 8) == "00000001"
  {
    Small();
    assert Binary(0, 5) == "00000";
    assert Binary(0, 6) == "000000";
    assert Binary(0, 7) == "0000000";
  }

  lemma C4()
    ensures Binary(0xC4, 8) == "11000100"
  {
    Small();
    assert Binary(24, 5) == "11000";
    assert Binary(49, 6) == "110001";
    assert Binary(98, 7) == "1100010";
  }

  lemma C0()
    ensures Binary(0xC0, 8) == "11000000"
  {
    Small();
    assert Binary(24, 5) == "11000";
    assert Binary(48, 6) == "110000";
    assert Binary(96, 7) == "1100000";
  }

  lemma BinaryExamples()
    ensures Binary(0x01, 8) == "00000001" && Binary(0xC4, 8) == "11000100" && Binary(0xC0, 8) == "11000000"
  {
    One();
    C4();
    C0();
  }

  /** The most significant digit comes first, and a short chunk is filled up behind. */
  lemma BitExamples()
    ensures BytesToBits([0x01, 0xC4]) == "0000000111000100" && BitsToBytes("0000000111000100") == [0x01, 0xC4]
  {
    BinaryExamples();
    BytesToBitsOneMore(0x01, [0xC4]);
    BytesToBitsOneMore(0xC4, []);
    assert [0x01] + [0xC4] == [0x01, 0xC4] && [0xC4] + [] == [0xC4];
    assert "00000001" + "11000100" == "0000000111000100" && "11000100" + "" == "11000100";
    BytesBitsRoundTrip([0x01, 0xC4]);
  }

  lemma ShortChunkExample()
    ensures BitsToBytes("11") == [0xC0]
  {
    BinaryExamples();
    assert Filled("11") == "11000000" == Binary(0xC0, 8);
    Pow2Of8();
    BinaryValueOf(0xC0, 8);
  }

  // ----- Cropping -----

  function AndBits(x: nat, y: nat, bits: nat): nat {
    if bits == 0 then 0 else (x % 2) * (y % 2) + 2 * AndBits(x / 2, y / 2, bits - 1)
  }

  /** The numbers agree in every bit that is set in the mask. */
  ghost predicate Agree(x: nat, y: nat, mask: nat, bits: nat) {
    forall k :: 0 <= k < bits && Bit(mask, k) == 1 ==> Bit(x, k) == Bit(y, k)
  }

  lemma AgreeFirst(x: nat, y: nat, mask: nat, bits: nat)
    requires bits > 0
    ensures Agree(x, y, mask, bits) <==> (mask % 2 == 1 ==> x % 2 == y % 2) && Agree(x / 2, y / 2, mask / 2, bits - 1)
  {
    assert Bit(mask, 0) == mask % 2 && Bit(x, 0) == x % 2 && Bit(y, 0) == y % 2;
    assert forall k: nat :: Bit(x, k + 1) == Bit(x / 2, k);
    assert forall k: nat :: Bit(y, k + 1) == Bit(y / 2, k);
    assert forall k: nat :: Bit(mask, k + 1) == Bit(mask / 2, k);
    if (mask % 2 == 1 ==> x % 2 == y % 2) && Agree(x / 2, y / 2, mask / 2, bits - 1) {
      forall k | 0 <= k < bits && Bit(mask, k) == 1 ensures Bit(x, k) == Bit(y, k) {
        if k > 0 {
          assert Bit(mask, k) == Bit(mask / 2, k - 1);
          assert Bit(x / 2, k - 1) == Bit(y / 2, k - 1);
        }
      }
    }
    if Agree(x, y, mask, bits) {
      forall k | 0 <= k < bits - 1 && Bit(mask / 2, k) == 1 ensures Bit(x / 2, k) == Bit(y / 2, k) {
        assert Bit(mask, k + 1) == 1 && Bit(x, k + 1) == Bit(y, k + 1);
      }
    }
  }

  /** That is what being equal under the mask means. */
  lemma {:induction false} AndBitsAgree(x: nat, y: nat, mask: nat, bits: nat)
    ensures AndBits(x, mask, bits) == AndBits(y, mask, bits) <==> Agree(x, y, mask, bits)
  {
    if bits > 0 {
      AndBitsAgree(x / 2, y / 2, mask / 2, bits - 1);
      AgreeFirst(x, y, mask, bits);
      assert (x % 2) * (mask % 2) == (if mask % 2 == 1 then x % 2 else 0) && (y % 2) * (mask % 2) == (if mask % 2 == 1 then y % 2 else 0);
    }
  }

  /** Bit `k`, the least significant first. */
  function Bit(n: nat, k: nat): nat {
    if k == 0 then n % 2 else Bit(n / 2, k - 1)
  }

  /** A packet has the pattern at the offset, on the bits set in the mask. A byte
      whose mask is zero need not be there. */
  ghost predicate Matches(packet: Bytes, pattern: Bytes, mask: Bytes, offset: nat)
    requires |mask| <= |pattern|
  {
    forall i :: 0 <= i < |mask| && mask[i] != 0 ==>
      offset + i < |packet| && AndBits(packet[offset + i], mask[i], BYTE_BITS) == AndBits(pattern[i], mask[i], BYTE_BITS)
  }

  /** The zero bytes at the front, and those at the back of what follows. */
  ghost predicate IsCrop(mask: Bytes, offset: nat, end: nat) {
    && offset <= end <= |mask|
    && (forall i :: 0 <= i < offset ==> mask[i] == 0)
    && (forall i :: end <= i < |mask| ==> mask[i] == 0)
    && (offset < end ==> mask[offset] != 0 && mask[end - 1] != 0)
  }

  /** The end of `scapy_packet_to_pattern`. */
  method Crop(pattern: Bytes, mask: Bytes) returns (pattern': Bytes, mask': Bytes, offset: nat)
    requires |mask| <= |pattern|
    ensures IsCrop(mask, offset, offset + |mask'|)
    ensures mask' == mask[offset..offset + |mask'|]
    ensures pattern' == pattern[offset..offset + |mask'| + (|pattern| - |mask|)]
  {
    offset := 0;
    for i := 0 to |mask|
      invariant offset == i && forall k :: 0 <= k < i ==> mask[k] == 0
    {
      if mask[i] == 0 {
        offset := offset + 1;
      } else {
        break;
      }
    }
    pattern' := pattern[offset..];
    mask' := mask[offset..];
    var size: int := |mask'| - 1;
    while size > 0 && mask'[size] == 0
      invariant size == |mask'| - 1 && |mask'| <= |mask| - offset
      invariant |mask| > offset ==> |mask'| >= 1
      invariant mask' == mask[offset..offset + |mask'|]
      invariant pattern' == pattern[offset..offset + |mask'| + (|pattern| - |mask|)]
      invariant forall i :: offset + |mask'| <= i < |mask| ==> mask[i] == 0
      decreases size
    {
      mask' := mask'[..|mask'| - 1];
      pattern' := pattern'[..|pattern'| - 1];
      size := size - 1;
    }
  }

  /** The cropped pattern matches exactly the packets that the whole one matches. */
  lemma CropKeepsMatching(pattern: Bytes, mask: Bytes, offset: nat, end: nat, packet: Bytes)
    requires |mask| <= |pattern| && IsCrop(mask, offset, end)
    ensures Matches(packet, pattern[offset..end + (|pattern| - |mask|)], mask[offset..end], offset)
       <==> Matches(packet, pattern, mask, 0)
  {
    var p, m := pattern[offset..end + (|pattern| - |mask|)], mask[offset..end];
    if Matches(packet, p, m, offset) {
      forall i | 0 <= i < |mask| && mask[i] != 0
        ensures i < |packet| && AndBits(packet[i], mask[i], BYTE_BITS) == AndBits(pattern[i], mask[i], BYTE_BITS)
      {
        assert m[i - offset] == mask[i] && p[i - offset] == pattern[i];
      }
    }
  }

  /** There is only one way to crop: no shorter window covers the mask. */
  lemma CropIsMinimal(mask: Bytes, offset: nat, end: nat, lo: nat, hi: nat)
    requires IsCrop(mask, offset, end) && lo <= hi <= |mask|
    requires forall i :: 0 <= i < |mask| && mask[i] != 0 ==> lo <= i < hi
    ensures end - offset <= hi - lo
  {
    if offset < end {
      assert mask[offset] != 0 && mask[end - 1] != 0;
    }
  }
}
