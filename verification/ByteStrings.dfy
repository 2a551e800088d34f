/** Byte strings, and the integer packings the protocols put into them. */
module ByteStrings {

  type Byte = b: int | 0 <= b < 256

  type Bytes = seq<Byte>

  datatype Option<+T> = None | Some(value: T)

  /** The low byte of `n`. */
  function ByteOf(n: nat): Byte {
    n % 256
  }

  function Zeros(n: nat): (r: Bytes)
    ensures |r| == n
  {
    seq(n, _ => 0)
  }

  /** Byte `i` of `n`, counted from the least significant. */
  function ByteAt(n: nat, i: nat): Byte
    decreases i
  {
    if i == 0 then n % 256 else ByteAt(n / 256, i - 1)
  }

  /** `n` on `width` bytes, least significant first; higher bytes are dropped. */
  function LittleEndian(n: nat, width: nat): (r: Bytes)
    ensures |r| == width
  {
    seq(width, i requires 0 <= i < width => ByteAt(n, i))
  }

  /** `n` on `width` bytes, most significant first; higher bytes are dropped. */
  function BigEndian(n: nat, width: nat): (r: Bytes)
    ensures |r| == width
  {
    seq(width, i requires 0 <= i < width => ByteAt(n, width - 1 - i))
  }

  /** The unsigned integer that a big-endian byte string denotes. */
  function FromBigEndian(s: Bytes): nat {
    if s == [] then 0 else 256 * FromBigEndian(s[..|s| - 1]) + s[|s| - 1]
  }

  function Pow256(k: nat): nat {
    if k == 0 then 1 else 256 * Pow256(k - 1)
  }

  lemma LittleEndianAt(n: nat, width: nat, i: nat)
    requires i < width
    ensures LittleEndian(n, width)[i] == ByteAt(n, i)
    ensures ByteAt(n, i) == if i == 0 then n % 256 else ByteAt(n / 256, i - 1)
  {
  }

  lemma {:induction false} LittleEndianInjective(m: nat, n: nat, width: nat)
    requires m < Pow256(width) && n < Pow256(width)
    requires LittleEndian(m, width) == LittleEndian(n, width)
    ensures m == n
  {
    if width > 0 {
      LittleEndianAt(m, width, 0);
      LittleEndianAt(n, width, 0);
      forall i | 0 <= i < width - 1 ensures ByteAt(m / 256, i) == ByteAt(n / 256, i) {
        LittleEndianAt(m, width, i + 1);
        LittleEndianAt(n, width, i + 1);
      }
      LittleEndianInjective(m / 256, n / 256, width - 1);
    }
  }

  lemma BigEndianAt(n: nat, width: nat, i: nat)
    requires i < width
    ensures BigEndian(n, width)[i] == ByteAt(n, width - 1 - i)
    ensures ByteAt(n, width - 1 - i) == if i == width - 1 then n % 256 else ByteAt(n / 256, width - 2 - i)
  {
  }

  lemma {:induction false} BigEndianRoundTrip(n: nat, width: nat)
    requires n < Pow256(width)
    ensures FromBigEndian(BigEndian(n, width)) == n
  {
    if width > 0 {
      BigEndianRoundTrip(n / 256, width - 1);
      BigEndianAt(n, width, width - 1);
      forall i | 0 <= i < width - 1 ensures BigEndian(n, width)[i] == BigEndian(n / 256, width - 1)[i] {
        BigEndianAt(n, width, i);
      }
      assert BigEndian(n, width)[..width - 1] == BigEndian(n / 256, width - 1);
    }
  }

  function Min(m: nat, n: nat): nat {
    if m <= n then m else n
  }

  /** Exclusive or of two `bits`-bit integers. */
  function XorBits(x: nat, y: nat, bits: nat): nat {
    if bits == 0 then 0 else (x + y) % 2 + 2 * XorBits(x / 2, y / 2, bits - 1)
  }

  const BYTE_BITS: nat := 8

  function XorByte(x: Byte, y: Byte): Byte {
    XorBitsBound(x, y, BYTE_BITS);
    Pow2Of8();
    XorBits(x, y, BYTE_BITS)
  }

  function Pow2(k: nat): nat {
    if k == 0 then 1 else 2 * Pow2(k - 1)
  }

  lemma {:induction false} XorBitsBound(x: nat, y: nat, bits: nat)
    ensures XorBits(x, y, bits) < Pow2(bits)
  {
    if bits > 0 {
      XorBitsBound(x / 2, y / 2, bits - 1);
    }
  }

  lemma Pow2Of8()
    ensures Pow2(8) == 256
  {
  }

  lemma XorBitTwice(x: nat, y: nat, high: nat)
    ensures var z := (x + y) % 2 + 2 * high;
            z / 2 == high && (z + y) % 2 == x % 2
  {
  }

  lemma {:induction false} XorBitsTwice(x: nat, y: nat, bits: nat)
    requires x < Pow2(bits)
    ensures XorBits(XorBits(x, y, bits), y, bits) == x
  {
    if bits > 0 {
      XorBitsTwice(x / 2, y / 2, bits - 1);
      XorBitTwice(x, y, XorBits(x / 2, y / 2, bits - 1));
    }
  }

  lemma XorByteTwice(x: Byte, y: Byte)
    ensures XorByte(XorByte(x, y), y) == x
  {
    Pow2Of8();
    XorBitsTwice(x, y, BYTE_BITS);
  }

  /** Bytewise exclusive or; like `zip`, it stops at the shorter argument. */
  function Xor(a: Bytes, b: Bytes): (r: Bytes)
    ensures |r| == Min(|a|, |b|)
  {
    seq(Min(|a|, |b|), i requires 0 <= i < Min(|a|, |b|) => XorByte(a[i], b[i]))
  }

  /** Xoring twice with a mask that is long enough gives the input back. */
  lemma XorTwice(a: Bytes, mask: Bytes)
    requires |a| <= |mask|
    ensures Xor(Xor(a, mask), mask) == a
  {
    forall i | 0 <= i < |a| ensures Xor(Xor(a, mask), mask)[i] == a[i] {
      XorByteTwice(a[i], mask[i]);
    }
  }

  lemma XorCommutes(a: Bytes, b: Bytes)
    ensures Xor(a, b) == Xor(b, a)
  {
    forall i | 0 <= i < |Xor(a, b)| ensures XorByte(a[i], b[i]) == XorByte(b[i], a[i]) {
      XorBitsCommutes(a[i], b[i], BYTE_BITS);
    }
  }

  lemma {:induction false} XorBitsCommutes(x: nat, y: nat, bits: nat)
    ensures XorBits(x, y, bits) == XorBits(y, x, bits)
  {
    if bits > 0 {
      XorBitsCommutes(x / 2, y / 2, bits - 1);
    }
  }

  lemma AppendAssociates<T>(a: seq<T>, b: seq<T>, c: seq<T>)
    ensures a + (b + c) == (a + b) + c
  {
  }

  function Concat<T>(parts: seq<seq<T>>): seq<T> {
    if parts == [] then [] else parts[0] + Concat(parts[1..])
  }

  lemma {:induction false} ConcatSnoc<T>(parts: seq<seq<T>>, last: seq<T>)
    ensures Concat(parts + [last]) == Concat(parts) + last
  {
    if parts == [] {
      assert parts + [last] == [last];
    } else {
      assert (parts + [last])[1..] == parts[1..] + [last];
      ConcatSnoc(parts[1..], last);
    }
  }

  /** A number of one byte: the rest is zero. */
  lemma SmallNumber(b: Byte, width: nat)
    requires width > 0
    ensures LittleEndian(b, width) == [b] + Zeros(width - 1) && BigEndian(b, width) == Zeros(width - 1) + [b]
  {
    forall i | 0 < i < width ensures ByteAt(b, i) == 0 {
      ZeroAt(i - 1);
    }
  }

  lemma {:induction false} ZeroAt(i: nat)
    ensures ByteAt(0, i) == 0
  {
    if i > 0 {
      ZeroAt(i - 1);
    }
  }

  /** The conventions, on concrete numbers: byte order, and exclusive or bit by bit. */
  lemma Conventions()
    ensures LittleEndian(0x0102_0304, 4) == [4, 3, 2, 1] && BigEndian(0x0102_0304, 4) == [1, 2, 3, 4]
    ensures LittleEndian(0x0102_0304, 2) == [4, 3] && XorByte(0x0F, 0x35) == 0x3A
  {
    var n := 0x0102_0304;
    assert ByteAt(n, 0) == 4;
    assert ByteAt(n, 1) == ByteAt(0x01_0203, 0) == 3;
    assert ByteAt(n, 2) == ByteAt(0x01_0203, 1) == ByteAt(0x0102, 0) == 2;
    assert ByteAt(n, 3) == ByteAt(0x01_0203, 2) == ByteAt(0x0102, 1) == ByteAt(0x01, 0) == 1;
    assert XorBits(0x0F, 0x35, 8) == 0 + 2 * XorBits(0x07, 0x1A, 7);
    assert XorBits(0x07, 0x1A, 7) == 1 + 2 * XorBits(0x03, 0x0D, 6);
    assert XorBits(0x03, 0x0D, 6) == 0 + 2 * XorBits(0x01, 0x06, 5);
    assert XorBits(0x01, 0x06, 5) == 1 + 2 * XorBits(0x00, 0x03, 4);
    assert XorBits(0x00, 0x03, 4) == 1 + 2 * XorBits(0x00, 0x01, 3);
    assert XorBits(0x00, 0x01, 3) == 1 + 2 * XorBits(0x00, 0x00, 2);
    assert XorBits(0x00, 0x00, 2) == 0 + 2 * XorBits(0x00, 0x00, 1);
  }

  /** Exclusive or with zero changes nothing, and with itself gives zero. */
  lemma {:induction false} XorBitsUnits(x: nat, bits: nat)
    requires x < Pow2(bits)
    ensures XorBits(x, 0, bits) == x && XorBits(x, x, bits) == 0
  {
    if bits > 0 {
      XorBitsUnits(x / 2, bits - 1);
    }
  }
}
