/** The bit I/O buffer: bytes as eight bits each, most significant bit first,
    as `tree_dump`, `tree_read` and the payload loops of src/huffman.c address
    them with a bit cursor `p` (byte `p / 8`, mask `128u >> p % 8`). */
module Bits {

  /** `128u >> k`, tabulated so that proofs only meet constant shifts. */
  function Mask(k: nat): bv8
    requires k < 8
  {
    if k == 0 then 0x80 else if k == 1 then 0x40 else if k == 2 then 0x20
    else if k == 3 then 0x10 else if k == 4 then 0x08 else if k == 5 then 0x04
    else if k == 6 then 0x02 else 0x01
  }

  /** Bit k of b, counting from the most significant bit (k = 0). */
  function BitAt(b: bv8, k: nat): bool
    requires k < 8
  {
    b & Mask(k) != 0
  }

  /** `c >> s` for a shift amount 0..8, by cases on the amount. */
  function Shr(c: bv8, s: nat): bv8
    requires s <= 8
  {
    if s == 0 then c else if s == 1 then c >> 1 else if s == 2 then c >> 2
    else if s == 3 then c >> 3 else if s == 4 then c >> 4 else if s == 5 then c >> 5
    else if s == 6 then c >> 6 else if s == 7 then c >> 7 else 0
  }

  /** `c << s` truncated to a byte, for a shift amount 0..8, by cases on the amount. */
  function Shl(c: bv8, s: nat): bv8
    requires s <= 8
  {
    if s == 0 then c else if s == 1 then c << 1 else if s == 2 then c << 2
    else if s == 3 then c << 3 else if s == 4 then c << 4 else if s == 5 then c << 5
    else if s == 6 then c << 6 else if s == 7 then c << 7 else 0
  }

  lemma MaskIsShift(k: nat)
    requires k < 8
    ensures Mask(k) == 0x80 >> k
  {
    if k == 0 {} else if k == 1 {} else if k == 2 {} else if k == 3 {}
    else if k == 4 {} else if k == 5 {} else if k == 6 {} else {}
  }

  lemma ShrIsShift(c: bv8, s: nat)
    requires s <= 8
    ensures Shr(c, s) == c >> s
  {
    if s == 0 {} else if s == 1 {} else if s == 2 {} else if s == 3 {}
    else if s == 4 {} else if s == 5 {} else if s == 6 {} else if s == 7 {} else {}
  }

  lemma ShlIsShift(c: bv8, s: nat)
    requires s <= 8
    ensures Shl(c, s) == c << s
  {
    if s == 0 {} else if s == 1 {} else if s == 2 {} else if s == 3 {}
    else if s == 4 {} else if s == 5 {} else if s == 6 {} else if s == 7 {} else {}
  }

  lemma ShrBit(c: bv8, s: nat, j: nat)
    requires s <= 8 && j < 8
    ensures BitAt(Shr(c, s), j) == (s <= j && BitAt(c, j - s))
  {
    if s == 0 {} else if s == 1 {} else if s == 2 {} else if s == 3 {}
    else if s == 4 {} else if s == 5 {} else if s == 6 {} else if s == 7 {} else {}
  }

  lemma ShlBit(c: bv8, s: nat, j: nat)
    requires s <= 8 && j < 8
    ensures BitAt(Shl(c, s), j) == (j + s < 8 && BitAt(c, j + s))
  {
    if s == 0 {} else if s == 1 {} else if s == 2 {} else if s == 3 {}
    else if s == 4 {} else if s == 5 {} else if s == 6 {} else if s == 7 {} else {}
  }

  /** The mask `128u >> s` has exactly bit s set. */
  lemma MaskBit(s: nat, k: nat)
    requires s < 8 && k < 8
    ensures BitAt(Mask(s), k) == (s == k)
  {
    if s == 0 {} else if s == 1 {} else if s == 2 {} else if s == 3 {}
    else if s == 4 {} else if s == 5 {} else if s == 6 {} else {}
  }

  lemma OrBit(a: bv8, b: bv8, j: nat)
    requires j < 8
    ensures BitAt(a | b, j) == (BitAt(a, j) || BitAt(b, j))
  {
  }

  lemma ZeroBit(j: nat)
    requires j < 8
    ensures !BitAt(0, j)
  {
  }

  /** Two bytes with the same eight bits are equal. */
  lemma ByteExt(x: bv8, y: bv8)
    requires forall j :: 0 <= j < 8 ==> BitAt(x, j) == BitAt(y, j)
    ensures x == y
  {
    assert BitAt(x, 0) == BitAt(y, 0) && BitAt(x, 1) == BitAt(y, 1);
    assert BitAt(x, 2) == BitAt(y, 2) && BitAt(x, 3) == BitAt(y, 3);
    assert BitAt(x, 4) == BitAt(y, 4) && BitAt(x, 5) == BitAt(y, 5);
    assert BitAt(x, 6) == BitAt(y, 6) && BitAt(x, 7) == BitAt(y, 7);
  }

  function Zeros(n: nat): (r: seq<bool>)
    ensures |r| == n && forall i :: 0 <= i < n ==> !r[i]
  {
    seq(n, _ => false)
  }

  /** The bit string of a byte string: bit i is bit i % 8 of byte i / 8. */
  function BytesToBits(bs: seq<bv8>): (r: seq<bool>)
    ensures |r| == 8 * |bs|
  {
    if bs == [] then [] else BytesToBits(bs[..|bs| - 1]) + ByteBits(bs[|bs| - 1])
  }

  /** One bit followed by the bits s. */
  function Prepend(b: bool, s: seq<bool>): (r: seq<bool>)
    ensures |r| == |s| + 1
  {
    seq(|s| + 1, i requires 0 <= i <= |s| => if i == 0 then b else s[i - 1])
  }

  /** The eight bits of one byte. */
  function ByteBits(b: bv8): (r: seq<bool>)
    ensures |r| == 8
  {
    seq(8, k requires 0 <= k < 8 => BitAt(b, k))
  }

  /** Bit i = 8j + k of a byte string is bit k of byte j. */
  lemma {:induction false} BitIndex(a: seq<bv8>, i: nat, j: nat, k: nat)
    requires i == 8 * j + k && j < |a| && k < 8
    ensures BytesToBits(a)[i] == BitAt(a[j], k)
    decreases |a|
  {
    var front := a[..|a| - 1];
    if j == |a| - 1 {
      assert BytesToBits(a)[i] == ByteBits(a[j])[k];
    } else {
      BitIndex(front, i, j, k);
      assert BytesToBits(a)[i] == BytesToBits(front)[i];
    }
  }

  /** The byte whose bits, most significant first, are `bits`. */
  function ByteFromBits(bits: seq<bool>): (b: bv8)
    requires |bits| == 8
    ensures forall k :: 0 <= k < 8 ==> BitAt(b, k) == bits[k]
  {
    (if bits[0] then 0x80 else 0) | (if bits[1] then 0x40 else 0)
    | (if bits[2] then 0x20 else 0) | (if bits[3] then 0x10 else 0)
    | (if bits[4] then 0x08 else 0) | (if bits[5] then 0x04 else 0)
    | (if bits[6] then 0x02 else 0) | (if bits[7] then 0x01 else 0)
  }

  function Pow2(n: nat): (r: nat)
    ensures r >= 1
  {
    if n == 0 then 1 else 2 * Pow2(n - 1)
  }

  /** The n-bit binary form of v, most significant bit first. */
  function BitsOf(v: nat, n: nat): (r: seq<bool>)
    ensures |r| == n
  {
    if n == 0 then [] else BitsOf(v / 2, n - 1) + [v % 2 == 1]
  }

  /** The number whose binary form, most significant bit first, is bits. */
  function ValueOf(bits: seq<bool>): (v: nat)
    ensures v < Pow2(|bits|)
  {
    if bits == [] then 0 else 2 * ValueOf(bits[..|bits| - 1]) + (if bits[|bits| - 1] then 1 else 0)
  }

  lemma {:induction false} ValueOfBitsOf(v: nat, n: nat)
    requires v < Pow2(n)
    ensures ValueOf(BitsOf(v, n)) == v
  {
    if n > 0 {
      var b := BitsOf(v, n);
      assert b[..n - 1] == BitsOf(v / 2, n - 1);
      ValueOfBitsOf(v / 2, n - 1);
    }
  }

  lemma {:induction false} BitsOfValueOf(bits: seq<bool>)
    ensures BitsOf(ValueOf(bits), |bits|) == bits
  {
    if bits != [] {
      var init := bits[..|bits| - 1];
      var v := ValueOf(bits);
      assert v / 2 == ValueOf(init);
      BitsOfValueOf(init);
      assert bits == init + [bits[|bits| - 1]];
    }
  }

  /** A number below 256 as a byte: what storing it into an `unsigned char` gives. */
  function ToByte(v: nat): (b: bv8)
    requires v < 256
  {
    ByteFromBits(BitsOf(v, 8))
  }

  /** A byte as a number. */
  function ByteValue(b: bv8): (v: nat)
    ensures v < 256
  {
    ValueOf(ByteBits(b))
  }

  lemma Pow2Byte()
    ensures Pow2(8) == 256
  {
  }

  lemma ByteBitsFromBits(bits: seq<bool>)
    requires |bits| == 8
    ensures ByteBits(ByteFromBits(bits)) == bits
  {
  }

  lemma ByteValueToByte(v: nat)
    requires v < 256
    ensures ByteValue(ToByte(v)) == v
  {
    Pow2Byte();
    ByteBitsFromBits(BitsOf(v, 8));
    ValueOfBitsOf(v, 8);
  }

  lemma ToByteByteValue(b: bv8)
    ensures ByteValue(b) < 256 && ToByte(ByteValue(b)) == b
  {
    BitsOfValueOf(ByteBits(b));
    ByteExt(ToByte(ByteValue(b)), b);
  }

  /** Bytes of a bit string, the last byte padded with zero bits: what the
      writer emits once the final partial byte is flushed. */
  function Pack(bits: seq<bool>): (r: seq<bv8>)
    ensures |r| == (|bits| + 7) / 8
  {
    seq((|bits| + 7) / 8, j requires 0 <= j < (|bits| + 7) / 8 => PackByte(bits, j))
  }

  /** Byte j of `Pack(bits)`: bits 8j to 8j + 7, zero past the end. */
  function PackByte(bits: seq<bool>, j: nat): (b: bv8)
    ensures forall k :: 0 <= k < 8 ==> BitAt(b, k) == (8 * j + k < |bits| && bits[8 * j + k])
  {
    ByteFromBits(seq(8, k requires 0 <= k < 8 => 8 * j + k < |bits| && bits[8 * j + k]))
  }

  /** Reading back what `Pack` wrote gives the bits followed by the zero padding. */
  lemma PackBits(bits: seq<bool>)
    ensures BytesToBits(Pack(bits)) == bits + Zeros(8 * |Pack(bits)| - |bits|)
  {
    var r := Pack(bits);
    var pad := Zeros(8 * |r| - |bits|);
    forall i | 0 <= i < 8 * |r|
      ensures BytesToBits(r)[i] == (bits + pad)[i]
    {
      PackBit(bits, i, i / 8, i % 8);
    }
  }

  lemma PackBit(bits: seq<bool>, i: nat, j: nat, k: nat)
    requires i == 8 * j + k && j < |Pack(bits)| && k < 8
    ensures BytesToBits(Pack(bits))[i] == (bits + Zeros(8 * |Pack(bits)| - |bits|))[i]
  {
    var r := Pack(bits);
    BitIndex(r, i, j, k);
    assert r[j] == PackByte(bits, j);
    assert BitAt(r[j], k) == (i < |bits| && bits[i]);
  }

  lemma {:induction false} BytesToBitsAppend(a: seq<bv8>, b: seq<bv8>)
    ensures BytesToBits(a + b) == BytesToBits(a) + BytesToBits(b)
    decreases |b|
  {
    if b == [] {
      assert a + b == a;
    } else {
      var front, last := b[..|b| - 1], b[|b| - 1];
      assert (a + b)[..|a + b| - 1] == a + front;
      assert (a + b)[|a + b| - 1] == last;
      BytesToBitsAppend(a, front);
      assert BytesToBits(b) == BytesToBits(front) + ByteBits(last);
    }
  }

  /** A byte string is determined by its bits. */
  lemma {:induction false} BytesToBitsInjective(a: seq<bv8>, b: seq<bv8>)
    requires |a| == |b| && BytesToBits(a) == BytesToBits(b)
    ensures a == b
  {
    forall j | 0 <= j < |a|
      ensures a[j] == b[j]
    {
      forall k | 0 <= k < 8
        ensures BitAt(a[j], k) == BitAt(b[j], k)
      {
        BitIndex(a, 8 * j + k, j, k);
        BitIndex(b, 8 * j + k, j, k);
      }
      ByteExt(a[j], b[j]);
    }
  }

  /** Packing whole bytes' worth of bits gives those bytes back. */
  lemma PackBytes(bs: seq<bv8>)
    ensures Pack(BytesToBits(bs)) == bs
  {
    PackBits(BytesToBits(bs));
    BytesToBitsInjective(Pack(BytesToBits(bs)), bs);
  }
}
