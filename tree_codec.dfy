/** `tree_dump` and `tree_read` of src/huffman.c: the tree stored in preorder,
    1 for an internal node, 0 and the eight symbol bits for a leaf, at an
    arbitrary bit cursor of a page buffer. */
module TreeCodec {
  import opened Types
  import opened Nodes
  import opened Bits

  /** The bits `tree_dump` stores for t. */
  function DumpBits(t: Tree): seq<bool>
  {
    match t
    case Leaf(c, _) => Prepend(false, BitsOf(c, 8))
    case Internal(_, l, r) => Prepend(true, DumpBits(l) + DumpBits(r))
  }

  /** `tree_read` on a bit string: the tree stored from bit pos on and the
      position after it, or None when the bits end inside the tree. Read
      trees carry weight 0: the stored form has no weights. */
  function ReadTree(bits: seq<bool>, pos: nat): (r: Option<(Tree, nat)>)
    ensures r.Some? ==> pos < r.value.1 <= |bits|
    decreases |bits| - pos
  {
    if pos >= |bits| then None
    else if bits[pos] then
      match ReadTree(bits, pos + 1)
      case None => None
      case Some((l, mid)) =>
        match ReadTree(bits, mid)
        case None => None
        case Some((r, end)) => Some((Internal(0, l, r), end))
    else if pos + 9 > |bits| then None
    else
      Pow2Byte();
      Some((Leaf(ValueOf(bits[pos + 1..pos + 9]), 0), pos + 9))
  }

  /** The stored tree takes one bit per internal node and nine per leaf. */
  lemma {:induction false} DumpLength(t: Tree)
    ensures |DumpBits(t)| == InternalCount(t) + 9 * LeafCount(t)
  {
    match t
    case Leaf(_, _) =>
    case Internal(_, l, r) =>
      DumpLength(l);
      DumpLength(r);
  }

  /** The halves of a slice that holds x + y. */
  lemma SliceSplit(bits: seq<bool>, pos: nat, x: seq<bool>, y: seq<bool>)
    requires pos + |x| + |y| <= |bits| && bits[pos..pos + |x| + |y|] == x + y
    ensures bits[pos..pos + |x|] == x && bits[pos + |x|..pos + |x| + |y|] == y
  {
    assert bits[pos..pos + |x|] == bits[pos..pos + |x| + |y|][..|x|];
    assert bits[pos + |x|..pos + |x| + |y|] == bits[pos..pos + |x| + |y|][|x|..];
  }

  /** The first bit and the rest of a slice that holds Prepend(b, x). */
  lemma SlicePrepend(bits: seq<bool>, pos: nat, b: bool, x: seq<bool>)
    requires pos + |x| + 1 <= |bits| && bits[pos..pos + |x| + 1] == Prepend(b, x)
    ensures bits[pos] == b && bits[pos + 1..pos + 1 + |x|] == x
  {
    assert bits[pos] == bits[pos..pos + |x| + 1][0];
    assert bits[pos + 1..pos + 1 + |x|] == bits[pos..pos + |x| + 1][1..];
  }

  /** `tree_read` started where `tree_dump` started reads back the same
      shape and symbols and stops exactly where `tree_dump` stopped,
      whatever follows. */
  lemma {:induction false} ReadDump(t: Tree, bits: seq<bool>, pos: nat)
    requires pos + |DumpBits(t)| <= |bits| && bits[pos..pos + |DumpBits(t)|] == DumpBits(t)
    ensures ReadTree(bits, pos) == Some((Strip(t), pos + |DumpBits(t)|))
    decreases t, 1
  {
    if t.Leaf? {
      ReadLeaf(bits, pos, t);
    } else {
      ReadNode(bits, pos, t);
    }
  }

  lemma ReadLeaf(bits: seq<bool>, pos: nat, t: Tree)
    requires t.Leaf?
    requires pos + 9 <= |bits| && bits[pos..pos + 9] == DumpBits(t)
    ensures ReadTree(bits, pos) == Some((Strip(t), pos + 9))
  {
    SlicePrepend(bits, pos, false, BitsOf(t.symbol, 8));
    Pow2Byte();
    ValueOfBitsOf(t.symbol, 8);
  }

  lemma {:induction false} ReadNode(bits: seq<bool>, pos: nat, t: Tree)
    requires t.Internal?
    requires pos + |DumpBits(t)| <= |bits| && bits[pos..pos + |DumpBits(t)|] == DumpBits(t)
    ensures ReadTree(bits, pos) == Some((Strip(t), pos + |DumpBits(t)|))
    decreases t, 0
  {
    var dl, dr := DumpBits(t.left), DumpBits(t.right);
    SlicePrepend(bits, pos, true, dl + dr);
    SliceSplit(bits, pos + 1, dl, dr);
    ReadDump(t.left, bits, pos + 1);
    ReadDump(t.right, bits, pos + 1 + |dl|);
  }

  // ---------------------------------------------------------------------
  // writing into a buffer

  /** after is before with `bits` ORed in from bit pos on; nothing else
      changes. */
  predicate OrsIn(before: seq<bv8>, after: seq<bv8>, pos: nat, bits: seq<bool>)
  {
    |before| == |after| && pos + |bits| <= 8 * |before| &&
    forall i :: 0 <= i < 8 * |before| ==> OrAt(before, after, pos, bits, i)
  }

  /** Bit i of after is bit i of before, ORed with bits[i - pos] when i is
      within bits. */
  predicate OrAt(before: seq<bv8>, after: seq<bv8>, pos: nat, bits: seq<bool>, i: nat)
    requires |before| == |after| && i < 8 * |before|
  {
    BytesToBits(after)[i] == (BytesToBits(before)[i] || (pos <= i < pos + |bits| && bits[i - pos]))
  }

  /** ORing x and then y right after it is ORing x + y. */
  lemma OrsInAppend(a: seq<bv8>, b: seq<bv8>, c: seq<bv8>, pos: nat, x: seq<bool>, y: seq<bool>)
    requires OrsIn(a, b, pos, x) && OrsIn(b, c, pos + |x|, y)
    ensures OrsIn(a, c, pos, x + y)
  {
    forall i | 0 <= i < 8 * |a|
      ensures OrAt(a, c, pos, x + y, i)
    {
      assert OrAt(a, b, pos, x, i) && OrAt(b, c, pos + |x|, y, i);
      if pos <= i < pos + |x + y| {
        assert (x + y)[i - pos] == if i < pos + |x| then x[i - pos] else y[i - pos - |x|];
      }
    }
  }

  /** ORing the bit b and then y right after it is ORing Prepend(b, y). */
  lemma OrsInPrepend(a: seq<bv8>, b: seq<bv8>, c: seq<bv8>, pos: nat, x: bool, y: seq<bool>)
    requires OrsIn(a, b, pos, [x]) && OrsIn(b, c, pos + 1, y)
    ensures OrsIn(a, c, pos, Prepend(x, y))
  {
    forall i | 0 <= i < 8 * |a|
      ensures OrAt(a, c, pos, Prepend(x, y), i)
    {
      assert OrAt(a, b, pos, [x], i) && OrAt(b, c, pos + 1, y, i);
      if pos < i < pos + 1 + |y| {
        assert Prepend(x, y)[i - pos] == y[i - pos - 1];
      }
    }
  }

  /** `to[p / 8] |= 128u >> p % 8` ORs in a single 1 bit at p = 8q + s. */
  lemma SetBit(a: seq<bv8>, p: nat, q: nat, s: nat)
    requires p == 8 * q + s && s < 8 && q < |a|
    ensures OrsIn(a, a[q := a[q] | Mask(s)], p, [true])
  {
    forall i | 0 <= i < 8 * |a|
      ensures BytesToBits(a[q := a[q] | Mask(s)])[i] == (BytesToBits(a)[i] || (p <= i < p + 1 && [true][i - p]))
    {
      SetBitAt(a, a[q := a[q] | Mask(s)], p, q, s, i, i / 8, i % 8);
    }
  }

  lemma SetBitAt(a: seq<bv8>, b: seq<bv8>, p: nat, q: nat, s: nat, i: nat, j: nat, k: nat)
    requires p == 8 * q + s && s < 8 && q < |a| && b == a[q := a[q] | Mask(s)]
    requires i == 8 * j + k && j < |a| && k < 8
    ensures BytesToBits(b)[i] == (BytesToBits(a)[i] || (p <= i < p + 1 && [true][i - p]))
  {
    BitIndex(b, i, j, k);
    BitIndex(a, i, j, k);
    if j == q {
      OrBit(a[q], Mask(s), k);
      MaskBit(s, k);
    }
  }

  /** h holds the bits of c moved s places towards the low end. */
  predicate ShiftedRight(h: bv8, c: bv8, s: nat)
  {
    forall m :: 0 <= m < 8 ==> BitAt(h, m) == (s <= m && BitAt(c, m - s))
  }

  /** l holds the bits of c moved t places towards the high end. */
  predicate ShiftedLeft(l: bv8, c: bv8, t: nat)
  {
    forall m :: 0 <= m < 8 ==> BitAt(l, m) == (m + t < 8 && BitAt(c, m + t))
  }

  lemma ShrShifted(c: bv8, s: nat)
    requires s <= 8
    ensures ShiftedRight(Shr(c, s), c, s)
  {
    forall m | 0 <= m < 8
      ensures BitAt(Shr(c, s), m) == (s <= m && BitAt(c, m - s))
    {
      ShrBit(c, s, m);
    }
  }

  lemma ShlShifted(c: bv8, t: nat)
    requires t <= 8
    ensures ShiftedLeft(Shl(c, t), c, t)
  {
    forall m | 0 <= m < 8
      ensures BitAt(Shl(c, t), m) == (m + t < 8 && BitAt(c, m + t))
    {
      ShlBit(c, t, m);
    }
  }

  /** y is x with the bits of c ORed in, moved s places towards the low
      end: `x | c >> s`. */
  predicate OredRight(y: bv8, x: bv8, c: bv8, s: nat)
  {
    forall m :: 0 <= m < 8 ==> BitAt(y, m) == (BitAt(x, m) || (s <= m && BitAt(c, m - s)))
  }

  /** y is x with the bits of c ORed in, moved t places towards the high
      end: `x | c << t` truncated to a byte. */
  predicate OredLeft(y: bv8, x: bv8, c: bv8, t: nat)
  {
    forall m :: 0 <= m < 8 ==> BitAt(y, m) == (BitAt(x, m) || (m + t < 8 && BitAt(c, m + t)))
  }

  lemma OrShrOred(x: bv8, c: bv8, s: nat)
    requires s < 8
    ensures OredRight(x | Shr(c, s), x, c, s)
  {
    forall m | 0 <= m < 8
      ensures BitAt(x | Shr(c, s), m) == (BitAt(x, m) || (s <= m && BitAt(c, m - s)))
    {
      OrBit(x, Shr(c, s), m);
      ShrBit(c, s, m);
    }
  }

  lemma OrShlOred(x: bv8, c: bv8, t: nat)
    requires t <= 8
    ensures OredLeft(x | Shl(c, t), x, c, t)
  {
    forall m | 0 <= m < 8
      ensures BitAt(x | Shl(c, t), m) == (BitAt(x, m) || (m + t < 8 && BitAt(c, m + t)))
    {
      OrBit(x, Shl(c, t), m);
      ShlBit(c, t, m);
    }
  }

  /** The two ORs of a leaf in `tree_dump`: with the cursor p + 1 at bit s
      of byte q, the symbol's high bits go into byte q shifted right by s
      (giving hi) and its low bits into byte q + 1 shifted left by 8 - s
      (giving lo). Together they OR in the leaf's 0 bit at p and its eight
      symbol bits. */
  lemma LeafBits(a: seq<bv8>, e: seq<bv8>, p: nat, q: nat, s: nat, c: bv8, hi: bv8, lo: bv8)
    requires p + 1 == 8 * q + s && s < 8 && q + 1 < |a| && e == a[q := hi][q + 1 := lo]
    requires OredRight(hi, a[q], c, s) && OredLeft(lo, a[q + 1], c, 8 - s)
    ensures OrsIn(a, e, p, Prepend(false, ByteBits(c)))
  {
    forall i | 0 <= i < 8 * |a|
      ensures OrAt(a, e, p, Prepend(false, ByteBits(c)), i)
    {
      LeafBitAt(a, e, p, q, s, c, hi, lo, i, i / 8, i % 8);
    }
  }

  /** Bit i = 8j + k after the two ORs of a leaf. */
  lemma LeafBitAt(a: seq<bv8>, e: seq<bv8>, p: nat, q: nat, s: nat, c: bv8, hi: bv8, lo: bv8, i: nat, j: nat, k: nat)
    requires p + 1 == 8 * q + s && s < 8 && q + 1 < |a| && e == a[q := hi][q + 1 := lo]
    requires OredRight(hi, a[q], c, s) && OredLeft(lo, a[q + 1], c, 8 - s)
    requires i == 8 * j + k && j < |a| && k < 8
    ensures OrAt(a, e, p, Prepend(false, ByteBits(c)), i)
  {
    BitIndex(e, i, j, k);
    BitIndex(a, i, j, k);
    if j == q {
      LeafBitHigh(BitAt(hi, k), BitAt(a[q], k), p, q, s, c, k, i);
    } else if j == q + 1 {
      LeafBitLow(BitAt(lo, k), BitAt(a[q + 1], k), p, q, s, c, k, i);
    } else if p <= i < p + 9 {
      assert i == p;
    }
  }

  /** Bit n of a stored leaf is symbol bit m = n - 1. */
  lemma LeafSymbolBit(c: bv8, n: nat, m: nat)
    requires n == m + 1 && m < 8
    ensures Prepend(false, ByteBits(c))[n] == BitAt(c, m)
  {
  }

  /** Bit k of byte q after `to[q] |= c >> s`, where b is that bit and xb
      the bit before. */
  lemma LeafBitHigh(b: bool, xb: bool, p: nat, q: nat, s: nat, c: bv8, k: nat, i: nat)
    requires p + 1 == 8 * q + s && s < 8 && k < 8 && i == 8 * q + k
    requires b == (xb || (s <= k && BitAt(c, k - s)))
    ensures b == (xb || (p <= i < p + 9 && Prepend(false, ByteBits(c))[i - p]))
  {
    if k >= s {
      LeafSymbolBit(c, i - p, k - s);
    }
  }

  /** Bit k of byte q + 1 after `to[q + 1] |= c << (8 - s)`, where b is that
      bit and xb the bit before. */
  lemma LeafBitLow(b: bool, xb: bool, p: nat, q: nat, s: nat, c: bv8, k: nat, i: nat)
    requires p + 1 == 8 * q + s && s < 8 && k < 8 && i == 8 * (q + 1) + k
    requires b == (xb || (k + (8 - s) < 8 && BitAt(c, k + (8 - s))))
    ensures b == (xb || (p <= i < p + 9 && Prepend(false, ByteBits(c))[i - p]))
  {
    if k < s {
      LeafSymbolBit(c, i - p, k + (8 - s));
    } else {
      assert p + 9 <= i;
    }
  }

  /** `tree_dump`: ORs the stored form of node into `to` from bit
      bitPosition on and returns the cursor after it. The last leaf also
      touches the byte after its last bit, so that byte must exist too. */
  method TreeDump(node: Tree, to: array<bv8>, bitPosition: nat) returns (end: nat)
    requires bitPosition + |DumpBits(node)| < 8 * to.Length
    modifies to
    ensures end == bitPosition + |DumpBits(node)|
    ensures OrsIn(old(to[..]), to[..], bitPosition, DumpBits(node))
    decreases node, 1
  {
    match node
    case Internal(_, left, right) =>
      end := DumpInternal(node, to, bitPosition);
    case Leaf(c, _) =>
      DumpLeaf(ToByte(c), to, bitPosition);
      ByteBitsFromBits(BitsOf(c, 8));
      end := bitPosition + 9;
  }

  /** The internal-node case of `tree_dump`: a 1 bit at the cursor, then
      the left subtree, then the right one. */
  method DumpInternal(node: Tree, to: array<bv8>, bitPosition: nat) returns (end: nat)
    requires node.Internal? && bitPosition + |DumpBits(node)| < 8 * to.Length
    modifies to
    ensures end == bitPosition + |DumpBits(node)|
    ensures OrsIn(old(to[..]), to[..], bitPosition, DumpBits(node))
    decreases node, 0
  {
    ghost var t0 := to[..];
    to[bitPosition / 8] := to[bitPosition / 8] | Mask(bitPosition % 8);
    SetBit(t0, bitPosition, bitPosition / 8, bitPosition % 8);
    ghost var t1 := to[..];
    var mid := TreeDump(node.left, to, bitPosition + 1);
    ghost var t2 := to[..];
    end := TreeDump(node.right, to, mid);
    OrsInAppend(t1, t2, to[..], bitPosition + 1, DumpBits(node.left), DumpBits(node.right));
    OrsInPrepend(t0, t1, to[..], bitPosition, true, DumpBits(node.left) + DumpBits(node.right));
  }

  /** The leaf case of `tree_dump`: the 0 bit is already clear, and the
      symbol's bits go in with two ORs, `c >> s` into the byte holding the
      cursor bp = 8q + s after the 0 bit and `c << (8 - s)` into the byte
      after it. */
  method DumpLeaf(c: bv8, to: array<bv8>, p: nat)
    requires p + 9 < 8 * to.Length
    modifies to
    ensures OrsIn(old(to[..]), to[..], p, Prepend(false, ByteBits(c)))
  {
    ghost var a := to[..];
    var q, s := (p + 1) / 8, (p + 1) % 8;
    var hi := to[q] | Shr(c, s);
    var lo := to[q + 1] | Shl(c, 8 - s);
    OrShrOred(to[q], c, s);
    OrShlOred(to[q + 1], c, 8 - s);
    to[q] := hi;
    to[q + 1] := lo;
    LeafBits(a, to[..], p, q, s, c, hi, lo);
  }

  // ---------------------------------------------------------------------
  // reading from a buffer

  /** The bits `tree_read` may use without reading outside its page: every
      leaf also reads the byte after its first symbol bit, so a tree must end
      before the page's last bit. */
  function PageBits(page: seq<bv8>): (r: seq<bool>)
    requires |page| >= 1
    ensures |r| == 8 * |page| - 1
  {
    BytesToBits(page)[..8 * |page| - 1]
  }

  /** Bit i = 8q + s of a page, as `tree_read` tests it. */
  lemma PageBit(page: seq<bv8>, i: nat, q: nat, s: nat)
    requires |page| >= 1 && i < 8 * |page| - 1 && i == 8 * q + s && s < 8
    ensures PageBits(page)[i] == (page[q] & Mask(s) != 0)
  {
    BitIndex(page, i, q, s);
  }

  /** v is the byte that starts at bit s of x and runs on into y:
      `x << s | y >> (8 - s)`. */
  predicate Joined(v: bv8, x: bv8, y: bv8, s: nat)
    requires s < 8
  {
    forall m :: 0 <= m < 8 ==> BitAt(v, m) == if m + s < 8 then BitAt(x, m + s) else BitAt(y, m + s - 8)
  }

  lemma ShlOrShr(x: bv8, y: bv8, s: nat)
    requires s < 8
    ensures Joined(Shl(x, s) | Shr(y, 8 - s), x, y, s)
  {
    var v := Shl(x, s) | Shr(y, 8 - s);
    forall m | 0 <= m < 8
      ensures BitAt(v, m) == if m + s < 8 then BitAt(x, m + s) else BitAt(y, m + s - 8)
    {
      OrBit(Shl(x, s), Shr(y, 8 - s), m);
      ShlBit(x, s, m);
      ShrBit(y, 8 - s, m);
    }
  }

  /** The byte `tree_read` assembles from bytes q and q + 1 of a page is
      the eight bits from bp = 8q + s on. */
  lemma ReadSymbol(page: seq<bv8>, bp: nat, q: nat, s: nat, v: bv8)
    requires |page| >= 1 && bp + 8 <= 8 * |page| - 1 && bp == 8 * q + s && s < 8
    requires q + 1 < |page| && Joined(v, page[q], page[q + 1], s)
    ensures ByteBits(v) == PageBits(page)[bp..bp + 8]
  {
    var w := PageBits(page)[bp..bp + 8];
    forall k | 0 <= k < 8
      ensures ByteBits(v)[k] == w[k]
    {
      assert w[k] == BytesToBits(page)[bp + k];
      SymbolBit(page, bp, q, s, v, k);
    }
  }

  /** Symbol bit k, taken from byte q or from byte q + 1. */
  lemma SymbolBit(page: seq<bv8>, bp: nat, q: nat, s: nat, v: bv8, k: nat)
    requires bp == 8 * q + s && s < 8 && q + 1 < |page| && k < 8
    requires Joined(v, page[q], page[q + 1], s)
    ensures BitAt(v, k) == BytesToBits(page)[bp + k]
  {
    var x, y := page[q], page[q + 1];
    if k + s < 8 {
      assert BitAt(v, k) == BitAt(x, k + s);
      BitIndex(page, bp + k, q, k + s);
    } else {
      assert BitAt(v, k) == BitAt(y, k + s - 8);
      BitIndex(page, bp + k, q + 1, k + s - 8);
    }
  }

  /** The symbol of a leaf in `tree_read`: byte bp / 8 shifted left by
      bp % 8, ORed with the next byte shifted right by 8 - bp % 8. */
  method ReadByteAt(inBuf: array<bv8>, bp: nat) returns (c: bv8)
    requires inBuf.Length >= 1 && bp + 8 <= 8 * inBuf.Length - 1
    ensures ByteBits(c) == PageBits(inBuf[..])[bp..bp + 8]
  {
    var q, s := bp / 8, bp % 8;
    var x, y := inBuf[q], inBuf[q + 1];
    c := Shl(x, s) | Shr(y, 8 - s);
    ShlOrShr(x, y, s);
    ReadSymbol(inBuf[..], bp, q, s, c);
  }

  /** A 0 bit followed by the eight bits of c reads as the leaf c. */
  lemma ReadTreeLeaf(bits: seq<bool>, pos: nat, c: bv8)
    requires pos + 9 <= |bits| && !bits[pos] && ByteBits(c) == bits[pos + 1..pos + 9]
    ensures ReadTree(bits, pos) == Some((Leaf(ByteValue(c), 0), pos + 9))
  {
  }

  /** `tree_read`: reads the tree stored in the page from bit bitPosition on.
      The source reads on past the page when the bits do not close a tree;
      the model reports that as None. */
  method TreeRead(inBuf: array<bv8>, bitPosition: nat) returns (r: Option<(Tree, nat)>)
    requires inBuf.Length >= 1
    ensures r == ReadTree(PageBits(inBuf[..]), bitPosition)
    decreases 8 * inBuf.Length - bitPosition, 1
  {
    if bitPosition >= 8 * inBuf.Length - 1 {
      return None;
    }
    var bit := inBuf[bitPosition / 8] & Mask(bitPosition % 8);
    PageBit(inBuf[..], bitPosition, bitPosition / 8, bitPosition % 8);
    if bit != 0 {
      r := ReadInternal(inBuf, bitPosition);
    } else {
      r := ReadLeafNode(inBuf, bitPosition);
    }
  }

  /** `tree_read` at a 1 bit: the left subtree from the next bit on, then
      the right one. */
  method ReadInternal(inBuf: array<bv8>, bitPosition: nat) returns (r: Option<(Tree, nat)>)
    requires inBuf.Length >= 1 && bitPosition < 8 * inBuf.Length - 1
    requires PageBits(inBuf[..])[bitPosition]
    ensures r == ReadTree(PageBits(inBuf[..]), bitPosition)
    decreases 8 * inBuf.Length - bitPosition, 0
  {
    var left := TreeRead(inBuf, bitPosition + 1);
    if left.None? {
      return None;
    }
    var right := TreeRead(inBuf, left.value.1);
    if right.None? {
      return None;
    }
    r := Some((Internal(0, left.value.0, right.value.0), right.value.1));
  }

  /** `tree_read` at a 0 bit: the eight symbol bits after it. */
  method ReadLeafNode(inBuf: array<bv8>, bitPosition: nat) returns (r: Option<(Tree, nat)>)
    requires inBuf.Length >= 1 && bitPosition < 8 * inBuf.Length - 1
    requires !PageBits(inBuf[..])[bitPosition]
    ensures r == ReadTree(PageBits(inBuf[..]), bitPosition)
  {
    var bp := bitPosition + 1;
    if bp + 8 > 8 * inBuf.Length - 1 {
      return None;
    }
    var c := ReadByteAt(inBuf, bp);
    ReadTreeLeaf(PageBits(inBuf[..]), bitPosition, c);
    r := Some((Leaf(ByteValue(c), 0), bp + 8));
  }
}
