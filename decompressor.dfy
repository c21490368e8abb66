/** `decompress` and `tree_write_decompressed` of src/huffman.c: the first
    page gives the header and the tree; then every symbol is found by a walk
    from the root, one bit per edge, the page being refilled as soon as its
    last bit has been used, and the symbols collect in the page buffer
    `out_buf`, which is flushed when full and at the end. */
module Decompressor {
  import opened Types
  import opened Nodes
  import opened Bits
  import opened Utils
  import opened Coding
  import opened TreeCodec
  import opened Paging
  import opened Huffman

  /** `fread(buf, 1, BUFSIZE, in)` on a file holding c whose position is
      off: the bytes up to the end of the file or of the buffer, and the
      number of them; the rest of the buffer keeps its contents. */
  method ReadPage(c: seq<bv8>, off: nat, buf: array<bv8>) returns (count: nat)
    requires off <= |c|
    modifies buf
    ensures count == if |c| - off < buf.Length then |c| - off else buf.Length
    ensures buf[..count] == c[off..off + count] && buf[count..] == old(buf[count..])
  {
    count := if |c| - off < buf.Length then |c| - off else buf.Length;
    for i := 0 to count
      invariant buf[..i] == c[off..off + i] && buf[i..] == old(buf[i..])
    {
      buf[i] := c[off + i];
      assert buf[i + 1..] == old(buf[i + 1..]);
    }
  }

  /** The state of the reader over the container c: the page buf is the
      page of the padded container p that starts at byte `start`, that page
      starts inside c, the file position is the end of what that page took
      from c, and the cursor is inside the page. */
  predicate Reading(c: seq<bv8>, p: seq<bv8>, page: nat, buf: seq<bv8>, off: nat, start: nat, bitPosition: nat)
  {
    page > 0 && |buf| == page && start % page == 0 && start < |c| &&
    start + page <= |p| && buf == p[start..start + page] &&
    off == (if start + page <= |c| then start + page else |c|) &&
    bitPosition < 8 * page
  }

  /** The walk of the inner loop of `tree_write_decompressed` for one
      symbol: from the root, the right child on a 1 bit and the left one on a
      0 bit, until a node without a left child. A page whose last bit the
      walk has used is cleared and refilled at once; when the refill reads
      nothing the walk fails (`exit(INVALID_COMPRESSED_CONTENT)`). The walk
      is `DecodeSymbol` on the bits of the padded container but its last,
      from the global bit position 8 * start + bitPosition on. */
  method WalkSymbol(tree: Tree, c: seq<bv8>, ghost p: seq<bv8>, page: nat, inBuf: array<bv8>, off: nat, bitPosition: nat, ghost start: nat)
    returns (sym: Option<Byte>, off': nat, bitPosition': nat, ghost start': nat)
    requires page > 0 && p == Padded(c, page) && Reading(c, p, page, inBuf[..], off, start, bitPosition)
    modifies inBuf
    ensures sym.None? ==> DecodeSymbol(tree, Usable(p), 8 * start + bitPosition) == None
    ensures sym.Some? ==> Reading(c, p, page, inBuf[..], off', start', bitPosition')
    ensures sym.Some? ==> DecodeSymbol(tree, Usable(p), 8 * start + bitPosition) == Some((sym.value, 8 * start' + bitPosition'))
  {
    var node := tree;
    off', bitPosition', start' := off, bitPosition, start;
    while node.Internal?
      invariant Reading(c, p, page, inBuf[..], off', start', bitPosition')
      invariant DecodeSymbol(tree, Usable(p), 8 * start + bitPosition) == DecodeSymbol(node, Usable(p), 8 * start' + bitPosition')
      decreases node
    {
      var more;
      node, more, off', bitPosition', start' := Edge(node, c, p, page, inBuf, off', bitPosition', start');
      if !more {
        return None, off', bitPosition', start';
      }
    }
    sym := Some(node.symbol);
  }

  /** One pass of the outer loop of `tree_write_decompressed`: the walk
      for symbol i, which extends the i symbols decoded from the global bit
      position pos by one, or fails, and then every longer run fails. */
  method NextSymbol(tree: Tree, c: seq<bv8>, ghost p: seq<bv8>, page: nat, inBuf: array<bv8>, off: nat, bitPosition: nat, ghost start: nat,
                    ghost pos: nat, ghost i: nat, ghost decoded: seq<Byte>, ghost at: nat)
    returns (sym: Option<Byte>, off': nat, bitPosition': nat, ghost start': nat, ghost at': nat)
    requires page > 0 && p == Padded(c, page) && Reading(c, p, page, inBuf[..], off, start, bitPosition)
    requires at == 8 * start + bitPosition && DecodeN(tree, Usable(p), pos, i) == Ok((decoded, at))
    modifies inBuf
    ensures sym.None? ==> DecodeN(tree, Usable(p), pos, i + 1) == Err(InvalidCompressedContent)
    ensures sym.Some? ==> Reading(c, p, page, inBuf[..], off', start', bitPosition') && at' == 8 * start' + bitPosition'
    ensures sym.Some? ==> DecodeN(tree, Usable(p), pos, i + 1) == Ok((decoded + [sym.value], at'))
  {
    sym, off', bitPosition', start' := WalkSymbol(tree, c, p, page, inBuf, off, bitPosition, start);
    at' := 8 * start' + bitPosition';
    if sym.None? {
      DecodeStop(tree, Usable(p), pos, i, decoded, at);
    } else {
      DecodeStep(tree, Usable(p), pos, i, decoded, at, sym.value, at');
    }
  }

  /** One pass of the inner loop: the bit at the cursor picks the child,
      the cursor steps on, and the page is refilled if it is used up. The
      walk from the child goes on from the next bit; when the refill reads
      nothing the walk from the node fails. */
  method Edge(node: Tree, c: seq<bv8>, ghost p: seq<bv8>, page: nat, inBuf: array<bv8>, off: nat, bitPosition: nat, ghost start: nat)
    returns (child: Tree, more: bool, off': nat, bitPosition': nat, ghost start': nat)
    requires node.Internal? && page > 0 && p == Padded(c, page) && Reading(c, p, page, inBuf[..], off, start, bitPosition)
    modifies inBuf
    ensures child == node.left || child == node.right
    ensures !more ==> DecodeSymbol(node, Usable(p), 8 * start + bitPosition) == None
    ensures more ==> Reading(c, p, page, inBuf[..], off', start', bitPosition')
    ensures more ==> DecodeSymbol(node, Usable(p), 8 * start + bitPosition) == DecodeSymbol(child, Usable(p), 8 * start' + bitPosition')
  {
    var bit := TestBit(inBuf, bitPosition, p, start);
    child := if bit != 0 then node.right else node.left;
    more, off', bitPosition', start' := Advance(c, p, page, inBuf, off, bitPosition, start);
    if more {
      WalkStep(node, child, p, 8 * start + bitPosition, 8 * start' + bitPosition', bit != 0);
    }
  }

  /** `in_buf[bit_position / 8] & (128u >> bit_position % 8)`: non-zero
      exactly when the bit of the padded container p at the global position
      is a 1. */
  method TestBit(inBuf: array<bv8>, bitPosition: nat, ghost p: seq<bv8>, ghost start: nat) returns (bit: bv8)
    requires start + inBuf.Length <= |p| && inBuf[..] == p[start..start + inBuf.Length]
    requires bitPosition < 8 * inBuf.Length
    ensures (bit != 0) == BytesToBits(p)[8 * start + bitPosition]
  {
    bit := inBuf[bitPosition / 8] & Mask(bitPosition % 8);
    BufferBit(p, inBuf[..], start, bitPosition);
  }

  /** `++bit_position`, then the refill of a page whose last bit has been
      used: cleared, then read from the file; false when the read gets
      nothing, which happens exactly after the last bit of the padded
      container. */
  method Advance(c: seq<bv8>, ghost p: seq<bv8>, page: nat, inBuf: array<bv8>, off: nat, bitPosition: nat, ghost start: nat)
    returns (more: bool, off': nat, bitPosition': nat, ghost start': nat)
    requires page > 0 && p == Padded(c, page) && Reading(c, p, page, inBuf[..], off, start, bitPosition)
    modifies inBuf
    ensures more ==> Reading(c, p, page, inBuf[..], off', start', bitPosition')
    ensures more ==> 8 * start' + bitPosition' == 8 * start + bitPosition + 1
    ensures more ==> 8 * start + bitPosition + 1 < 8 * |p|
    ensures !more ==> 8 * start + bitPosition + 1 == 8 * |p|
  {
    more, off', bitPosition', start' := true, off, bitPosition + 1, start;
    if bitPosition' / 8 == page {
      ClearPage(inBuf);
      var count := ReadPage(c, off, inBuf);
      if count == 0 {
        RefillEnd(c, page, start);
        more := false;
        return;
      }
      NextPage(start, page);
      PageRead(c, page, inBuf[..], start + page, count);
      off', start', bitPosition' := off + count, start + page, 0;
    }
  }

  /** One edge of the walk, on a bit the decoder may use. */
  lemma WalkStep(parent: Tree, child: Tree, p: seq<bv8>, g: nat, next: nat, b: bool)
    requires parent.Internal? && child == (if b then parent.right else parent.left)
    requires next == g + 1 < 8 * |p| && b == BytesToBits(p)[g]
    ensures DecodeSymbol(parent, Usable(p), g) == DecodeSymbol(child, Usable(p), next)
  {
  }

  /** `memset(out_buf, 0, BUFSIZE)`. */
  method ClearOutput(to: array<Byte>)
    modifies to
    ensures forall j :: 0 <= j < to.Length ==> to[j] == 0
  {
    for i := 0 to to.Length
      invariant forall j :: 0 <= j < i ==> to[j] == 0
    {
      to[i] := 0;
    }
  }

  /** `out_buf[out_bufi++] = nodei->c`, and the flush of a full buffer:
      the output so far, flushed or not, grows by c. A buffer that c fills
      is written out whole and cleared, and the cursor goes back to 0;
      otherwise nothing is written and the cursor steps on. */
  method PutSymbol(c: Byte, outBuf: array<Byte>, outBufI: nat, written: seq<Byte>) returns (outBufI': nat, written': seq<Byte>)
    requires outBufI < outBuf.Length
    modifies outBuf
    ensures outBufI' < outBuf.Length
    ensures written' + outBuf[..outBufI'] == written + old(outBuf[..outBufI]) + [c]
    ensures outBufI + 1 == outBuf.Length ==> outBufI' == 0 && written' == written + old(outBuf[..outBufI]) + [c]
    ensures outBufI + 1 == outBuf.Length ==> forall j :: 0 <= j < outBuf.Length ==> outBuf[j] == 0
    ensures outBufI + 1 < outBuf.Length ==> outBufI' == outBufI + 1 && written' == written
  {
    outBuf[outBufI] := c;
    outBufI' := outBufI + 1;
    assert outBuf[..outBufI'] == old(outBuf[..outBufI]) + [c];
    if outBufI' == outBuf.Length {
      assert outBuf[..] == outBuf[..outBufI'];
      written' := written + outBuf[..];
      ClearOutput(outBuf);
      outBufI' := 0;
      assert written' + outBuf[..outBufI'] == written';
    } else {
      written' := written;
    }
  }

  /** `tree_write_decompressed`: n symbols, each by a walk from the root,
      from the cursor after the tree on. The symbols pass through the page
      buffer `out_buf`, which is flushed when full and at the end. A failed
      refill ends the run with InvalidCompressedContent. */
  method WriteDecompressed(tree: Tree, bitPosition: nat, n: nat, c: seq<bv8>, page: nat, inBuf: array<bv8>, off: nat)
    returns (r: Result<seq<Byte>>)
    requires page > 0 && Reading(c, Padded(c, page), page, inBuf[..], off, 0, bitPosition)
    modifies inBuf
    ensures r == Outcome(DecodeN(tree, Usable(Padded(c, page)), bitPosition, n))
  {
    ghost var p := Padded(c, page);
    var outBuf := new Byte[page](_ => 0);
    var outBufI: nat, written: seq<Byte> := 0, [];
    var off', bp := off, bitPosition;
    ghost var start: nat, at: nat, decoded: seq<Byte> := 0, bitPosition, [];
    assert written + outBuf[..outBufI] == [];
    for i := 0 to n
      invariant Reading(c, p, page, inBuf[..], off', start, bp) && at == 8 * start + bp
      invariant outBufI < page == outBuf.Length && written + outBuf[..outBufI] == decoded
      invariant DecodeN(tree, Usable(p), bitPosition, i) == Ok((decoded, at))
    {
      var sym;
      sym, off', bp, start, at := NextSymbol(tree, c, p, page, inBuf, off', bp, start, bitPosition, i, decoded, at);
      if sym.None? {
        DecodeErrFrom(tree, Usable(p), bitPosition, i + 1, n);
        return Err(InvalidCompressedContent);
      }
      outBufI, written := PutSymbol(sym.value, outBuf, outBufI, written);
      decoded := decoded + [sym.value];
    }
    if outBufI > 0 {
      written := written + outBuf[..outBufI];
    } else {
      assert written + outBuf[..outBufI] == written;
    }
    r := Ok(written);
  }

  /** `decompress`: nothing when the container is empty or its header is 0;
      otherwise the tree read from the first page after the header, then the
      symbols it decodes. */
  method Decompress(container: seq<bv8>, page: nat) returns (r: Result<seq<Byte>>)
    requires page >= MinPage
    ensures r == Decompressed(container, page)
  {
    var inBuf := new bv8[page](_ => 0);
    assert inBuf[..] == ZeroBytes(page);
    var count := ReadPage(container, 0, inBuf);
    if count == 0 {
      return Ok([]);
    }
    PageRead(container, page, inBuf[..], 0, count);
    ghost var p := Padded(container, page);
    assert inBuf[..] == p[..page];
    var n := BytesToUint(inBuf);
    if n == 0 {
      HeaderZero(container, page, p);
      return Ok([]);
    }
    var tree := TreeRead(inBuf, 32);
    if tree.None? {
      TreeMissing(container, page, p, n);
      return Err(MalformedTree);
    }
    ContainerDecode(container, page, p, n, tree.value.0, tree.value.1);
    r := WriteDecompressed(tree.value.0, tree.value.1, n, container, page, inBuf, count);
  }

  /** A header of 0 gives no output. */
  lemma HeaderZero(c: seq<bv8>, page: nat, p: seq<bv8>)
    requires page >= MinPage && |c| > 0 && p == Padded(c, page)
    requires FromBigEndian(p[..page][..4]) == 0
    ensures Decompressed(c, page) == Ok([])
  {
  }

  /** A first page whose bits after the header do not hold a whole tree
      gives MalformedTree. */
  lemma TreeMissing(c: seq<bv8>, page: nat, p: seq<bv8>, n: nat)
    requires page >= MinPage && |c| > 0 && p == Padded(c, page)
    requires FromBigEndian(p[..page][..4]) == n > 0 && ReadTree(PageBits(p[..page]), 32).None?
    ensures Decompressed(c, page) == Err(MalformedTree)
  {
  }
}
