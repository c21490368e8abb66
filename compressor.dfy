/** `compress` and `tree_write_compressed` of src/huffman.c: the header and
    the stored tree at the front of the page buffer `dump`, then the code of
    every input byte ORed in one bit at a time, each full page flushed to the
    output and the last, partial page flushed at the end. */
module Compressor {
  import opened Types
  import opened Nodes
  import opened Bits
  import opened Utils
  import opened TreeBuild
  import opened Coding
  import opened TreeCodec
  import opened Paging
  import opened Huffman

  /** The state of the writer: the page d holds the bits cur written since
      the last flush, strictly fewer than a page, and the pages flushed so
      far, followed by cur, are the bits s emitted so far. */
  predicate Writing(out: seq<bv8>, d: seq<bv8>, cur: seq<bool>, s: seq<bool>)
  {
    PageHolds(d, cur) && |cur| < 8 * |d| && BytesToBits(out) + cur == s
  }

  /** One bit of a code: ORed in at the cursor when it is a 1, then the
      cursor steps on; a page that the step fills is flushed and cleared and
      the cursor goes back to its start. */
  method EmitBit(b: bool, dump: array<bv8>, bitPosition: nat, out: seq<bv8>, ghost cur: seq<bool>, ghost s: seq<bool>)
    returns (bitPosition': nat, out': seq<bv8>, ghost cur': seq<bool>)
    requires Writing(out, dump[..], cur, s) && bitPosition == |cur|
    modifies dump
    ensures Writing(out', dump[..], cur', s + [b]) && bitPosition' == |cur'|
    ensures |cur| + 1 == 8 * dump.Length ==> out' == out + Pack(cur + [b]) && cur' == [] && bitPosition' == 0
    ensures |cur| + 1 == 8 * dump.Length ==> dump[..] == ZeroBytes(dump.Length)
    ensures |cur| + 1 < 8 * dump.Length ==> out' == out && cur' == cur + [b] && bitPosition' == bitPosition + 1
  {
    PutBit(b, dump, bitPosition, cur);
    bitPosition' := bitPosition + 1;
    cur' := cur + [b];
    if bitPosition' / 8 == dump.Length {
      PageFull(dump[..], cur');
      PackUnique(dump[..], cur');
      BytesToBitsAppend(out, dump[..]);
      out' := out + dump[..];
      ClearPage(dump);
      PageCleared(dump.Length);
      bitPosition' := 0;
      cur' := [];
    } else {
      out' := out;
    }
  }

  /** `if (code[j] == '1') dump[bp / 8] |= 128u >> bp % 8`: the page then
      holds the bit b after cur. */
  method PutBit(b: bool, dump: array<bv8>, bitPosition: nat, ghost cur: seq<bool>)
    requires PageHolds(dump[..], cur) && |cur| < 8 * dump.Length && bitPosition == |cur|
    modifies dump
    ensures PageHolds(dump[..], cur + [b])
  {
    ghost var d0 := dump[..];
    if b {
      dump[bitPosition / 8] := dump[bitPosition / 8] | Mask(bitPosition % 8);
      SetBit(d0, bitPosition, bitPosition / 8, bitPosition % 8);
      OrsInPage(d0, dump[..], cur, [true]);
    } else {
      PageSkip(d0, cur);
    }
  }

  /** The inner loop of `tree_write_compressed`: every bit of one code. */
  method EmitCode(code: seq<bool>, dump: array<bv8>, bitPosition: nat, out: seq<bv8>, ghost cur: seq<bool>, ghost s: seq<bool>)
    returns (bitPosition': nat, out': seq<bv8>, ghost cur': seq<bool>)
    requires Writing(out, dump[..], cur, s) && bitPosition == |cur|
    modifies dump
    ensures Writing(out', dump[..], cur', s + code) && bitPosition' == |cur'|
  {
    bitPosition', out', cur' := bitPosition, out, cur;
    for j := 0 to |code|
      invariant Writing(out', dump[..], cur', s + code[..j]) && bitPosition' == |cur'|
    {
      assert s + code[..j + 1] == s + code[..j] + [code[j]];
      bitPosition', out', cur' := EmitBit(code[j], dump, bitPosition', out', cur', s + code[..j]);
    }
    assert code[..|code|] == code;
  }

  /** The number of bytes of the last flush: whole bytes, plus one for a
      partly filled byte. */
  lemma FlushSize(bitPosition: nat)
    ensures bitPosition / 8 + (if bitPosition % 8 > 0 then 1 else 0) == (bitPosition + 7) / 8
  {
  }

  /** The last flush of `tree_write_compressed`: the bytes of a partial page
      that hold bits, none when the cursor is at the start of the page. */
  method FinishPage(dump: array<bv8>, bitPosition: nat, out: seq<bv8>, ghost cur: seq<bool>, ghost s: seq<bool>)
    returns (out': seq<bv8>)
    requires Writing(out, dump[..], cur, s) && bitPosition == |cur|
    ensures out' == Pack(s)
  {
    if bitPosition != 0 {
      FlushSize(bitPosition);
      out' := out + dump[..bitPosition / 8 + (if bitPosition % 8 > 0 then 1 else 0)];
      FinalFlush(out, dump[..], cur, s);
    } else {
      assert BytesToBits(out) + [] == BytesToBits(out);
      NoFinalFlush(out, s);
      out' := out;
    }
  }

  /** The header and the stored tree at the front of a fresh page: the
      4-byte input length, big-endian, then the tree from bit 32 on. */
  method WriteHead(tree: Tree, inLen: nat, dump: array<bv8>) returns (bitPosition: nat)
    requires inLen < UintLimit && 32 + |DumpBits(tree)| < 8 * dump.Length
    requires dump[..] == ZeroBytes(dump.Length)
    modifies dump
    ensures Writing([], dump[..], Header(inLen) + DumpBits(tree), Header(inLen) + DumpBits(tree))
    ensures bitPosition == 32 + |DumpBits(tree)|
  {
    UintToBytes(inLen, dump);
    assert dump[4..] == ZeroBytes(dump.Length - 4);
    PageFront(dump[..], BigEndian(inLen));
    ghost var d0 := dump[..];
    bitPosition := TreeDump(tree, dump, 32);
    OrsInPage(d0, dump[..], Header(inLen), DumpBits(tree));
    assert BytesToBits([]) + (Header(inLen) + DumpBits(tree)) == Header(inLen) + DumpBits(tree);
  }

  /** `tree_write_compressed`: the packed stream bits of the tree and the
      input, written page by page. */
  method WriteCompressed(tree: Tree, input: seq<Byte>, inLen: nat, page: nat) returns (out: seq<bv8>)
    requires inLen == |input| < UintLimit && Covers(Codes(tree), input)
    requires 32 + |DumpBits(tree)| < 8 * page
    ensures out == Pack(StreamBits(tree, input))
  {
    var dump := new bv8[page](_ => 0);
    assert dump[..] == ZeroBytes(page);
    var bitPosition := WriteHead(tree, inLen, dump);
    var codes := Codes(tree);
    ghost var cur := Header(inLen) + DumpBits(tree);
    out := [];
    for i := 0 to |input|
      invariant Writing(out, dump[..], cur, Header(inLen) + DumpBits(tree) + Encode(codes, input[..i]))
      invariant bitPosition == |cur|
    {
      var code := codes[input[i]];
      bitPosition, out, cur := EmitCode(code, dump, bitPosition, out, cur, Header(inLen) + DumpBits(tree) + Encode(codes, input[..i]));
      EncodeNext(Header(inLen) + DumpBits(tree), codes, input, i);
    }
    assert input[..|input|] == input;
    out := FinishPage(dump, bitPosition, out, cur, StreamBits(tree, input));
  }

  /** The bits emitted after the code of input[i]. */
  lemma EncodeNext(hd: seq<bool>, codes: map<Byte, seq<bool>>, input: seq<Byte>, i: nat)
    requires i < |input| && Covers(codes, input)
    ensures hd + Encode(codes, input[..i]) + codes[input[i]] == hd + Encode(codes, input[..i + 1])
  {
    assert input[..i + 1][..i] == input[..i];
  }

  /** `compress`: nothing for an empty input; otherwise the tree built from
      the input, then the container written with it. */
  method Compress(input: seq<Byte>, page: nat) returns (out: seq<bv8>)
    requires page >= MinPage && |input| < UintLimit
    ensures out == Compressed(input)
  {
    var tree, inLen := BuildTreeInPlace(input);
    if tree.None? {
      return [];
    }
    BuiltCovers(input);
    DumpFits(input);
    out := WriteCompressed(tree.value, input, inLen, page);
  }
}
