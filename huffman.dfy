/** `compress` and `decompress` of src/huffman.c: the container is the
    4-byte big-endian input length, the tree in preorder and the codes of
    the input bytes, bit after bit, MSB first, written page by page. */
module Huffman {
  import opened Types
  import opened Nodes
  import opened Bits
  import opened Utils
  import opened TreeBuild
  import opened Coding
  import opened TreeCodec
  import opened Paging

  /** The smallest BUFSIZE for which the header and the largest tree (255
      internal nodes and 256 leaves, 2559 bits) fit in the first page, with
      the byte after the last leaf's first symbol bit inside the page too. */
  const MinPage: nat := 324

  // ---------------------------------------------------------------------
  // the container as a function of the input

  /** Every byte of s has a code. */
  predicate Covers(codes: map<Byte, seq<bool>>, s: seq<Byte>)
  {
    forall i :: 0 <= i < |s| ==> s[i] in codes
  }

  /** The payload: the codes of the bytes of s, one after the other. */
  function Encode(codes: map<Byte, seq<bool>>, s: seq<Byte>): seq<bool>
    requires Covers(codes, s)
  {
    if s == [] then [] else Encode(codes, s[..|s| - 1]) + codes[s[|s| - 1]]
  }

  /** The header bits: the input length, big-endian. */
  function Header(n: nat): (r: seq<bool>)
    requires n < UintLimit
    ensures |r| == 32
  {
    BytesToBits(BigEndian(n))
  }

  /** The bits `tree_write_compressed` emits for t and the input. */
  function StreamBits(t: Tree, input: seq<Byte>): seq<bool>
    requires |input| < UintLimit && Covers(Codes(t), input)
  {
    Header(|input|) + DumpBits(t) + Encode(Codes(t), input)
  }

  /** `compress`: nothing for an empty input; otherwise the stream bits of
      the built tree, packed into bytes with the last byte zero-padded. */
  function Compressed(input: seq<Byte>): seq<bv8>
    requires |input| < UintLimit
  {
    if |input| == 0 then []
    else
      BuiltCovers(input);
      Pack(StreamBits(BuildTree(input).value, input))
  }

  /** The decoder's outer loop: n symbols from pos on, each by the walk of
      `DecodeSymbol`; the symbols and the position after them, or
      InvalidCompressedContent when the bits run out. */
  function DecodeN(t: Tree, bits: seq<bool>, pos: nat, n: nat): (r: Result<(seq<Byte>, nat)>)
    ensures r.Ok? ==> |r.value.0| == n
  {
    if n == 0 then Ok(([], pos))
    else match DecodeN(t, bits, pos, n - 1)
      case Err(e) => Err(e)
      case Ok((out, p)) =>
        match DecodeSymbol(t, bits, p)
        case None => Err(InvalidCompressedContent)
        case Some((c, q)) => Ok((out + [c], q))
  }

  /** `decompress` on a container read in pages of `page` bytes. An empty
      container gives no output; otherwise the pages are decoded. */
  function Decompressed(container: seq<bv8>, page: nat): Result<seq<Byte>>
    requires page >= MinPage
  {
    if |container| == 0 then Ok([]) else DecodePages(Padded(container, page), page)
  }

  /** The decoder on the zero-padded pages of a non-empty container. A zero
      header gives no output. The tree must lie in the first page. Because
      the source refills its page as soon as the last bit of a page is used,
      and fails when no byte is left to read, the decoder may use every bit
      of the pages except the last. */
  function DecodePages(padded: seq<bv8>, page: nat): Result<seq<Byte>>
    requires page >= MinPage && |padded| >= page
  {
    var first := padded[..page];
    var n := FromBigEndian(first[..4]);
    if n == 0 then Ok([])
    else match ReadTree(PageBits(first), 32)
      case None => Err(MalformedTree)
      case Some((t, pos)) =>
        Outcome(DecodeN(t, Usable(padded), pos, n))
  }

  /** The bits of the pages the decoder may use: all but the last. */
  function Usable(padded: seq<bv8>): (r: seq<bool>)
    requires |padded| > 0
    ensures |r| == 8 * |padded| - 1
  {
    BytesToBits(padded)[..8 * |padded| - 1]
  }

  /** The decoded symbols, without the position after them. */
  function Outcome(r: Result<(seq<Byte>, nat)>): Result<seq<Byte>>
  {
    match r
    case Err(e) => Err(e)
    case Ok((out, _)) => Ok(out)
  }

  // ---------------------------------------------------------------------
  // the built tree covers the input and fits in the first page

  lemma CountIn(s: seq<Byte>, i: nat)
    requires i < |s|
    ensures Count(s, s[i]) > 0
    decreases |s|
  {
    if i < |s| - 1 {
      CountIn(s[..|s| - 1], i);
    }
  }

  /** Every byte of a non-empty input has a code in the built tree. */
  lemma BuiltCovers(input: seq<Byte>)
    requires |input| > 0
    ensures BuildTree(input).Some? && Covers(Codes(BuildTree(input).value), input)
  {
    BuildTreeSpec(input);
    var t := BuildTree(input).value;
    CodeTableKeys(t, []);
    forall i | 0 <= i < |input|
      ensures input[i] in Codes(t)
    {
      CountIn(input, i);
      assert Symbols(t)[input[i]] == 1;
    }
  }

  /** The header and the stored tree end before the last bit of a page of
      MinPage bytes, so `tree_dump` and `tree_read` never leave the first
      page, the last leaf's second byte included. */
  lemma DumpFits(input: seq<Byte>)
    requires |input| > 0
    ensures BuildTree(input).Some? && 32 + |DumpBits(BuildTree(input).value)| < 8 * MinPage
  {
    var t := BuildTree(input).value;
    BuildTreeSize(input);
    DumpLength(t);
    LeavesOutnumberInternals(t);
  }

  // ---------------------------------------------------------------------
  // decoding the payload

  /** The walk stops short when the bits end one bit before the end of a
      path to a leaf. */
  lemma {:induction false} DecodeTruncated(t: Tree, bits: seq<bool>, pos: nat, p: seq<bool>, c: Byte)
    requires LeafAt(t, p, c) && pos <= |bits| && pos + |p| == |bits| + 1
    requires bits[pos..] == p[..|p| - 1]
    ensures DecodeSymbol(t, bits, pos) == None
    decreases |p|
  {
    match t
    case Leaf(_, _) =>
      assert false;
    case Internal(_, l, r) =>
      if pos < |bits| {
        assert bits[pos] == p[0];
        assert bits[pos + 1..] == p[1..][..|p| - 2];
        DecodeTruncated(if p[0] then r else l, bits, pos + 1, p[1..], c);
      }
  }

  /** The code of every covered byte leads to its leaf. */
  lemma CodeLeaf(t: Tree, c: Byte)
    requires c in Codes(t)
    ensures LeafAt(t, Codes(t)[c], c)
  {
    CodeTablePaths(t, [], c);
    assert Codes(t)[c][0..] == Codes(t)[c];
  }

  /** The last code of a payload and the payload before it. */
  lemma EncodeSplit(bits: seq<bool>, pos: nat, codes: map<Byte, seq<bool>>, s: seq<Byte>)
    requires s != [] && Covers(codes, s)
    requires pos + |Encode(codes, s)| <= |bits| && bits[pos..pos + |Encode(codes, s)|] == Encode(codes, s)
    ensures Covers(codes, s[..|s| - 1])
    ensures var e := |Encode(codes, s[..|s| - 1])|;
      bits[pos..pos + e] == Encode(codes, s[..|s| - 1]) &&
      bits[pos + e..pos + |Encode(codes, s)|] == codes[s[|s| - 1]]
  {
    EncodeLast(codes, s);
    SliceSplit(bits, pos, Encode(codes, s[..|s| - 1]), codes[s[|s| - 1]]);
  }

  /** The payload of s is the payload of s without its last byte, then that
      byte's code. */
  lemma EncodeLast(codes: map<Byte, seq<bool>>, s: seq<Byte>)
    requires s != [] && Covers(codes, s)
    ensures Covers(codes, s[..|s| - 1])
    ensures Encode(codes, s) == Encode(codes, s[..|s| - 1]) + codes[s[|s| - 1]]
  {
    var p := s[..|s| - 1];
    forall i | 0 <= i < |p|
      ensures p[i] in codes
    {
      assert p[i] == s[i];
    }
  }

  /** Every code of the table is a path to the leaf of its byte. */
  predicate Leads(t: Tree, codes: map<Byte, seq<bool>>)
  {
    forall c :: c in codes ==> LeafAt(t, codes[c], c)
  }

  /** The code table of a tree leads to its leaves. */
  lemma CodesLead(t: Tree)
    ensures Leads(t, Codes(t))
  {
    forall c | c in Codes(t)
      ensures LeafAt(t, Codes(t)[c], c)
    {
      CodeLeaf(t, c);
    }
  }

  /** Decoding the concatenated codes of s gives s back and stops right
      after them. */
  lemma {:induction false} DecodeEncode(t: Tree, codes: map<Byte, seq<bool>>, bits: seq<bool>, pos: nat, s: seq<Byte>)
    requires Leads(t, codes) && Covers(codes, s)
    requires pos + |Encode(codes, s)| <= |bits| && bits[pos..pos + |Encode(codes, s)|] == Encode(codes, s)
    ensures DecodeN(t, bits, pos, |s|) == Ok((s, pos + |Encode(codes, s)|))
    decreases |s|
  {
    if s != [] {
      var p, x := s[..|s| - 1], s[|s| - 1];
      EncodeSplit(bits, pos, codes, s);
      DecodeEncode(t, codes, bits, pos, p);
      assert LeafAt(t, codes[x], x);
      DecodeExtend(t, bits, pos, p, x, pos + |Encode(codes, p)|, codes[x]);
      assert p + [x] == s;
      EncodeLast(codes, s);
    }
  }

  /** One more symbol: after the symbols p, which end at q, the walk reads a
      path to the leaf of x. */
  lemma DecodeExtend(t: Tree, bits: seq<bool>, pos: nat, p: seq<Byte>, x: Byte, q: nat, code: seq<bool>)
    requires DecodeN(t, bits, pos, |p|) == Ok((p, q)) && LeafAt(t, code, x)
    requires q + |code| <= |bits| && bits[q..q + |code|] == code
    ensures DecodeN(t, bits, pos, |p| + 1) == Ok((p + [x], q + |code|))
  {
    DecodeFollow(t, bits, q, code, x);
    DecodeStep(t, bits, pos, |p|, p, q, x, q + |code|);
  }

  /** One more iteration of the decoder's outer loop. */
  lemma DecodeStep(t: Tree, bits: seq<bool>, pos: nat, n: nat, out: seq<Byte>, p: nat, c: Byte, q: nat)
    requires DecodeN(t, bits, pos, n) == Ok((out, p)) && DecodeSymbol(t, bits, p) == Some((c, q))
    ensures DecodeN(t, bits, pos, n + 1) == Ok((out + [c], q))
  {
  }

  // ---------------------------------------------------------------------
  // the round trip

  /** The number of bits `tree_write_compressed` emits for the input. */
  function StreamLength(input: seq<Byte>): nat
    requires |input| < UintLimit
  {
    if |input| == 0 then 0
    else
      BuiltCovers(input);
      |StreamBits(BuildTree(input).value, input)|
  }

  /** The padded pages of a packed stream hold the stream and zero bits. */
  lemma PaddedStream(s: seq<bool>, page: nat)
    requires page > 0
    ensures 8 * |Padded(Pack(s), page)| >= |s|
    ensures BytesToBits(Padded(Pack(s), page)) == s + Zeros(8 * |Padded(Pack(s), page)| - |s|)
  {
    PackBits(s);
    PaddedBits(Pack(s), s, page);
  }

  /** The padded pages end exactly where a non-empty stream ends if and only
      if the stream fills a whole number of pages. */
  lemma PaddedLength(s: seq<bool>, page: nat)
    requires page > 0 && |s| > 0
    ensures 8 * |Padded(Pack(s), page)| == |s| <==> |s| % (8 * page) == 0
  {
    PaddedSize(Pack(s), page);
    WholePages(|s|, page, |Pack(s)|, PageCount(|Pack(s)|, page));
  }

  /** n bits packed into x = ceil(n / 8) bytes and padded to k pages fill
      them exactly when n is a multiple of the page size in bits. */
  lemma WholePages(n: nat, page: nat, x: nat, k: nat)
    requires page > 0 && n > 0 && x == (n + 7) / 8 && k == (x + page - 1) / page
    ensures 8 * (k * page) == n <==> n % (8 * page) == 0
  {
    DivOfMultiple(k, 8 * page, 0);
    assert k * (8 * page) == 8 * (k * page);
    if n % (8 * page) == 0 {
      var j := n / (8 * page);
      assert n == 8 * (j * page) + 0;
      DivOfMultiple(j * page, 8, 7);
      DivOfMultiple(j, page, page - 1);
    }
  }

  /** The pages `decompress` reads for a packed non-empty stream s hold the
      stream and zero bits, and end right at the end of the stream exactly
      when it fills a whole number of pages. */
  lemma StreamInPages(s: seq<bool>, page: nat) returns (p: seq<bv8>)
    requires page > 0 && |s| > 0
    ensures |Pack(s)| > 0 && p == Padded(Pack(s), page) && page <= |p|
    ensures PageHolds(p, s)
    ensures 8 * |p| == |s| <==> |s| % (8 * page) == 0
  {
    PackBits(s);
    p := Padded(Pack(s), page);
    PaddedStream(s, page);
    PaddedLength(s, page);
  }

  /** The first l bits of the first L bits of s followed by zeros. */
  lemma PrefixOfPadded(s: seq<bool>, m: nat, l: nat, L: nat)
    requires l <= |s| && l <= L <= |s| + m
    ensures (s + Zeros(m))[..L][..l] == s[..l]
  {
  }

  /** The header `decompress` reads from the first page is the one the
      stream starts with. */
  lemma HeaderAt(first: seq<bv8>, s: seq<bool>, l: nat, n: nat)
    requires |first| >= 4 && 32 <= l <= |s| && l <= 8 * |first| && BytesToBits(first)[..l] == s[..l]
    requires n < UintLimit && s[..32] == Header(n)
    ensures FromBigEndian(first[..4]) == n
  {
    HeaderBits(first, s, l);
    BytesToBitsInjective(first[..4], BigEndian(n));
    FromBigEndianInverse(n);
  }

  /** The first four bytes of a page hold the first 32 bits. */
  lemma HeaderBits(first: seq<bv8>, s: seq<bool>, l: nat)
    requires |first| >= 4 && 32 <= l <= |s| && l <= 8 * |first| && BytesToBits(first)[..l] == s[..l]
    ensures BytesToBits(first[..4]) == s[..32]
  {
    BytesToBitsPrefix(first, 4);
    PrefixPrefix(BytesToBits(first), l, 32);
    PrefixPrefix(s, l, 32);
  }

  /** A prefix of a prefix. */
  lemma PrefixPrefix(a: seq<bool>, l: nat, k: nat)
    requires k <= l <= |a|
    ensures a[..l][..k] == a[..k]
  {
  }

  /** The tree `decompress` reads from the first page (bits w, all of the
      page's bits x but the last) is the one the stream holds after its
      header, without weights. */
  lemma TreeAt(w: seq<bool>, x: seq<bool>, s: seq<bool>, l: nat, t: Tree)
    requires |x| > 0 && w == x[..|x| - 1]
    requires 32 + |DumpBits(t)| < |x| && 32 + |DumpBits(t)| <= l <= |s| && l <= |x|
    requires x[..l] == s[..l] && s[32..32 + |DumpBits(t)|] == DumpBits(t)
    ensures ReadTree(w, 32) == Some((Strip(t), 32 + |DumpBits(t)|))
  {
    InitialSlice(x, s, l, 32, 32 + |DumpBits(t)|);
    ReadDump(t, w, 32);
  }

  /** A stretch of the common start of x and s, seen in x without its last
      element. */
  lemma InitialSlice(x: seq<bool>, s: seq<bool>, l: nat, a: nat, b: nat)
    requires a <= b <= l <= |s| && l <= |x| && b < |x| && x[..l] == s[..l]
    ensures x[..|x| - 1][a..b] == s[a..b]
  {
    forall i | a <= i < b
      ensures x[i] == s[i]
    {
      assert x[..l][i] == s[..l][i];
    }
  }

  /** The three parts of the stream. */
  lemma StreamParts(h: seq<bool>, d: seq<bool>, e: seq<bool>)
    ensures (h + d + e)[..|h|] == h
    ensures (h + d + e)[|h|..|h| + |d|] == d
    ensures (h + d + e)[|h| + |d|..|h| + |d| + |e|] == e
  {
  }

  /** A payload holds nothing when the tree is a single leaf. */
  lemma {:induction false} LeafEncode(t: Tree, s: seq<Byte>)
    requires t.Leaf? && Covers(Codes(t), s)
    ensures Encode(Codes(t), s) == []
    decreases |s|
  {
    if s != [] {
      LeafEncode(t, s[..|s| - 1]);
      EmptyCode(t, s[|s| - 1]);
    }
  }

  /** The tree `compress` builds for a non-empty input, and the container
      it writes. */
  lemma BuiltStream(input: seq<Byte>) returns (t: Tree)
    requires 0 < |input| < UintLimit
    ensures BuildTree(input) == Some(t) && Covers(Codes(t), input)
    ensures 32 + |DumpBits(t)| < 8 * MinPage
    ensures Compressed(input) == Pack(StreamBits(t, input))
    ensures StreamLength(input) == |StreamBits(t, input)|
  {
    BuiltCovers(input);
    t := BuildTree(input).value;
    DumpFits(input);
  }

  /** The decoder's outer loop fails when the walk for a symbol fails. */
  lemma DecodeStop(t: Tree, bits: seq<bool>, pos: nat, n: nat, out: seq<Byte>, p: nat)
    requires DecodeN(t, bits, pos, n) == Ok((out, p)) && DecodeSymbol(t, bits, p) == None
    ensures DecodeN(t, bits, pos, n + 1) == Err(InvalidCompressedContent)
  {
  }

  /** Once the decoder fails, it fails for every larger count of symbols. */
  lemma {:induction false} DecodeErrFrom(t: Tree, bits: seq<bool>, pos: nat, m: nat, n: nat)
    requires m <= n && DecodeN(t, bits, pos, m) == Err(InvalidCompressedContent)
    ensures DecodeN(t, bits, pos, n) == Err(InvalidCompressedContent)
    decreases n
  {
    if n > m {
      DecodeErrFrom(t, bits, pos, m, n - 1);
    }
  }

  /** The first L bits of s followed by zeros start with s, or with the
      first L bits of s if s is longer. */
  lemma PaddedPrefix(w: seq<bool>, y: seq<bool>, s: seq<bool>, L: nat)
    requires L <= |w| && |s| <= |w| && w == s + Zeros(|w| - |s|) && y == w[..L]
    ensures var l := if |s| < L then |s| else L; y[..l] == s[..l]
  {
    var l := if |s| < L then |s| else L;
    PrefixOfPadded(s, |w| - |s|, l, L);
  }

  /** The stream ends with the payload, right after the header and the
      tree. */
  lemma StreamTail(t: Tree, input: seq<Byte>)
    requires |input| < UintLimit && Covers(Codes(t), input)
    ensures 32 + |DumpBits(t)| + |Encode(Codes(t), input)| == |StreamBits(t, input)|
    ensures StreamBits(t, input)[32 + |DumpBits(t)|..] == Encode(Codes(t), input)
  {
    assert StreamBits(t, input) == (Header(|input|) + DumpBits(t)) + Encode(Codes(t), input);
  }

  /** The tail e of s, inside all but the last (u) of the n bits w of s
      followed by zeros, when there are zeros. */
  lemma TailKept(w: seq<bool>, u: seq<bool>, n: nat, s: seq<bool>, e: seq<bool>, pos: nat)
    requires |w| == n && |s| < n && w == s + Zeros(n - |s|) && u == w[..n - 1]
    requires pos + |e| == |s| && s[pos..] == e
    ensures Embedded(u, pos, e)
  {
    forall i | pos <= i < pos + |e|
      ensures u[i] == e[i - pos]
    {
      assert w[i] == s[i];
    }
  }

  /** The tail e of s, inside all but the last (u) of the n bits w of s,
      when s fills w: e without its last bit. */
  lemma TailCut(w: seq<bool>, u: seq<bool>, n: nat, s: seq<bool>, e: seq<bool>, pos: nat)
    requires |e| > 0 && pos + |e| == |s| && s[pos..] == e
    requires |w| == n && n == |s| && w == s + Zeros(n - |s|) && u == w[..n - 1]
    ensures pos + |e| == |u| + 1 && u[pos..] == e[..|e| - 1]
  {
    assert s + Zeros(0) == s;
  }

  /** The header and the tree `decompress` reads from the first page of the
      stream of a tree that covers a non-empty input and fits in the first
      page. */
  lemma ContainerHead(t: Tree, input: seq<Byte>, page: nat, p: seq<bv8>)
    requires page >= MinPage && 0 < |input| < UintLimit && Covers(Codes(t), input)
    requires 32 + |DumpBits(t)| < 8 * MinPage
    requires page <= |p| && PageHolds(p, StreamBits(t, input))
    ensures FromBigEndian(p[..page][..4]) == |input|
    ensures ReadTree(PageBits(p[..page]), 32) == Some((Strip(t), 32 + |DumpBits(t)|))
  {
    var s := StreamBits(t, input);
    BytesToBitsPrefix(p, page);
    PaddedPrefix(BytesToBits(p), BytesToBits(p[..page]), s, 8 * page);
    StreamParts(Header(|input|), DumpBits(t), Encode(Codes(t), input));
    var l := if |s| < 8 * page then |s| else 8 * page;
    HeaderAt(p[..page], s, l, |input|);
    TreeAt(PageBits(p[..page]), BytesToBits(p[..page]), s, l, t);
  }

  /** `decompress` on a non-empty container whose first page's header and
      tree read back: the outcome of decoding the header's count of symbols
      after the tree, from all bits of the padded pages but the last. */
  lemma ContainerDecode(c: seq<bv8>, page: nat, p: seq<bv8>, n: nat, u: Tree, pos: nat)
    requires page >= MinPage && |c| > 0 && p == Padded(c, page) && n > 0
    requires FromBigEndian(p[..page][..4]) == n
    requires ReadTree(PageBits(p[..page]), 32) == Some((u, pos))
    ensures Decompressed(c, page) == Outcome(DecodeN(u, Usable(p), pos, n))
  {
  }

  /** The outcome of a decoding that gives the input. */
  lemma OutcomeOk(r: Result<(seq<Byte>, nat)>, input: seq<Byte>)
    requires r.Ok? && r.value.0 == input
    ensures Outcome(r) == Ok(input)
  {
  }

  /** The outcome of a decoding that fails. */
  lemma OutcomeErr(r: Result<(seq<Byte>, nat)>, e: Error)
    requires r == Err(e)
    ensures Outcome(r) == Err(e)
  {
  }

  /** `decompress` gives back what `compress` was given, on every input whose
      stream does not fill a whole number of pages. */
  lemma RoundTrip(input: seq<Byte>, page: nat)
    requires page >= MinPage && |input| < UintLimit
    requires |input| == 0 || StreamLength(input) % (8 * page) != 0
    ensures Decompressed(Compressed(input), page) == Ok(input)
  {
    if |input| > 0 {
      var t := BuiltStream(input);
      StreamRoundTrip(t, input, page);
    }
  }

  /** The round trip for the stream of any tree that covers the input and
      fits in the first page. */
  lemma StreamRoundTrip(t: Tree, input: seq<Byte>, page: nat)
    requires page >= MinPage && 0 < |input| < UintLimit && Covers(Codes(t), input)
    requires 32 + |DumpBits(t)| < 8 * MinPage
    requires |StreamBits(t, input)| % (8 * page) != 0
    ensures Decompressed(Pack(StreamBits(t, input)), page) == Ok(input)
  {
    var s := StreamBits(t, input);
    var p := StreamInPages(s, page);
    ContainerHead(t, input, page, p);
    ContainerDecode(Pack(s), page, p, |input|, Strip(t), 32 + |DumpBits(t)|);
    PayloadKeptUsable(t, input, p);
    DecodeOutcome(t, input, Usable(p), 32 + |DumpBits(t)|);
  }

  /** When the pages go on past the stream, the payload lies whole in the
      bits the decoder may use. */
  lemma PayloadKeptUsable(t: Tree, input: seq<Byte>, p: seq<bv8>)
    requires |input| < UintLimit && Covers(Codes(t), input)
    requires PageHolds(p, StreamBits(t, input)) && 8 * |p| > |StreamBits(t, input)|
    ensures Embedded(Usable(p), 32 + |DumpBits(t)|, Encode(Codes(t), input))
  {
    StreamTail(t, input);
    TailKept(BytesToBits(p), Usable(p), 8 * |p|, StreamBits(t, input), Encode(Codes(t), input), 32 + |DumpBits(t)|);
  }

  /** When the pages end with the stream, the decoder fails on the last
      code. */
  lemma PayloadShort(t: Tree, input: seq<Byte>, p: seq<bv8>)
    requires 0 < |input| < UintLimit && Covers(Codes(t), input)
    requires PageHolds(p, StreamBits(t, input)) && 8 * |p| == |StreamBits(t, input)|
    ensures DecodeN(Strip(t), Usable(p), 32 + |DumpBits(t)|, |input|) == Err(InvalidCompressedContent)
  {
    BoundaryInternal(t, input, p);
    EncodeNonEmpty(t, input);
    PayloadCutUsable(t, input, p);
    DecodeShort(t, input, Usable(p), 32 + |DumpBits(t)|);
  }

  /** A stream that fills its pages exactly comes from a tree with more
      than one leaf: a single leaf dumps 9 bits and encodes nothing, so its
      stream of 41 bits never ends on a byte boundary. */
  lemma BoundaryInternal(t: Tree, input: seq<Byte>, p: seq<bv8>)
    requires 0 < |input| < UintLimit && Covers(Codes(t), input)
    requires 8 * |p| == |StreamBits(t, input)|
    ensures t.Internal?
  {
    if t.Leaf? {
      LeafStream(t, input);
      assert false;
    }
  }

  /** The stream of a single-leaf tree: the header and the nine bits of the
      leaf, and no payload. */
  lemma LeafStream(t: Tree, input: seq<Byte>)
    requires t.Leaf? && |input| < UintLimit && Covers(Codes(t), input)
    ensures |StreamBits(t, input)| == 41
  {
    LeafEncode(t, input);
    DumpLength(t);
  }

  /** Only the last bit of the payload falls outside the bits the decoder
      may use when the stream fills its pages exactly. */
  lemma PayloadCutUsable(t: Tree, input: seq<Byte>, p: seq<bv8>)
    requires |input| < UintLimit && Covers(Codes(t), input) && |Encode(Codes(t), input)| > 0
    requires PageHolds(p, StreamBits(t, input)) && 8 * |p| == |StreamBits(t, input)|
    ensures 32 + |DumpBits(t)| + |Encode(Codes(t), input)| == |Usable(p)| + 1
    ensures Usable(p)[32 + |DumpBits(t)|..] == Encode(Codes(t), input)[..|Encode(Codes(t), input)| - 1]
  {
    StreamTail(t, input);
    TailCut(BytesToBits(p), Usable(p), 8 * |p|, StreamBits(t, input), Encode(Codes(t), input), 32 + |DumpBits(t)|);
  }

  /** The bits x lie whole in bits from pos on. */
  predicate Embedded(bits: seq<bool>, pos: nat, x: seq<bool>)
  {
    pos + |x| <= |bits| && bits[pos..pos + |x|] == x
  }

  /** The outcome of decoding a payload that lies whole in the bits is the
      input itself. */
  lemma DecodeOutcome(t: Tree, input: seq<Byte>, bits: seq<bool>, pos: nat)
    requires Covers(Codes(t), input) && Embedded(bits, pos, Encode(Codes(t), input))
    ensures Outcome(DecodeN(Strip(t), bits, pos, |input|)) == Ok(input)
  {
    DecodePayload(t, input, bits, pos);
    OutcomeOk(DecodeN(Strip(t), bits, pos, |input|), input);
  }

  /** The decoder reads all of a payload that lies whole in its bits. */
  lemma DecodePayload(t: Tree, input: seq<Byte>, bits: seq<bool>, pos: nat)
    requires Covers(Codes(t), input)
    requires pos + |Encode(Codes(t), input)| <= |bits| && bits[pos..pos + |Encode(Codes(t), input)|] == Encode(Codes(t), input)
    ensures DecodeN(Strip(t), bits, pos, |input|) == Ok((input, pos + |Encode(Codes(t), input)|))
  {
    CodeTableStrip(t, []);
    CodesLead(Strip(t));
    DecodeEncode(Strip(t), Codes(t), bits, pos, input);
  }

  /** On an input whose stream fills a whole number of pages `decompress`
      fails: it refills its page after the stream's last bit, finds nothing
      left to read, and reports invalid content before it decodes the last
      byte. */
  lemma BoundaryRejected(input: seq<Byte>, page: nat)
    requires page >= MinPage && 0 < |input| < UintLimit
    requires StreamLength(input) % (8 * page) == 0
    ensures Decompressed(Compressed(input), page) == Err(InvalidCompressedContent)
  {
    var t := BuiltStream(input);
    StreamBoundary(t, input, page);
  }

  /** The boundary failure for the stream of any tree that covers the input
      and fits in the first page. */
  lemma StreamBoundary(t: Tree, input: seq<Byte>, page: nat)
    requires page >= MinPage && 0 < |input| < UintLimit && Covers(Codes(t), input)
    requires 32 + |DumpBits(t)| < 8 * MinPage
    requires |StreamBits(t, input)| % (8 * page) == 0
    ensures Decompressed(Pack(StreamBits(t, input)), page) == Err(InvalidCompressedContent)
  {
    var s := StreamBits(t, input);
    var p := StreamInPages(s, page);
    ContainerHead(t, input, page, p);
    ContainerDecode(Pack(s), page, p, |input|, Strip(t), 32 + |DumpBits(t)|);
    PayloadShort(t, input, p);
    OutcomeErr(DecodeN(Strip(t), Usable(p), 32 + |DumpBits(t)|, |input|), InvalidCompressedContent);
  }

  /** A payload of a tree that is not a single leaf has at least one bit
      per byte. */
  lemma EncodeNonEmpty(t: Tree, input: seq<Byte>)
    requires t.Internal? && |input| > 0 && Covers(Codes(t), input)
    ensures |Encode(Codes(t), input)| > 0
  {
    EmptyCode(t, input[|input| - 1]);
  }

  /** The decoder fails on a payload whose last bit is missing, unless the
      tree is a single leaf (whose codes are empty). */
  lemma DecodeShort(t: Tree, input: seq<Byte>, bits: seq<bool>, pos: nat)
    requires t.Internal? && |input| > 0 && Covers(Codes(t), input)
    requires 0 < |Encode(Codes(t), input)| && pos + |Encode(Codes(t), input)| == |bits| + 1
    requires bits[pos..] == Encode(Codes(t), input)[..|Encode(Codes(t), input)| - 1]
    ensures DecodeN(Strip(t), bits, pos, |input|) == Err(InvalidCompressedContent)
  {
    var codes := Codes(t);
    var pre, x := input[..|input| - 1], input[|input| - 1];
    assert Covers(codes, pre);
    EmptyCode(t, x);
    ShortSplit(bits, pos, Encode(codes, pre), codes[x]);
    var q := pos + |Encode(codes, pre)|;
    DecodePayload(t, pre, bits, pos);
    LastCodeShort(t, bits, q, x);
    DecodeStop(Strip(t), bits, pos, |pre|, pre, q);
    assert pre + [x] == input;
  }

  /** The walk fails on a code whose last bit is missing. */
  lemma LastCodeShort(t: Tree, bits: seq<bool>, q: nat, x: Byte)
    requires x in Codes(t) && Codes(t)[x] != [] && q + |Codes(t)[x]| == |bits| + 1
    requires bits[q..] == Codes(t)[x][..|Codes(t)[x]| - 1]
    ensures DecodeSymbol(Strip(t), bits, q) == None
  {
    CodeTableStrip(t, []);
    CodeLeaf(Strip(t), x);
    DecodeTruncated(Strip(t), bits, q, Codes(t)[x], x);
  }

  /** Bits that hold a + b from pos on, short of the last bit of b. */
  lemma ShortSplit(bits: seq<bool>, pos: nat, a: seq<bool>, b: seq<bool>)
    requires |b| > 0 && pos + |a| + |b| == |bits| + 1 && bits[pos..] == (a + b)[..|a| + |b| - 1]
    ensures bits[pos..pos + |a|] == a && bits[pos + |a|..] == b[..|b| - 1]
  {
    assert bits[pos..pos + |a|] == bits[pos..][..|a|];
    assert bits[pos + |a|..] == bits[pos..][|a|..];
  }
}
