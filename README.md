# Huffman codec — a verified Dafny model

This project models the Huffman compressor and decompressor of `src/huffman.c`
together with the helpers it uses from `src/utils.c`. It proves that the model
does what the program promises.

`compress` does four things:
- It counts the bytes of the input.
- It builds a code tree: one leaf per byte value that occurs, in ascending byte
  order. It then bubble-sorts the active nodes by descending frequency and
  joins the last two, until one node is left.
- It writes a container: the input length as a 4-byte big-endian header, the
  tree in preorder (1 for an internal node; 0 and eight symbol bits for a
  leaf), and the code of every input byte, MSB first.
- It writes the container page by page through a `BUFSIZE` buffer and flushes
  the last partial page.

`decompress` reads the first page, reads the header and the tree from it, and
then walks the tree once per output byte, one bit per edge. It refills its page
as soon as the last bit of a page has been used. A refill that reads nothing is
`INVALID_COMPRESSED_CONTENT`.

## How the model is laid out

| file | module | what it holds |
|---|---|---|
| `types.dfy` | `Types` | `Byte`, `Option`, `Result`, the error kinds |
| `nodes.dfy` | `Nodes` | the `Node` struct as the `Tree` datatype; `nodes_cmp` |
| `bits.dfy` | `Bits` | bits of a byte (MSB first), `Pack`, `BytesToBits` |
| `utils.dfy` | `Utils` | `bytes_to_uint`, `uint_to_bytes`, `calculate_frequencies`, `swap`, bubble `sort` |
| `tree_build.dfy` | `TreeBuild` | `tree_build`, both as a function and in place on an array |
| `codes.dfy` | `Coding` | `tree_get_codes_inner`, and the walk of one symbol |
| `tree_codec.dfy` | `TreeCodec` | `tree_dump` and `tree_read` on a page buffer |
| `paging.dfy` | `Paging` | a page that holds a run of bits; zero-padded pages of a container |
| `huffman.dfy` | `Huffman` | the container and the decoder as functions; round trip and boundary lemmas |
| `compressor.dfy` | `Compressor` | `compress` and `tree_write_compressed` as methods |
| `decompressor.dfy` | `Decompressor` | `decompress` and `tree_write_decompressed` as methods |
| `sample.dfy` | `Sample` | the input `"aabbc"` worked through |

The code that changes state in place is modelled as methods over arrays, each
proved against a specification function:
- `sort`, `swap`, `tree_build`, `calculate_frequencies`, `uint_to_bytes` and
  `bytes_to_uint`.
- `tree_dump` and `tree_read`, with a bit cursor.
- The encode loop, its page flushes and its final flush.
- The decode walk, its page refills and the `out_buf` flushes.

The recursive code-table walk (`tree_get_codes_inner`) is a pure function
here. The decoder's outer `for` loop (src/huffman.c:302) is the `for` loop of
`Decompressor.WriteDecompressed`. That loop is proved against the recursive
specification function `Huffman.DecodeN`.

Specification functions:
- `Huffman.Compressed` is the container as a function of the input.
- `Huffman.Decompressed` is what `decompress` makes of any container.
- `Compressor.Compress` and `Decompressor.Decompress` are proved equal to them.
- `Huffman.RoundTrip` and `Huffman.BoundaryRejected` relate the two functions.

Bits are `seq<bool>`, with true for a 1. Container bytes are `bv8`; input bytes
are `Byte` (0..255). `BUFSIZE` is a parameter `page`, at least `MinPage` = 324.
That is the smallest page for which the header and the largest possible tree
(255 internal nodes and 256 leaves, 2559 bits) lie before the last bit of the
first page. `tree_read` needs that, because a leaf also reads the byte after its
first symbol bit.

### Where the code and the specification differ (the model follows the code)

- **Round trip.** It does not hold for every input. When the stream's length in
  bits is a whole number of pages, `tree_write_compressed` writes no trailing
  partial page (src/huffman.c:274). `tree_write_decompressed` then refills after
  the stream's last bit, before it decodes the last symbol, finds nothing, and
  fails (src/huffman.c:309-312). `Huffman.RoundTrip` excludes exactly that case.
  `Huffman.BoundaryRejected` proves the failure.
- **Truncation inside a page.** It is not detected. The first read and every
  refill zero-fill the unread part of the page (src/huffman.c:63, 310). The
  decoder therefore decodes the zeros as bits, so a container cut inside a
  page can decode without error. Only a refill that reads nothing fails.
- **A tree that runs past the first page.** It is not reported as
  `InvalidCompressedContent`. `tree_read` has no bounds check and reads outside
  `in_buf` (src/huffman.c:214-234). The model reports this as the separate
  error `MalformedTree`.

## Model

| member | source | states |
|---|---|---|
| Nodes.NodesCmp | src/huffman.c:104-110 | 1 exactly when x is less frequent than y, 0 exactly on equal frequencies, -1 exactly when y is less frequent |
| Nodes.LeavesOutnumberInternals | src/huffman.c:132-137 | a tree whose internal nodes all have two children has one leaf more than it has internal nodes |
| Utils.BigEndian | src/utils.c:39-46 | a value below 2^32 is written as exactly four bytes (their value is in FromBigEndianInverse) |
| Utils.FromBigEndian | src/utils.c:7-16 | four bytes read back as a value below 2^32 |
| Utils.FromBigEndianInverse | src/utils.c:7-16 | reading back the four header bytes written for v < 2^32 gives v |
| Utils.BigEndianInverse | src/utils.c:39-46 | every 4-byte header is the encoding of the value read from it, so the header codec is a bijection |
| Utils.UintToBytes | src/utils.c:39-46 | to[0..3] becomes v big-endian, most significant byte first, and the rest of the buffer is unchanged |
| Utils.BytesToUint | src/utils.c:7-16 | returns the big-endian value of value[0..3] |
| Utils.Frequencies | src/utils.c:18-26 | the table has one entry per byte value, 256 in all (the counts are in FrequenciesSnoc and CalculateFrequencies) |
| Utils.FrequenciesTotal | src/utils.c:18-26 | the frequency table's entries add up to the input length |
| Utils.FrequenciesSnoc | src/utils.c:23-24 | one more byte b adds one to entry b of the table and changes no other entry |
| Utils.CalculateFrequencies | src/utils.c:18-26 | returns the input length and adds to every to[c] the number of occurrences of c |
| Utils.Swap | src/utils.c:48-54 | exchanges a[i] and a[j] and changes nothing else |
| Utils.StepPerm | src/utils.c:35-36 | one compare-and-swap permutes the nodes |
| Utils.StepStable | src/utils.c:35-36 | one compare-and-swap keeps the order of the nodes of every frequency, because it never swaps equal frequencies |
| Utils.StepShape | src/utils.c:35-36 | after one compare-and-swap, slot j is at least as frequent as slot j+1, and no other slot changes |
| Utils.PassMin | src/utils.c:34-36 | after n comparisons of an inner pass, slot n holds a least frequent node of slots 0..n, and the slots after n are unchanged |
| Utils.PassesSorted | src/utils.c:33-36 | after i outer passes the last i slots are in descending order and no earlier slot is less frequent than them |
| Utils.PassesPerm | src/utils.c:33-36 | any number of outer passes permutes the nodes |
| Utils.PassesStable | src/utils.c:33-36 | any number of outer passes keeps the relative order of equally frequent nodes |
| Utils.BubbleSort | src/utils.c:28-37 | the sort keeps the number of nodes (order, permutation and stability are in BubbleSortSpec) |
| Utils.BubbleSortPerm | src/utils.c:28-37 | `sort` permutes its input |
| Utils.BubbleSortSpec | src/utils.c:28-37 | after `sort`, frequencies are non-increasing, no adjacent pair has `nodes_cmp` = 1, the result is a permutation, and equally frequent nodes keep their order (stable) |
| Utils.Sort | src/utils.c:28-37 | the in-place bubble sort leaves BubbleSort of a[0..len-1] in a[0..len-1], and the slots from len on are unchanged |
| TreeBuild.Leaves | src/huffman.c:123-125 | the loop over the first n byte values makes at most n leaves |
| TreeBuild.Merge | src/huffman.c:127-137 | one sort-and-join leaves one node fewer |
| TreeBuild.BuildTree | src/huffman.c:120-121 | there is no tree exactly when the input is empty |
| TreeBuild.LeavesCounted | src/huffman.c:123-125 | every initial node is a leaf for a byte value with a non-zero count, weighted by that count |
| TreeBuild.LeavesAscending | src/huffman.c:123-125 | the initial leaves are in strictly ascending byte order |
| TreeBuild.LeavesComplete | src/huffman.c:123-125 | every byte value with a non-zero count has its leaf among the initial nodes |
| TreeBuild.LeavesSymbols | src/huffman.c:123-125 | each byte value occurs once among the initial leaves if its count is non-zero, and otherwise not at all |
| TreeBuild.LeavesWeights | src/huffman.c:123-125 | the initial leaves weigh as much as the table entries, and each is weighted by its own count |
| TreeBuild.LeavesNonEmpty | src/huffman.c:120-125 | a non-empty input gives at least one leaf |
| TreeBuild.JoinKeeps | src/huffman.c:132-137 | joining the last two nodes keeps the multiset of leaf symbols and the total weight |
| TreeBuild.MergeKeeps | src/huffman.c:126-138 | one sort-and-join keeps the leaf symbols and the total weight, with one node fewer |
| TreeBuild.MergeConsistent | src/huffman.c:126-138 | after a sort-and-join, every node still weighs the sum of its children, and its leaves still carry their counts |
| TreeBuild.CombineSpec | src/huffman.c:126-139 | the final root holds exactly the leaves of the initial nodes, weighs their total, and keeps the weight invariants |
| TreeBuild.BuildTreeSpec | src/huffman.c:112-140 | for a non-empty input, the root has one leaf per byte value that occurs and none other, weighs the input length, every internal node weighs the sum of its children, and every leaf weighs its byte's count |
| TreeBuild.BuildTreeSize | src/huffman.c:123-139 | the tree has at most 256 leaves |
| TreeBuild.CollectLeaves | src/huffman.c:123-125 | the loop over the table fills nodes[0..count-1] with the initial leaves and leaves the slots from count on unchanged |
| TreeBuild.MergeStep | src/huffman.c:127-137 | one iteration in place: nodes[0..count-2] becomes the sort of nodes[0..count-1] with its last two slots joined into slot count-2, and the slots from count on are unchanged |
| TreeBuild.BuildTreeInPlace | src/huffman.c:112-140 | the in-place build returns the input length and the tree of the specification function (none for an empty input) |
| Coding.CodeTableKeys | src/huffman.c:149-170 | the code table has an entry exactly for the symbols of the tree |
| Coding.CodeTablePaths | src/huffman.c:158-169 | each code extends the path so far and leads from the node to the leaf of its symbol ('0' = left, '1' = right) |
| Coding.CodeTableLength | src/huffman.c:149-170 | a code is no longer than the path so far plus the number of internal nodes |
| Coding.CodesPrefixFree | src/huffman.c:149-170 | no code of a symbol is a prefix of the code of another symbol |
| Coding.EmptyCode | src/huffman.c:163-168 | a code is empty exactly when the tree is a single leaf |
| Coding.CodeTableStrip | src/huffman.c:149-170 | codes depend only on the tree's shape and symbols, not on its weights |
| Coding.DecodeSymbol | src/huffman.c:303-315 | a walk that reaches a leaf stops within the bits, or, at a single-leaf root, uses no bit |
| Coding.DecodeFollow | src/huffman.c:305-315 | the walk along bits that spell the path to a leaf returns that leaf's symbol and stops right after the path |
| Coding.DecodePrefix | src/huffman.c:305-315 | a walk that succeeds does not depend on the bits after it |
| TreeCodec.DumpLength | src/huffman.c:172-190 | the stored tree takes one bit per internal node and nine per leaf |
| TreeCodec.ReadDump | src/huffman.c:214-234 | reading where a tree was dumped gives back its shape and symbols, and ends exactly where the dump ended |
| TreeCodec.TreeDump | src/huffman.c:172-190 | the recursive dump ORs the preorder bits of the tree into the buffer from the cursor on, only ORs, and returns the cursor after them |
| TreeCodec.DumpInternal | src/huffman.c:179-183 | an internal node: a 1 bit, then the left subtree, then the right one |
| TreeCodec.DumpLeaf | src/huffman.c:184-189 | a leaf: a 0 bit, then the symbol's 8 bits MSB first, ORed across two bytes |
| TreeCodec.SetBit | src/huffman.c:180 | `to[bp/8] \|= 128u >> bp%8` ORs exactly a 1 at bit bp |
| TreeCodec.LeafBits | src/huffman.c:185-188 | the two ORs of a leaf's symbol byte, shifted right and left, put a 0 and the 8 symbol bits at the cursor |
| TreeCodec.ReadTree | src/huffman.c:214-234 | a stored tree that is read takes at least one bit and ends within the bits |
| TreeCodec.TreeRead | src/huffman.c:214-234 | the recursive read returns the tree that the bits of the page before its last bit spell from the cursor, with the cursor after it, or none |
| TreeCodec.ReadInternal | src/huffman.c:223-225 | at a 1 bit: the left subtree from the next bit, then the right one from where the left one ended |
| TreeCodec.ReadLeafNode | src/huffman.c:226-231 | at a 0 bit: a leaf whose symbol is the next 8 bits |
| TreeCodec.ReadByteAt | src/huffman.c:228-229 | `in_buf[q] << s \| in_buf[q+1] >> (8-s)` is the byte whose bits are the 8 page bits from bp on |
| Bits.MaskIsShift | src/huffman.c:180 | the bit mask of position k is `128u >> k` |
| Bits.Pack | src/huffman.c:274-280 | bits pack MSB first into (n+7)/8 bytes |
| Bits.PackBits | src/huffman.c:263-264 | packing bits MSB first and reading them back gives the bits followed by zero padding |
| Bits.PackBytes | src/huffman.c:263-264 | packing the bits of bytes gives back those bytes |
| Bits.BytesToBitsInjective | src/huffman.c:306 | two byte strings of the same length with the same bits are equal |
| Bits.ValueOfBitsOf | src/huffman.c:186-187 | the 8 MSB-first bits of a symbol read back as that symbol |
| Paging.OrsInPage | src/huffman.c:263-265 | ORing bits in at the cursor of a page that is zero from the cursor on appends them to what the page holds |
| Paging.PageSkip | src/huffman.c:263-265 | a 0 bit is appended by moving the cursor alone |
| Paging.PageFull | src/huffman.c:266-267 | a page whose cursor reached its end holds exactly the bits written since the last flush |
| Paging.ClearPage | src/huffman.c:268 | after the clear, every byte of the buffer is zero |
| Paging.PageCleared | src/huffman.c:268-269 | a cleared page with the cursor at 0 holds no bits |
| Paging.PageFront | src/huffman.c:253-254 | a page holding the header bytes and zeros after them holds the header bits |
| Paging.FinalFlush | src/huffman.c:274-280 | the flushed pages plus the first (bp+7)/8 bytes of the last page are the packed stream |
| Paging.NoFinalFlush | src/huffman.c:274 | when the cursor is at 0, the flushed pages alone are the packed stream |
| Paging.Padded | src/huffman.c:310-313 | the container read in pages starts with the container and spans at least one page |
| Paging.PaddedSize | src/huffman.c:309-313 | the container read in pages spans a whole number of pages |
| Paging.PaddedZeros | src/huffman.c:310-311 | the container read in pages is the container followed by zeros |
| Paging.PageRead | src/huffman.c:310-313 | a buffer cleared and then filled from a page-aligned offset is that page of the zero-padded container |
| Paging.RefillEnd | src/huffman.c:311-312 | when a page read from offset start reaches the container's end, start + page is the padded length |
| Paging.BufferBit | src/huffman.c:306 | the bit the walk tests in the buffer is the bit at the global position in the padded container |
| Huffman.BuiltCovers | src/huffman.c:257-261 | every input byte has a code in the table of the built tree |
| Huffman.DumpFits | src/huffman.c:253-256 | the header and the built tree end before the last bit of a first page of `MinPage` bytes |
| Huffman.CodeLeaf | src/huffman.c:158-169 | the code of c leads from the root to the leaf of c |
| Huffman.LeafEncode | src/huffman.c:163-168 | with a single-leaf tree the payload is empty |
| Huffman.DecodeEncode | src/huffman.c:302-316 | decoding the concatenated codes of s (by any table whose codes lead to their leaves) returns s and stops after the payload |
| Huffman.DecodeN | src/huffman.c:302-322 | the decoder of n symbols returns exactly n symbols when it succeeds |
| Huffman.DecodeStep | src/huffman.c:303-316 | a successful walk extends the decoded symbols by one |
| Huffman.DecodeStop | src/huffman.c:309-312 | a failed walk makes the decoder fail with InvalidCompressedContent |
| Huffman.DecodeErrFrom | src/huffman.c:311-312 | once decoding fails, it fails for every larger symbol count |
| Huffman.DecodeTruncated | src/huffman.c:305-314 | a walk whose code lacks its last bit in the bits fails |
| Huffman.StreamInPages | src/huffman.c:259-280 | the packed stream read in pages holds the stream bits followed by zeros, and fills its pages exactly when its length is a multiple of 8 * page |
| Huffman.ContainerHead | src/huffman.c:68-74 | the first page of the container holds the input length as its header and the tree right after it |
| Huffman.ContainerDecode | src/huffman.c:60-84 | with header n > 0 and a tree read from the first page, `decompress` is the decoder's outcome from the cursor after the tree |
| Huffman.RoundTrip | src/huffman.c:47-84 | decompressing the compressed input gives the input back, for the empty input and for every stream that does not end on a page boundary |
| Huffman.StreamRoundTrip | src/huffman.c:236-326 | for any tree that covers the input and fits in the first page, the paged container of its stream decodes to the input unless the stream ends on a page boundary |
| Huffman.PayloadKeptUsable | src/huffman.c:309-312 | when the pages go on past the stream, the whole payload lies in the bits the decoder may use |
| Huffman.DecodeOutcome | src/huffman.c:302-322 | a payload that lies whole in the bits decodes to the input |
| Huffman.BoundaryInternal | src/huffman.c:163-168 | a stream that fills its pages exactly has a tree with an internal root, because the 41-bit single-leaf stream is never a multiple of 8 |
| Huffman.PayloadCutUsable | src/huffman.c:309-312 | when the stream fills its pages exactly, the decoder may use all of the payload but its last bit |
| Huffman.PayloadShort | src/huffman.c:309-312 | when the stream fills its pages exactly, decoding fails with InvalidCompressedContent |
| Huffman.EncodeNonEmpty | src/huffman.c:262-265 | with an internal root, a non-empty input gives a non-empty payload |
| Huffman.DecodeShort | src/huffman.c:305-312 | a payload missing its last bit fails to decode |
| Huffman.LastCodeShort | src/huffman.c:305-312 | a walk whose code runs one bit past the end fails |
| Huffman.BoundaryRejected | src/huffman.c:309-312 | a non-empty input whose stream ends on a page boundary is rejected: decompressing its container gives InvalidCompressedContent |
| Huffman.StreamBoundary | src/huffman.c:266-274 | the same for the stream of any tree that fits in the first page |
| Compressor.PutBit | src/huffman.c:263-264 | the page holds the bit appended after those it held |
| Compressor.EmitBit | src/huffman.c:263-270 | one bit is appended to the emitted stream. When the bit fills the page, the output grows by the packed page, the page is cleared to zeros and the cursor goes back to 0. Otherwise the output is unchanged and the cursor steps on by one |
| Compressor.EmitCode | src/huffman.c:262-271 | the whole code is appended to the emitted stream |
| Compressor.FinishPage | src/huffman.c:274-280 | after the final flush the output is the packed stream bits |
| Compressor.FlushSize | src/huffman.c:278 | whole bytes plus one for a partial byte is (bp+7)/8 |
| Compressor.WriteHead | src/huffman.c:253-256 | the first page holds the header and the tree, and the cursor is after them |
| Compressor.EncodeNext | src/huffman.c:260-262 | the code of the next input byte extends the payload of the prefix |
| Compressor.WriteCompressed | src/huffman.c:236-284 | the output is the packed header, tree and payload bits |
| Compressor.Compress | src/huffman.c:47-58 | the output is the container of the input, which is empty for an empty input |
| Decompressor.ReadPage | src/huffman.c:311 | the read copies min(remaining, BUFSIZE) bytes from the offset and returns their count; the rest of the buffer is unchanged |
| Decompressor.TestBit | src/huffman.c:306 | the bit tested in `in_buf` is the container's bit at the global cursor |
| Decompressor.Advance | src/huffman.c:308-314 | the cursor steps on one bit, and a used-up page is cleared and refilled from the next page; if nothing is left, that bit was the last of the padded container |
| Decompressor.WalkStep | src/huffman.c:306-308 | the walk from a node at a bit is the walk from the chosen child at the next bit |
| Decompressor.Edge | src/huffman.c:306-314 | one edge: the child the bit picks, with the walk from it equal to the walk from the node, or failure when the refill reads nothing |
| Decompressor.WalkSymbol | src/huffman.c:303-315 | the inner loop returns the symbol the walk reaches and the cursor after it, or fails exactly when the walk fails |
| Decompressor.NextSymbol | src/huffman.c:302-316 | one outer iteration extends the decoded symbols by one, or makes the decoder fail |
| Decompressor.ClearOutput | src/huffman.c:319 | every byte of `out_buf` is zero |
| Decompressor.PutSymbol | src/huffman.c:316-321 | the output written so far plus `out_buf[0..out_bufi-1]` grows by the symbol. When the symbol fills `out_buf`, the whole buffer is written out and cleared, and `out_bufi` goes back to 0. Otherwise nothing is written and `out_bufi` steps on by one |
| Decompressor.WriteDecompressed | src/huffman.c:286-326 | the output is the decoder's outcome for n symbols from the cursor after the tree |
| Decompressor.Decompress | src/huffman.c:60-84 | the result is `Decompressed(container, page)`: empty for an empty container or a zero header, and otherwise the decoded symbols or the error |
| Decompressor.HeaderZero | src/huffman.c:70-71 | a zero header gives no output |
| Decompressor.TreeMissing | src/huffman.c:74 | a first page that does not hold a whole tree before its last bit gives MalformedTree |
| Sample.SampleCount | src/utils.c:18-26 | "aabbc" counts a = 2, b = 2, c = 1 and 0 for every other byte |
| Sample.SampleLeaves | src/huffman.c:123-125 | the initial leaves of "aabbc" are a:2, b:2, c:1 in that order |
| Sample.SampleTree | src/huffman.c:126-139 | the built tree of "aabbc" has b and c joined under the root's left child and a as its right child |
| Sample.SampleCodes | src/huffman.c:149-170 | its codes are a = 1, b = 00, c = 01 |
| Sample.SampleEncode | src/huffman.c:259-273 | the payload of "aabbc" is 11000001 |
| Sample.SamplePack | src/huffman.c:263-264 | that payload packs into the byte 0xC1 |
| Sample.SamplePayload | src/huffman.c:259-273 | the packed payload of "aabbc" under its built tree's codes is the byte 0xC1 |
| Sample.SampleLength | src/huffman.c:253-273 | the stream of "aabbc" is 69 bits: a 32-bit header, a 29-bit tree and an 8-bit payload |
| Sample.SampleRoundTrip | src/huffman.c:47-84 | "aabbc" survives the round trip for every page size |

## Left out

- The `FILE*` plumbing (`fread`, `fwrite`, `fgetc`, `fseek`, `fflush`) is
  replaced by sequences. The input is one sequence, read again in place of the
  rewind at src/huffman.c:55. The container is one sequence, and outputs are
  returned sequences.
- The compressor's input loop reads the input in `BUFSIZE` chunks
  (src/huffman.c:259-260). The model runs one loop over the whole input,
  which emits the same bits.
- `malloc`/`free`, exit on allocation failure (src/huffman.c:94-96, 165-166,
  218-220), `tree_free` and `tree_free_codes` are left out: trees are values.
- Utils.Sort: the comparator is fixed to `nodes_cmp`, the only one `sort` is
  called with (src/huffman.c:127-131). `sort` itself takes any comparator
  (src/utils.c:29).
- Compressor.WriteCompressed: inputs of 2^32 bytes or more are excluded by a
  precondition. The source truncates `in_len` to `unsigned int` in the
  header (src/huffman.c:253).
- Decompressor.Decompress: it returns `Err` where the source exits the
  process. Bytes the source has already written before the exit are not part
  of the result.
- The `c` field of internal nodes (always `'\0'`, never read) is not kept.
- `BUFSIZE` (from `consts.h`) and the error codes (from `errors.h`) are not
  part of this model. The page size is a parameter of at least 324 bytes, and
  the errors are the `Error` datatype.
- `bytes_to_uint` computes `value[0] << 24` in `int`, which overflows for a
  first byte of 128 or more before the result is cast back to `unsigned int`.
  The model computes the intended 32-bit value.
- src/main.c (argument handling, opening files, exit codes) is not part of
  this model.
