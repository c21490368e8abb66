/** A worked instance of the codec: the input "aabbc". The leaves are a:2,
    b:2, c:1 in byte order; the stable descending sort keeps that order, so
    b and c are joined first; the second sort puts that node (3) before a
    (2), so a ends on the right. The codes are a = 1, b = 00, c = 01 and the
    payload is the single byte 11000001. */
module Sample {
  import opened Types
  import opened Nodes
  import opened Bits
  import opened Utils
  import opened TreeBuild
  import opened Coding
  import opened TreeCodec
  import opened Paging
  import opened Huffman

  const Input: seq<Byte> := [97, 97, 98, 98, 99]

  /** The tree `tree_build` makes for Input. */
  const Root: Tree := Internal(5, Internal(3, Leaf(98, 2), Leaf(99, 1)), Leaf(97, 2))

  /** A byte that does not occur is counted zero times. */
  lemma {:induction false} CountAbsent(s: seq<Byte>, c: int)
    requires forall k :: 0 <= k < |s| ==> s[k] != c
    ensures Count(s, c) == 0
  {
    if s != [] {
      CountAbsent(s[..|s| - 1], c);
    }
  }

  /** Byte values with a zero count add no leaves. */
  lemma {:induction false} LeavesZeroRun(f: seq<nat>, m: nat, n: nat)
    requires |f| == 256 && m <= n <= 256
    requires forall i :: m <= i < n ==> f[i] == 0
    ensures Leaves(f, n) == Leaves(f, m)
    decreases n
  {
    if n > m {
      LeavesZeroRun(f, m, n - 1);
    }
  }

  /** The counts of Input, one prefix at a time. */
  lemma SampleCount(c: int)
    ensures Count(Input, c) == if c == 97 || c == 98 then 2 else if c == 99 then 1 else 0
  {
    CountSnoc([], 97, c);
    CountSnoc([97], 97, c);
    CountSnoc([97, 97], 98, c);
    CountSnoc([97, 97, 98], 98, c);
    CountSnoc([97, 97, 98, 98], 99, c);
    assert [] + [97] == [97] && [97] + [97] == [97, 97] && [97, 97] + [98] == [97, 97, 98];
    assert [97, 97, 98] + [98] == [97, 97, 98, 98] && [97, 97, 98, 98] + [99] == Input;
  }

  /** The leaves of Input: a, b and c in byte order, with their counts. */
  lemma SampleLeaves()
    ensures Leaves(Frequencies(Input), 256) == [Leaf(97, 2), Leaf(98, 2), Leaf(99, 1)]
  {
    var f := Frequencies(Input);
    forall i | 0 <= i < 256 && i != 97 && i != 98 && i != 99
      ensures f[i] == 0
    {
      CountAbsent(Input, i);
    }
    LeavesZeroRun(f, 100, 256);
    LeavesZeroRun(f, 0, 97);
    SampleCount(97);
    SampleCount(98);
    SampleCount(99);
    assert Leaves(f, 98) == [Leaf(97, 2)];
    assert Leaves(f, 99) == [Leaf(97, 2), Leaf(98, 2)];
    assert Leaves(f, 100) == [Leaf(97, 2), Leaf(98, 2), Leaf(99, 1)];
  }

  /** `tree_build` on Input: b and c joined first, then that node and a. */
  lemma SampleTree()
    ensures BuildTree(Input) == Some(Root)
  {
    SampleLeaves();
    var s := [Leaf(97, 2), Leaf(98, 2), Leaf(99, 1)];
    assert BubbleSort(s) == s;
    var s1 := [Leaf(97, 2), Internal(3, Leaf(98, 2), Leaf(99, 1))];
    assert Merge(s) == s1;
    assert BubbleSort(s1) == [s1[1], s1[0]];
  }

  /** The code table `tree_get_codes` makes for Root. */
  const Table: map<Byte, seq<bool>> := map[97 := [true], 98 := [false, false], 99 := [false, true]]

  /** The payload bits of Input. */
  const Payload: seq<bool> := [true, true, false, false, false, false, false, true]

  /** The codes of Root: a = 1, b = 00, c = 01. */
  lemma SampleCodes()
    ensures Codes(Root) == Table
  {
    assert [] + [false] == [false] && [] + [true] == [true];
    SampleLeftCodes();
    assert CodeTable(Root.right, [true]) == map[97 := [true]];
    assert map[98 := [false, false], 99 := [false, true]] + map[97 := [true]] == Table;
  }

  /** The codes below the left child of Root: b = 00, c = 01. */
  lemma SampleLeftCodes()
    ensures CodeTable(Root.left, [false]) == map[98 := [false, false], 99 := [false, true]]
  {
    assert [false] + [false] == [false, false] && [false] + [true] == [false, true];
  }

  /** The codes of Input, one after the other. */
  lemma SampleEncode()
    ensures Covers(Table, Input) && Encode(Table, Input) == Payload
  {
    assert Input[..4] == [97, 97, 98, 98] && Input[..3] == [97, 97, 98];
    assert Input[..2] == [97, 97] && Input[..1] == [97] && Input[..0] == [];
    EncodeLast(Table, Input[..1]);
    EncodeLast(Table, Input[..2]);
    EncodeLast(Table, Input[..3]);
    EncodeLast(Table, Input[..4]);
    EncodeLast(Table, Input);
    assert Encode(Table, Input[..1]) == [true];
    assert Encode(Table, Input[..2]) == [true, true];
    assert Encode(Table, Input[..3]) == [true, true, false, false];
    assert Input[..4][..3] == Input[..3] && Input[..4][3] == 98;
    assert [true, true, false, false] + [false, false] == [true, true, false, false, false, false];
    assert Encode(Table, Input[..4]) == [true, true, false, false, false, false];
    assert [true, true, false, false, false, false] + [false, true] == Payload;
  }

  /** The payload packs into the single byte 0xC1. */
  lemma SamplePack()
    ensures Pack(Payload) == [0xC1]
  {
  }

  /** The payload of Input is 11000001, the byte 0xC1. */
  lemma SamplePayload()
    ensures Covers(Codes(Root), Input)
    ensures Pack(Encode(Codes(Root), Input)) == [0xC1]
  {
    SampleCodes();
    SampleEncode();
    SamplePack();
  }

  /** The stream for Input is 69 bits long: the header, the 29 bits of
      Root (two internal nodes, three leaves) and the payload. */
  lemma SampleLength(input: seq<Byte>)
    requires input == Input
    ensures StreamLength(input) == 69
  {
    SampleTree();
    SampleCodes();
    SampleEncode();
    DumpLength(Root);
    assert |StreamBits(Root, Input)| == 32 + 29 + 8;
  }

  /** The stream for Input is shorter than any page, so `decompress` gives
      Input back. */
  lemma SampleRoundTrip(input: seq<Byte>, page: nat)
    requires input == Input && page >= MinPage
    ensures Decompressed(Compressed(input), page) == Ok(input)
  {
    SampleLength(input);
    ShortRemainder(StreamLength(input), 8 * page);
    RoundTrip(input, page);
  }

  /** A positive count below m leaves itself as its remainder. */
  lemma ShortRemainder(n: nat, m: nat)
    requires 0 < n < m
    ensures n % m != 0
  {
    DivOfMultiple(0, m, n);
  }
}
