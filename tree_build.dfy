/** `tree_build` of src/huffman.c: one leaf per byte value that occurs, then
    repeated sort-and-merge of the two least frequent nodes. */
module TreeBuild {
  import opened Types
  import opened Nodes
  import opened Utils

  /** The leaves the first loop of `tree_build` creates for the byte values
      below n: one per non-zero count, in ascending byte order. */
  function Leaves(freqs: seq<nat>, n: nat): (r: seq<Tree>)
    requires |freqs| == 256 && n <= 256
    ensures |r| <= n
  {
    if n == 0 then []
    else Leaves(freqs, n - 1) + (if freqs[n - 1] != 0 then [Leaf(n - 1, freqs[n - 1])] else [])
  }

  /** The leaf symbols of a forest, with multiplicity. */
  function ForestSymbols(s: seq<Tree>): multiset<Byte>
  {
    if s == [] then multiset{} else ForestSymbols(s[..|s| - 1]) + Symbols(s[|s| - 1])
  }

  /** The total weight of a forest. */
  function ForestFreq(s: seq<Tree>): nat
  {
    if s == [] then 0 else ForestFreq(s[..|s| - 1]) + s[|s| - 1].freq
  }

  /** Every tree of the forest has additive weights and leaf weights taken
      from freqs. */
  predicate Consistent(s: seq<Tree>, freqs: seq<nat>)
    requires |freqs| == 256
  {
    forall k :: 0 <= k < |s| ==> WeightsAdd(s[k]) && LeafWeights(s[k], freqs)
  }

  /** The second half of a merge iteration: slot count - 2 becomes the
      parent of the last two nodes and the count drops. */
  function Join(t: seq<Tree>): (r: seq<Tree>)
    requires |t| >= 2
    ensures |r| == |t| - 1
  {
    t[..|t| - 2] + [Internal(t[|t| - 2].freq + t[|t| - 1].freq, t[|t| - 2], t[|t| - 1])]
  }

  /** One iteration of the merge loop: sort the active nodes, then join the
      last two. */
  function Merge(s: seq<Tree>): (r: seq<Tree>)
    requires |s| >= 2
    ensures |r| == |s| - 1
  {
    Join(BubbleSort(s))
  }

  /** The merge loop run until one node is left. */
  function Combine(s: seq<Tree>): Tree
    requires |s| >= 1
    decreases |s|
  {
    if |s| == 1 then s[0] else Combine(Merge(s))
  }

  /** `tree_build`: no tree for an empty input. */
  function BuildTree(input: seq<Byte>): (r: Option<Tree>)
    ensures r.None? <==> |input| == 0
  {
    if |input| == 0 then None
    else
      LeavesNonEmpty(input);
      Some(Combine(Leaves(Frequencies(input), 256)))
  }

  // ---------------------------------------------------------------------
  // the leaves

  /** t is a leaf for a byte value below n with a non-zero count, weighted
      by that count. */
  predicate CountedLeaf(t: Tree, freqs: seq<nat>, n: nat)
    requires |freqs| == 256
  {
    t.Leaf? && t.symbol < n && t.freq == freqs[t.symbol] != 0
  }

  /** Every node the leaf loop creates is a leaf for a counted byte below n. */
  lemma {:induction false} LeavesCounted(freqs: seq<nat>, n: nat)
    requires |freqs| == 256 && n <= 256
    ensures forall k :: 0 <= k < |Leaves(freqs, n)| ==> CountedLeaf(Leaves(freqs, n)[k], freqs, n)
  {
    if n > 0 {
      LeavesCounted(freqs, n - 1);
    }
  }

  /** The leaves come in strictly ascending byte order. */
  lemma {:induction false} LeavesAscending(freqs: seq<nat>, n: nat)
    requires |freqs| == 256 && n <= 256
    ensures forall k, l :: 0 <= k < l < |Leaves(freqs, n)| ==>
      Leaves(freqs, n)[k].Leaf? && Leaves(freqs, n)[l].Leaf? &&
      Leaves(freqs, n)[k].symbol < Leaves(freqs, n)[l].symbol
  {
    if n > 0 {
      LeavesAscending(freqs, n - 1);
      LeavesCounted(freqs, n - 1);
      var p := Leaves(freqs, n - 1);
      var r := Leaves(freqs, n);
      assert r[..|p|] == p;
      forall k, l | 0 <= k < l < |r|
        ensures r[k].Leaf? && r[l].Leaf? && r[k].symbol < r[l].symbol
      {
        assert r[k] == p[k];
        assert CountedLeaf(p[k], freqs, n - 1);
        if l < |p| {
          assert r[l] == p[l];
        } else {
          assert r[l] == Leaf(n - 1, freqs[n - 1]);
        }
      }
    } else {
      assert |Leaves(freqs, n)| == 0;
    }
  }

  /** Every byte value below n with a non-zero count has a leaf. */
  lemma {:induction false} LeavesComplete(freqs: seq<nat>, n: nat, c: nat)
    requires |freqs| == 256 && c < n <= 256 && freqs[c] != 0
    ensures exists k :: 0 <= k < |Leaves(freqs, n)| && Leaves(freqs, n)[k] == Leaf(c, freqs[c])
  {
    var p := Leaves(freqs, n - 1);
    var r := Leaves(freqs, n);
    assert r[..|p|] == p;
    if c == n - 1 {
      assert r[|p|] == Leaf(c, freqs[c]);
    } else {
      LeavesComplete(freqs, n - 1, c);
      var k :| 0 <= k < |p| && p[k] == Leaf(c, freqs[c]);
      assert r[k] == p[k];
    }
  }

  /** The leaves hold each counted byte value below n exactly once. */
  lemma {:induction false} LeavesSymbols(freqs: seq<nat>, n: nat, b: Byte)
    requires |freqs| == 256 && n <= 256
    ensures ForestSymbols(Leaves(freqs, n))[b] == if b < n && freqs[b] != 0 then 1 else 0
  {
    if n > 0 {
      LeavesSymbols(freqs, n - 1, b);
      var p := Leaves(freqs, n - 1);
      var r := Leaves(freqs, n);
      var cp := ForestSymbols(p)[b];
      if freqs[n - 1] != 0 {
        var x := Leaf(n - 1, freqs[n - 1]);
        assert r == p + [x];
        assert r[..|r| - 1] == p && r[|r| - 1] == x;
        assert ForestSymbols(r)[b] == cp + Symbols(x)[b];
        if b == n - 1 {
          assert cp == 0 && Symbols(x)[b] == 1;
        } else {
          assert Symbols(x)[b] == 0;
        }
      } else {
        assert r == p;
      }
    } else {
      assert Leaves(freqs, n) == [];
    }
  }

  /** The leaves weigh the sum of the counts below n and are consistent with
      the table. */
  lemma LeavesWeights(freqs: seq<nat>, n: nat)
    requires |freqs| == 256 && n <= 256
    ensures ForestFreq(Leaves(freqs, n)) == Sum(freqs[..n])
    ensures Consistent(Leaves(freqs, n), freqs)
  {
    LeavesFreq(freqs, n);
    LeavesConsistent(freqs, n);
  }

  lemma {:induction false} LeavesFreq(freqs: seq<nat>, n: nat)
    requires |freqs| == 256 && n <= 256
    ensures ForestFreq(Leaves(freqs, n)) == Sum(freqs[..n])
  {
    if n > 0 {
      LeavesFreq(freqs, n - 1);
      var p := Leaves(freqs, n - 1);
      var r := Leaves(freqs, n);
      assert freqs[..n][..n - 1] == freqs[..n - 1];
      if freqs[n - 1] != 0 {
        assert r[..|r| - 1] == p;
      } else {
        assert r == p;
      }
    }
  }

  lemma {:induction false} LeavesConsistent(freqs: seq<nat>, n: nat)
    requires |freqs| == 256 && n <= 256
    ensures Consistent(Leaves(freqs, n), freqs)
  {
    if n > 0 {
      LeavesConsistent(freqs, n - 1);
      var p := Leaves(freqs, n - 1);
      var r := Leaves(freqs, n);
      if freqs[n - 1] != 0 {
        assert r == p + [Leaf(n - 1, freqs[n - 1])];
      } else {
        assert r == p;
      }
    }
  }

  /** A non-empty input leaves at least one leaf. */
  lemma LeavesNonEmpty(input: seq<Byte>)
    requires |input| > 0
    ensures |Leaves(Frequencies(input), 256)| >= 1
  {
    var f := Frequencies(input);
    FrequenciesTotal(input);
    assert f[..256] == f;
    if Leaves(f, 256) == [] {
      forall i | 0 <= i < 256
        ensures f[i] == 0
      {
        LeavesSymbols(f, 256, i);
      }
      ZeroPrefix(f, 256);
    }
  }

  // ---------------------------------------------------------------------
  // forests

  lemma {:induction false} ForestAppend(a: seq<Tree>, b: seq<Tree>)
    ensures ForestSymbols(a + b) == ForestSymbols(a) + ForestSymbols(b)
    ensures ForestFreq(a + b) == ForestFreq(a) + ForestFreq(b)
  {
    if b == [] {
      assert a + b == a;
    } else {
      assert (a + b)[..|a + b| - 1] == a + b[..|b| - 1];
      ForestAppend(a, b[..|b| - 1]);
    }
  }

  lemma ForestLast(s: seq<Tree>, p: seq<Tree>, x: Tree)
    requires s == p + [x]
    ensures ForestSymbols(s) == ForestSymbols(p) + Symbols(x)
    ensures ForestFreq(s) == ForestFreq(p) + x.freq
  {
    assert s[..|s| - 1] == p;
  }

  lemma ForestSingle(x: Tree)
    ensures ForestSymbols([x]) == Symbols(x) && ForestFreq([x]) == x.freq
  {
    assert [x][..0] == [];
  }

  /** Taking tree x out of a forest takes out its symbols and weight. */
  lemma ForestSplice(a: seq<Tree>, x: Tree, b: seq<Tree>)
    ensures ForestSymbols(a + [x] + b) == ForestSymbols(a + b) + Symbols(x)
    ensures ForestFreq(a + [x] + b) == ForestFreq(a + b) + x.freq
  {
    ForestAppend(a + [x], b);
    ForestAppend(a, [x]);
    ForestAppend(a, b);
    ForestSingle(x);
  }

  lemma MultisetRemove(t: seq<Tree>, i: nat)
    requires i < |t|
    ensures t == t[..i] + [t[i]] + t[i + 1..]
    ensures multiset(t[..i] + t[i + 1..]) == multiset(t) - multiset{t[i]}
  {
    assert t == t[..i] + [t[i]] + t[i + 1..];
  }

  lemma MultisetLast(s: seq<Tree>)
    requires s != []
    ensures multiset(s[..|s| - 1]) == multiset(s) - multiset{s[|s| - 1]}
  {
    assert s == s[..|s| - 1] + [s[|s| - 1]];
  }

  /** The last tree of s sits at some index i of its permutation t, and the
      rest of s is a permutation of t without index i. */
  lemma MatchLast(s: seq<Tree>, t: seq<Tree>) returns (i: nat)
    requires multiset(s) == multiset(t) && s != []
    ensures i < |t| && t[i] == s[|s| - 1]
    ensures multiset(s[..|s| - 1]) == multiset(t[..i] + t[i + 1..])
    ensures t == t[..i] + [t[i]] + t[i + 1..]
  {
    var x := s[|s| - 1];
    assert x in multiset(s);
    i :| 0 <= i < |t| && t[i] == x;
    MultisetLast(s);
    MultisetRemove(t, i);
  }

  /** The symbols of a forest do not depend on its order. */
  lemma {:induction false} PermutationSymbols(s: seq<Tree>, t: seq<Tree>)
    requires multiset(s) == multiset(t)
    ensures ForestSymbols(s) == ForestSymbols(t)
    decreases |s|
  {
    if s == [] {
      assert |t| == |multiset(t)| == 0;
    } else {
      var i := MatchLast(s, t);
      PermutationSymbols(s[..|s| - 1], t[..i] + t[i + 1..]);
      ForestSplice(t[..i], t[i], t[i + 1..]);
    }
  }

  /** The total weight of a forest does not depend on its order. */
  lemma {:induction false} PermutationFreq(s: seq<Tree>, t: seq<Tree>)
    requires multiset(s) == multiset(t)
    ensures ForestFreq(s) == ForestFreq(t)
    decreases |s|
  {
    if s == [] {
      assert |t| == |multiset(t)| == 0;
    } else {
      var i := MatchLast(s, t);
      PermutationFreq(s[..|s| - 1], t[..i] + t[i + 1..]);
      ForestSplice(t[..i], t[i], t[i + 1..]);
    }
  }

  /** Joining the last two trees keeps the forest's symbols and total weight. */
  lemma JoinKeeps(t: seq<Tree>)
    requires |t| >= 2
    ensures ForestSymbols(Join(t)) == ForestSymbols(t)
    ensures ForestFreq(Join(t)) == ForestFreq(t)
  {
    SplitLastTwo(t);
    JoinLastTwo(t[..|t| - 2], t[|t| - 2], t[|t| - 1]);
  }

  lemma SplitLastTwo(t: seq<Tree>)
    requires |t| >= 2
    ensures t == t[..|t| - 2] + [t[|t| - 2], t[|t| - 1]]
  {
  }

  /** Joining the last two trees under a parent of their summed weight keeps
      the forest's symbols and total weight. */
  lemma JoinLastTwo(pre: seq<Tree>, x: Tree, y: Tree)
    ensures ForestSymbols(pre + [Internal(x.freq + y.freq, x, y)]) == ForestSymbols(pre + [x, y])
    ensures ForestFreq(pre + [Internal(x.freq + y.freq, x, y)]) == ForestFreq(pre + [x, y])
  {
    ForestLast(pre + [Internal(x.freq + y.freq, x, y)], pre, Internal(x.freq + y.freq, x, y));
    ForestLast(pre + [x], pre, x);
    assert pre + [x, y] == (pre + [x]) + [y];
    ForestLast(pre + [x, y], pre + [x], y);
  }

  /** A merge keeps the forest's symbols and total weight. */
  lemma MergeKeeps(s: seq<Tree>)
    requires |s| >= 2
    ensures ForestSymbols(Merge(s)) == ForestSymbols(s)
    ensures ForestFreq(Merge(s)) == ForestFreq(s)
  {
    var t := BubbleSort(s);
    BubbleSortPerm(s);
    PermutationSymbols(s, t);
    PermutationFreq(s, t);
    JoinKeeps(t);
  }

  /** A merge keeps every tree consistent with the table. */
  lemma MergeConsistent(s: seq<Tree>, freqs: seq<nat>)
    requires |s| >= 2 && |freqs| == 256 && Consistent(s, freqs)
    ensures Consistent(Merge(s), freqs)
  {
    var t := BubbleSort(s);
    BubbleSortPerm(s);
    forall k | 0 <= k < |t|
      ensures WeightsAdd(t[k]) && LeafWeights(t[k], freqs)
    {
      assert t[k] in multiset(s);
    }
  }

  /** The merge loop ends with a single tree holding the forest's symbols,
      weighing the forest's total. */
  lemma {:induction false} CombineSpec(s: seq<Tree>, freqs: seq<nat>)
    requires |s| >= 1 && |freqs| == 256
    ensures Symbols(Combine(s)) == ForestSymbols(s)
    ensures Combine(s).freq == ForestFreq(s)
    ensures Consistent(s, freqs) ==> WeightsAdd(Combine(s)) && LeafWeights(Combine(s), freqs)
    decreases |s|
  {
    if |s| == 1 {
      assert s[..0] == [];
    } else {
      MergeKeeps(s);
      if Consistent(s, freqs) {
        MergeConsistent(s, freqs);
      }
      CombineSpec(Merge(s), freqs);
    }
  }

  /** The tree of a non-empty input holds each byte value that occurs exactly
      once and no other, weighs the input length, every internal node weighs
      the sum of its children and every leaf weighs its byte's count. */
  lemma BuildTreeSpec(input: seq<Byte>)
    requires |input| > 0
    ensures BuildTree(input).Some?
    ensures forall b: Byte :: Symbols(BuildTree(input).value)[b] == if Count(input, b) > 0 then 1 else 0
    ensures BuildTree(input).value.freq == |input|
    ensures WeightsAdd(BuildTree(input).value)
    ensures LeafWeights(BuildTree(input).value, Frequencies(input))
  {
    var f := Frequencies(input);
    LeavesNonEmpty(input);
    var leaves := Leaves(f, 256);
    var root := Combine(leaves);
    assert BuildTree(input) == Some(root);
    LeavesWeights(f, 256);
    CombineSpec(leaves, f);
    FrequenciesTotal(input);
    assert f[..256] == f;
    forall b: Byte
      ensures Symbols(root)[b] == if Count(input, b) > 0 then 1 else 0
    {
      LeavesSymbols(f, 256, b);
      assert f[b] == Count(input, b);
    }
  }

  /** A forest of leaves holds one symbol per tree. */
  lemma {:induction false} LeavesSize(freqs: seq<nat>, n: nat)
    requires |freqs| == 256 && n <= 256
    ensures |ForestSymbols(Leaves(freqs, n))| == |Leaves(freqs, n)|
  {
    if n > 0 {
      var p := Leaves(freqs, n - 1);
      var x := if freqs[n - 1] != 0 then [Leaf(n - 1, freqs[n - 1])] else [];
      LeavesSize(freqs, n - 1);
      ForestAppend(p, x);
      if x != [] {
        ForestSingle(x[0]);
      }
    }
  }

  /** The built tree has at most one leaf per byte value. */
  lemma BuildTreeSize(input: seq<Byte>)
    requires |input| > 0
    ensures BuildTree(input).Some? && LeafCount(BuildTree(input).value) <= 256
  {
    var f := Frequencies(input);
    LeavesNonEmpty(input);
    var leaves := Leaves(f, 256);
    assert BuildTree(input) == Some(Combine(leaves));
    CombineSpec(leaves, f);
    LeavesSize(f, 256);
    SymbolsCount(Combine(leaves));
  }

  // ---------------------------------------------------------------------
  // the imperative builder

  /** Writing the parent of slots n - 2 and n - 1 into slot n - 2 leaves the
      joined forest in the first n - 1 slots. */
  lemma JoinUpdate(a: seq<Tree>, n: nat)
    requires 2 <= n <= |a|
    ensures a[n - 2 := Internal(a[n - 2].freq + a[n - 1].freq, a[n - 2], a[n - 1])][..n - 1] == Join(a[..n])
  {
  }

  /** The first loop of `tree_build`: a leaf per non-zero count, in
      ascending byte order, packed at the front of `nodes`. */
  method CollectLeaves(frequencies: array<nat>, nodes: array<Tree>) returns (count: nat)
    requires frequencies.Length == 256 && nodes.Length == 256
    modifies nodes
    ensures count <= 256 && nodes[..count] == Leaves(frequencies[..], 256)
    ensures nodes[count..] == old(nodes[count..])
  {
    count := 0;
    for i := 0 to 256
      invariant count <= i
      invariant nodes[..count] == Leaves(frequencies[..], i)
      invariant nodes[count..] == old(nodes[count..])
    {
      if frequencies[i] != 0 {
        nodes[count] := Leaf(i, frequencies[i]);
        assert nodes[..count + 1] == nodes[..count] + [nodes[count]];
        count := count + 1;
      }
    }
  }

  /** One iteration of the merge loop of `tree_build`: sort the first count
      nodes, then slot count - 2 becomes the parent of the last two. */
  method MergeStep(nodes: array<Tree>, count: nat)
    requires 2 <= count <= nodes.Length
    modifies nodes
    ensures nodes[..count - 1] == Merge(old(nodes[..count]))
    ensures nodes[count..] == old(nodes[count..])
  {
    Sort(nodes, count);
    ghost var a := nodes[..];
    nodes[count - 2] := Internal(nodes[count - 2].freq + nodes[count - 1].freq, nodes[count - 2], nodes[count - 1]);
    assert nodes[..] == a[count - 2 := nodes[count - 2]];
    JoinUpdate(a, count);
  }

  /** `tree_build`: counts the input, then builds the tree in the `nodes`
      array in place. Returns no tree for an empty input. */
  method BuildTreeInPlace(input: seq<Byte>) returns (tree: Option<Tree>, inLen: nat)
    ensures inLen == |input|
    ensures tree == BuildTree(input)
  {
    var frequencies := new nat[256](_ => 0);
    var nodes := new Tree[256](_ => Leaf(0, 0));
    inLen := CalculateFrequencies(input, frequencies);
    if inLen == 0 {
      return None, inLen;
    }
    assert frequencies[..] == Frequencies(input);
    var count := CollectLeaves(frequencies, nodes);
    LeavesNonEmpty(input);
    ghost var root := Combine(nodes[..count]);
    assert BuildTree(input) == Some(root);
    while count > 1
      invariant 1 <= count <= 256
      invariant Combine(nodes[..count]) == root
    {
      MergeStep(nodes, count);
      count := count - 1;
    }
    tree := Some(nodes[0]);
  }
}
