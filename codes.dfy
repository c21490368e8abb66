/** `tree_get_codes_inner` of src/huffman.c: the code of each symbol is its
    root-to-leaf path, false ('0') for a left edge and true ('1') for a right
    edge; and the walk of the decoder that follows such a path back. */
module Coding {
  import opened Types
  import opened Nodes

  /** The codes of the leaves under t, reached from the root along path.
      The right subtree is walked second, so its entry wins if a symbol
      occurred twice, as the source's later store into `codes[c]` would. */
  function CodeTable(t: Tree, path: seq<bool>): map<Byte, seq<bool>>
  {
    match t
    case Leaf(c, _) => map[c := path]
    case Internal(_, l, r) => CodeTable(l, path + [false]) + CodeTable(r, path + [true])
  }

  /** `tree_get_codes`: the code table of a tree. */
  function Codes(t: Tree): map<Byte, seq<bool>>
  {
    CodeTable(t, [])
  }

  /** The node reached from t along p, if p stays inside the tree. */
  function Follow(t: Tree, p: seq<bool>): Option<Tree>
    decreases |p|
  {
    if p == [] then Some(t)
    else match t
      case Leaf(_, _) => None
      case Internal(_, l, r) => Follow(if p[0] then r else l, p[1..])
  }

  /** p leads from the root of t to a leaf holding c. */
  predicate LeafAt(t: Tree, p: seq<bool>, c: Byte)
  {
    Follow(t, p).Some? && Follow(t, p).value.Leaf? && Follow(t, p).value.symbol == c
  }

  /** The symbols with a code are exactly the leaf symbols. */
  lemma {:induction false} CodeTableKeys(t: Tree, path: seq<bool>)
    ensures forall c :: c in CodeTable(t, path) <==> c in Symbols(t)
  {
    match t
    case Leaf(_, _) =>
    case Internal(_, l, r) =>
      CodeTableKeys(l, path + [false]);
      CodeTableKeys(r, path + [true]);
  }

  /** Every code extends the starting path by a path that leads to a leaf
      holding its symbol. */
  lemma {:induction false} CodeTablePaths(t: Tree, path: seq<bool>, c: Byte)
    requires c in CodeTable(t, path)
    ensures |path| <= |CodeTable(t, path)[c]|
    ensures CodeTable(t, path)[c][..|path|] == path
    ensures LeafAt(t, CodeTable(t, path)[c][|path|..], c)
  {
    var code := CodeTable(t, path)[c];
    match t
    case Leaf(_, _) =>
      assert code[|path|..] == [];
    case Internal(_, l, r) =>
      if c in CodeTable(r, path + [true]) {
        CodeTablePaths(r, path + [true], c);
        assert code[|path|..][1..] == code[|path| + 1..];
      } else {
        CodeTablePaths(l, path + [false], c);
        assert code[|path|..][1..] == code[|path| + 1..];
      }
  }

  /** No code is longer than the number of internal nodes on top of the
      starting path. */
  lemma {:induction false} CodeTableLength(t: Tree, path: seq<bool>, c: Byte)
    requires c in CodeTable(t, path)
    ensures |CodeTable(t, path)[c]| <= |path| + InternalCount(t)
  {
    match t
    case Leaf(_, _) =>
    case Internal(_, l, r) =>
      if c in CodeTable(r, path + [true]) {
        CodeTableLength(r, path + [true], c);
      } else {
        CodeTableLength(l, path + [false], c);
      }
  }

  /** Following p then q is following p + q. */
  lemma {:induction false} FollowAppend(t: Tree, p: seq<bool>, q: seq<bool>)
    requires Follow(t, p).Some?
    ensures Follow(t, p + q) == Follow(Follow(t, p).value, q)
    decreases |p|
  {
    if p != [] {
      assert (p + q)[1..] == p[1..] + q;
      match t
      case Internal(_, l, r) =>
        FollowAppend(if p[0] then r else l, p[1..], q);
    } else {
      assert p + q == q;
    }
  }

  /** Codes are prefix-free: the code of one symbol never starts with the
      code of another. */
  lemma CodesPrefixFree(t: Tree, a: Byte, b: Byte)
    requires a in Codes(t) && b in Codes(t) && a != b
    ensures !(|Codes(t)[a]| <= |Codes(t)[b]| && Codes(t)[b][..|Codes(t)[a]|] == Codes(t)[a])
  {
    var p, q := Codes(t)[a], Codes(t)[b];
    CodeTablePaths(t, [], a);
    CodeTablePaths(t, [], b);
    assert p[0..] == p && q[0..] == q;
    if |p| <= |q| && q[..|p|] == p {
      var rest := q[|p|..];
      assert q == p + rest;
      FollowAppend(t, p, rest);
      assert false;
    }
  }

  /** A single-leaf tree gives its symbol the empty code; in any other tree
      every code is non-empty. */
  lemma EmptyCode(t: Tree, c: Byte)
    requires c in Codes(t)
    ensures Codes(t)[c] == [] <==> t.Leaf?
  {
    CodeTablePaths(t, [], c);
    assert Codes(t)[c][0..] == Codes(t)[c];
  }

  /** The codes depend only on shape and symbols, not on the weights. */
  lemma {:induction false} CodeTableStrip(t: Tree, path: seq<bool>)
    ensures CodeTable(Strip(t), path) == CodeTable(t, path)
  {
    match t
    case Leaf(_, _) =>
    case Internal(_, l, r) =>
      CodeTableStrip(l, path + [false]);
      CodeTableStrip(r, path + [true]);
  }

  /** The decoder's walk for one symbol (the inner loop of
      `tree_write_decompressed`): from the root, take the right child on a
      1 bit and the left on a 0 bit until a node without a left child.
      Gives the symbol and the position after the last bit used, or None
      when the bits run out first. */
  function DecodeSymbol(t: Tree, bits: seq<bool>, pos: nat): (r: Option<(Byte, nat)>)
    ensures r.Some? ==> pos <= r.value.1 <= |bits| || (t.Leaf? && r.value.1 == pos)
    decreases t
  {
    match t
    case Leaf(c, _) => Some((c, pos))
    case Internal(_, l, r) =>
      if pos >= |bits| then None
      else DecodeSymbol(if bits[pos] then r else l, bits, pos + 1)
  }

  /** Reading a path to a leaf decodes that leaf's symbol and consumes
      exactly the path. */
  lemma {:induction false} DecodeFollow(t: Tree, bits: seq<bool>, pos: nat, p: seq<bool>, c: Byte)
    requires LeafAt(t, p, c) && pos + |p| <= |bits| && bits[pos..pos + |p|] == p
    ensures DecodeSymbol(t, bits, pos) == Some((c, pos + |p|))
    decreases |p|
  {
    match t
    case Leaf(_, _) =>
    case Internal(_, l, r) =>
      assert bits[pos] == p[0];
      assert bits[pos + 1..pos + |p|] == p[1..];
      DecodeFollow(if p[0] then r else l, bits, pos + 1, p[1..], c);
  }

  /** The walk only looks at the bits it consumes: extending the bits does
      not change a successful walk. */
  lemma {:induction false} DecodePrefix(t: Tree, bits: seq<bool>, more: seq<bool>, pos: nat)
    requires DecodeSymbol(t, bits, pos).Some?
    ensures DecodeSymbol(t, bits + more, pos) == DecodeSymbol(t, bits, pos)
    decreases t
  {
    match t
    case Leaf(_, _) =>
    case Internal(_, l, r) =>
      assert (bits + more)[pos] == bits[pos];
      DecodePrefix(if bits[pos] then r else l, bits, more, pos + 1);
  }
}
