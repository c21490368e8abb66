/** The code tree node of src/huffman.h and the comparator src/huffman.c
    hands to `sort`. */
module Nodes {
  import opened Types

  /** huffman.h `Node`: a leaf carries a byte value and its frequency; an
      internal node carries a frequency and owns exactly two children. The
      source's `c` of an internal node is never read, so it is not kept. */
  datatype Tree =
    | Leaf(symbol: Byte, freq: nat)
    | Internal(freq: nat, left: Tree, right: Tree)

  /** `nodes_cmp`: 1 when x is less frequent than y, -1 when it is more
      frequent, 0 on a tie. `sort` swaps a pair exactly when this is 1. */
  function NodesCmp(x: Tree, y: Tree): (r: int)
    ensures r == 1 <==> x.freq < y.freq
    ensures r == 0 <==> x.freq == y.freq
    ensures r == -1 <==> y.freq < x.freq
  {
    if x.freq == y.freq then 0 else if x.freq < y.freq then 1 else -1
  }

  /** The leaf symbols of t, with multiplicity. */
  function Symbols(t: Tree): multiset<Byte>
  {
    match t
    case Leaf(c, _) => multiset{c}
    case Internal(_, l, r) => Symbols(l) + Symbols(r)
  }

  function LeafCount(t: Tree): nat
  {
    match t
    case Leaf(_, _) => 1
    case Internal(_, l, r) => LeafCount(l) + LeafCount(r)
  }

  function InternalCount(t: Tree): nat
  {
    match t
    case Leaf(_, _) => 0
    case Internal(_, l, r) => 1 + InternalCount(l) + InternalCount(r)
  }

  /** Every internal node weighs the sum of its children. */
  predicate WeightsAdd(t: Tree)
  {
    match t
    case Leaf(_, _) => true
    case Internal(f, l, r) => f == l.freq + r.freq && WeightsAdd(l) && WeightsAdd(r)
  }

  /** Every leaf's weight is the table's count for its symbol. */
  predicate LeafWeights(t: Tree, freqs: seq<nat>)
    requires |freqs| == 256
  {
    match t
    case Leaf(c, f) => f == freqs[c]
    case Internal(_, l, r) => LeafWeights(l, freqs) && LeafWeights(r, freqs)
  }

  /** t with every weight set to 0: the shape and symbols alone, which is all
      that the serialized form keeps. */
  function Strip(t: Tree): Tree
  {
    match t
    case Leaf(c, _) => Leaf(c, 0)
    case Internal(_, l, r) => Internal(0, Strip(l), Strip(r))
  }

  /** A tree with no unary node has one internal node fewer than leaves. */
  lemma {:induction false} LeavesOutnumberInternals(t: Tree)
    ensures LeafCount(t) == InternalCount(t) + 1
  {
    match t
    case Leaf(_, _) =>
    case Internal(_, l, r) =>
      LeavesOutnumberInternals(l);
      LeavesOutnumberInternals(r);
  }

  lemma {:induction false} SymbolsCount(t: Tree)
    ensures |Symbols(t)| == LeafCount(t)
  {
    match t
    case Leaf(_, _) =>
    case Internal(_, l, r) =>
      SymbolsCount(l);
      SymbolsCount(r);
  }
}
