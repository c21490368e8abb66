/** src/utils.c: the 4-byte big-endian length header, the frequency counter
    and the bubble sort that src/huffman.c runs with `nodes_cmp`. */
module Utils {
  import opened Types
  import opened Nodes
  import opened Bits

  /** 2^32: `unsigned int` is 32 bits wide. */
  const UintLimit: nat := 0x1_0000_0000

  /** 256^k for the four byte positions of an `unsigned int`. */
  function Pow256(k: nat): nat
    requires k < 4
  {
    if k == 0 then 1 else if k == 1 then 0x100 else if k == 2 then 0x1_0000 else 0x100_0000
  }

  /** Byte i of v, most significant first: `v >> (3 - i) * 8` stored into an
      `unsigned char`, which keeps the low 8 bits. */
  function ByteOfUint(v: nat, i: nat): bv8
    requires v < UintLimit && i < 4
  {
    ToByte(v / Pow256(3 - i) % 256)
  }

  /** The header bytes `uint_to_bytes` writes for v. */
  function BigEndian(v: nat): (r: seq<bv8>)
    requires v < UintLimit
    ensures |r| == 4
  {
    [ByteOfUint(v, 0), ByteOfUint(v, 1), ByteOfUint(v, 2), ByteOfUint(v, 3)]
  }

  /** The value `bytes_to_uint` reads from four bytes. The source ORs the
      shifted bytes together; their bits do not overlap, so that is this sum. */
  function FromBigEndian(b: seq<bv8>): (v: nat)
    requires |b| == 4
    ensures v < UintLimit
  {
    ByteValue(b[0]) * 0x100_0000 + ByteValue(b[1]) * 0x1_0000 + ByteValue(b[2]) * 0x100 + ByteValue(b[3])
  }

  lemma DivDiv(v: nat)
    ensures v / 256 / 256 == v / 0x1_0000 && v / 0x1_0000 / 256 == v / 0x100_0000
  {
  }

  lemma DivMod256(v: int, q: int, r: int)
    requires v == q * 256 + r && 0 <= r < 256
    ensures v / 256 == q && v % 256 == r
  {
  }

  /** The four base-256 digits of a number below 2^32. */
  lemma Digits(v: int, a: int, b: int, c: int, d: int)
    requires 0 <= a < 256 && 0 <= b < 256 && 0 <= c < 256 && 0 <= d < 256
    requires v == a * 0x100_0000 + b * 0x1_0000 + c * 0x100 + d
    ensures v / 0x100_0000 % 256 == a && v / 0x1_0000 % 256 == b && v / 0x100 % 256 == c && v % 256 == d
  {
    var q2 := a * 256 + b;
    var q1 := q2 * 256 + c;
    DivMod256(v, q1, d);
    DivMod256(q1, q2, c);
    DivMod256(q2, a, b);
    DivDiv(v);
  }

  /** Reading the header back gives the length that was written. */
  lemma FromBigEndianInverse(v: nat)
    requires v < UintLimit
    ensures FromBigEndian(BigEndian(v)) == v
  {
    var b := BigEndian(v);
    assert ByteValue(b[0]) == v / 0x100_0000 % 256 by { ByteOfUintValue(v, 0, 0x100_0000); }
    assert ByteValue(b[1]) == v / 0x1_0000 % 256 by { ByteOfUintValue(v, 1, 0x1_0000); }
    assert ByteValue(b[2]) == v / 0x100 % 256 by { ByteOfUintValue(v, 2, 0x100); }
    assert ByteValue(b[3]) == v % 256 by {
      ByteOfUintValue(v, 3, 1);
      assert v / 1 == v;
    }
    Recompose(v);
  }

  lemma ByteOfUintValue(v: nat, i: nat, w: nat)
    requires v < UintLimit && i < 4 && w == Pow256(3 - i)
    ensures ByteValue(ByteOfUint(v, i)) == v / w % 256
  {
    ByteValueToByte(v / w % 256);
  }

  /** A number below 2^32 is the weighted sum of its base-256 digits. */
  lemma Recompose(v: nat)
    requires v < UintLimit
    ensures v == v / 0x100_0000 % 256 * 0x100_0000 + v / 0x1_0000 % 256 * 0x1_0000 + v / 0x100 % 256 * 0x100 + v % 256
  {
    var q1 := v / 256;
    var q2 := q1 / 256;
    var q3 := q2 / 256;
    DivDiv(v);
    assert v / 0x100 == q1;
    assert q3 < 256;
    assert v == q1 * 256 + v % 256;
    assert q1 == q2 * 256 + q1 % 256;
    assert q2 == q3 * 256 + q2 % 256;
  }

  /** Byte i of the value read from a header is header byte i, as a number. */
  lemma DigitOf(b: seq<bv8>, i: nat)
    requires |b| == 4 && i < 4
    ensures FromBigEndian(b) / Pow256(3 - i) % 256 == ByteValue(b[i])
  {
    var v := FromBigEndian(b);
    Digits(v, ByteValue(b[0]), ByteValue(b[1]), ByteValue(b[2]), ByteValue(b[3]));
    if i == 0 {
      assert Pow256(3 - i) == 0x100_0000;
    } else if i == 1 {
      assert Pow256(3 - i) == 0x1_0000;
    } else if i == 2 {
      assert Pow256(3 - i) == 0x100;
    } else {
      assert Pow256(3 - i) == 1;
    }
  }

  lemma ByteOfDigit(v: nat, i: nat, c: bv8)
    requires v < UintLimit && i < 4 && v / Pow256(3 - i) % 256 == ByteValue(c)
    ensures ByteOfUint(v, i) == c
  {
    ToByteByteValue(c);
  }

  /** Every 4-byte header is the encoding of the value read from it. */
  lemma BigEndianInverse(b: seq<bv8>)
    requires |b| == 4
    ensures BigEndian(FromBigEndian(b)) == b
  {
    var v := FromBigEndian(b);
    forall i | 0 <= i < 4
      ensures BigEndian(v)[i] == b[i]
    {
      DigitOf(b, i);
      ByteOfDigit(v, i, b[i]);
    }
  }

  /** `uint_to_bytes`: writes v big-endian into to[0..3] and nothing else. */
  method UintToBytes(value: nat, to: array<bv8>)
    requires value < UintLimit && to.Length >= 4
    modifies to
    ensures to[..4] == BigEndian(value)
    ensures to[4..] == old(to[4..])
  {
    for i := 0 to 4
      invariant to[..i] == BigEndian(value)[..i]
      invariant to[4..] == old(to[4..])
    {
      to[i] := ByteOfUint(value, i);
    }
  }

  /** The sum of the first i weighted header bytes. */
  ghost function PartialUint(b: seq<bv8>, i: nat): nat
    requires |b| == 4 && i <= 4
  {
    if i == 0 then 0 else PartialUint(b, i - 1) + ByteValue(b[i - 1]) * Pow256(4 - i)
  }

  /** `bytes_to_uint`: the value stored big-endian in value[0..3]. */
  method BytesToUint(value: array<bv8>) returns (r: nat)
    requires value.Length >= 4
    ensures r == FromBigEndian(value[..4])
  {
    ghost var b := value[..4];
    r := 0;
    for i := 0 to 4
      invariant r == PartialUint(b, i)
    {
      assert value[i] == b[i];
      r := r + ByteValue(value[i]) * Pow256(3 - i);
    }
    PartialUintFull(b);
  }

  lemma PartialUintFull(b: seq<bv8>)
    requires |b| == 4
    ensures PartialUint(b, 4) == FromBigEndian(b)
  {
    assert PartialUint(b, 1) == ByteValue(b[0]) * 0x100_0000;
    assert PartialUint(b, 2) == PartialUint(b, 1) + ByteValue(b[1]) * 0x1_0000;
    assert PartialUint(b, 3) == PartialUint(b, 2) + ByteValue(b[2]) * 0x100;
  }

  /** Occurrences of the byte value c in s. */
  function Count(s: seq<Byte>, c: int): nat
  {
    if s == [] then 0 else Count(s[..|s| - 1], c) + (if s[|s| - 1] == c then 1 else 0)
  }

  /** The 256-entry frequency table of s. */
  function Frequencies(s: seq<Byte>): (f: seq<nat>)
    ensures |f| == 256
  {
    seq(256, i => Count(s, i))
  }

  function Sum(f: seq<nat>): nat
  {
    if f == [] then 0 else Sum(f[..|f| - 1]) + f[|f| - 1]
  }

  lemma {:induction false} SumIncrement(f: seq<nat>, i: nat)
    requires i < |f|
    ensures Sum(f[i := f[i] + 1]) == Sum(f) + 1
  {
    var g := f[i := f[i] + 1];
    assert g[..|g| - 1] == if i == |f| - 1 then f[..|f| - 1] else f[..|f| - 1][i := f[i] + 1];
    if i < |f| - 1 {
      SumIncrement(f[..|f| - 1], i);
    }
  }

  lemma CountSnoc(p: seq<Byte>, x: Byte, c: int)
    ensures Count(p + [x], c) == Count(p, c) + (if x == c then 1 else 0)
  {
    assert (p + [x])[..|p|] == p;
  }

  lemma FrequenciesSnoc(p: seq<Byte>, x: Byte)
    ensures Frequencies(p + [x]) == Frequencies(p)[x := Frequencies(p)[x] + 1]
  {
    var f, g := Frequencies(p + [x]), Frequencies(p)[x := Frequencies(p)[x] + 1];
    forall i | 0 <= i < 256
      ensures f[i] == g[i]
    {
      CountSnoc(p, x, i);
    }
  }

  /** Frequency conservation: the table's entries add up to the input length. */
  lemma {:induction false} FrequenciesTotal(s: seq<Byte>)
    ensures Sum(Frequencies(s)) == |s|
  {
    if s == [] {
      var f := Frequencies(s);
      ZeroPrefix(f, 256);
      assert f[..256] == f;
    } else {
      var p, x := s[..|s| - 1], s[|s| - 1];
      assert s == p + [x];
      FrequenciesTotal(p);
      FrequenciesSnoc(p, x);
      SumIncrement(Frequencies(p), x);
    }
  }

  lemma {:induction false} ZeroPrefix(f: seq<nat>, k: nat)
    requires k <= |f| && forall i :: 0 <= i < |f| ==> f[i] == 0
    ensures Sum(f[..k]) == 0
  {
    if k > 0 {
      assert f[..k][..k - 1] == f[..k - 1];
      ZeroPrefix(f, k - 1);
    }
  }

  /** `calculate_frequencies`: adds one to to[b] per occurrence of b in the
      input and returns the number of bytes read. */
  method CalculateFrequencies(input: seq<Byte>, to: array<nat>) returns (len: nat)
    requires to.Length == 256
    modifies to
    ensures len == |input|
    ensures forall c :: 0 <= c < 256 ==> to[c] == old(to[c]) + Count(input, c)
  {
    len := 0;
    assert input[..0] == [];
    while len < |input|
      invariant len <= |input|
      invariant forall c :: 0 <= c < 256 ==> to[c] == old(to[c]) + Count(input[..len], c)
    {
      var x := input[len];
      to[x] := to[x] + 1;
      assert input[..len + 1] == input[..len] + [x];
      forall c | 0 <= c < 256
        ensures Count(input[..len + 1], c) == Count(input[..len], c) + (if x == c then 1 else 0)
      {
        CountSnoc(input[..len], x, c);
      }
      len := len + 1;
    }
    assert input[..len] == input;
  }

  // ---------------------------------------------------------------------
  // sort with nodes_cmp

  /** One comparison of the inner loop: swap s[j] and s[j+1] when
      `nodes_cmp` says 1. */
  function Step(s: seq<Tree>, j: nat): (r: seq<Tree>)
    requires j + 1 < |s|
    ensures |r| == |s|
  {
    if NodesCmp(s[j], s[j + 1]) == 1 then s[j := s[j + 1]][j + 1 := s[j]] else s
  }

  /** The first n comparisons of one inner pass. */
  function Pass(s: seq<Tree>, n: nat): (r: seq<Tree>)
    requires n < |s|
    ensures |r| == |s|
  {
    if n == 0 then s else Step(Pass(s, n - 1), n - 1)
  }

  /** The first i passes of the outer loop; pass i - 1 compares up to
      index |s| - i. */
  function Passes(s: seq<Tree>, i: nat): (r: seq<Tree>)
    requires i < |s|
    ensures |r| == |s|
  {
    if i == 0 then s else Pass(Passes(s, i - 1), |s| - i)
  }

  /** What `sort(a, len, nodes_cmp)` leaves in a[0..len-1]. */
  function BubbleSort(s: seq<Tree>): (r: seq<Tree>)
    requires |s| >= 1
    ensures |r| == |s|
  {
    Passes(s, |s| - 1)
  }

  /** The nodes of s whose frequency is f, in order. */
  function WithFreq(s: seq<Tree>, f: nat): seq<Tree>
  {
    if s == [] then [] else WithFreq(s[..|s| - 1], f) + (if s[|s| - 1].freq == f then [s[|s| - 1]] else [])
  }

  predicate Descending(s: seq<Tree>)
  {
    DescendingFrom(s, 0)
  }

  /** s[m..] is ordered by non-increasing frequency. */
  predicate DescendingFrom(s: seq<Tree>, m: nat)
  {
    forall k :: m <= k < |s| - 1 ==> s[k].freq >= s[k + 1].freq
  }

  /** Every node before index m is at least as frequent as every node from m on. */
  predicate Split(r: seq<Tree>, m: nat)
  {
    forall k, l :: 0 <= k < m <= l < |r| ==> r[k].freq >= r[l].freq
  }

  lemma {:induction false} WithFreqAppend(a: seq<Tree>, b: seq<Tree>, f: nat)
    ensures WithFreq(a + b, f) == WithFreq(a, f) + WithFreq(b, f)
  {
    if b != [] {
      assert (a + b)[..|a + b| - 1] == a + b[..|b| - 1];
      WithFreqAppend(a, b[..|b| - 1], f);
    } else {
      assert a + b == a;
    }
  }

  lemma SwapWithFreq(pre: seq<Tree>, x: Tree, y: Tree, post: seq<Tree>, f: nat)
    requires x.freq != y.freq
    ensures WithFreq(pre + [y, x] + post, f) == WithFreq(pre + [x, y] + post, f)
  {
    WithFreqAppend(pre + [x, y], post, f);
    WithFreqAppend(pre, [x, y], f);
    WithFreqAppend(pre + [y, x], post, f);
    WithFreqAppend(pre, [y, x], f);
    assert [x, y][..1] == [x] && [y, x][..1] == [y];
    assert [x][..0] == [] && [y][..0] == [];
  }

  /** A step permutes the nodes. */
  lemma StepPerm(s: seq<Tree>, j: nat)
    requires j + 1 < |s|
    ensures multiset(Step(s, j)) == multiset(s)
  {
    if NodesCmp(s[j], s[j + 1]) == 1 {
      var pre, post := s[..j], s[j + 2..];
      assert s == pre + [s[j], s[j + 1]] + post;
      assert Step(s, j) == pre + [s[j + 1], s[j]] + post;
    }
  }

  /** A step only exchanges nodes of different frequencies, so it keeps the
      order among the nodes of frequency f. */
  lemma StepStable(s: seq<Tree>, j: nat, f: nat)
    requires j + 1 < |s|
    ensures WithFreq(Step(s, j), f) == WithFreq(s, f)
  {
    if NodesCmp(s[j], s[j + 1]) == 1 {
      var pre, post := s[..j], s[j + 2..];
      assert s == pre + [s[j], s[j + 1]] + post;
      assert Step(s, j) == pre + [s[j + 1], s[j]] + post;
      SwapWithFreq(pre, s[j], s[j + 1], post, f);
    }
  }

  /** A step leaves the less frequent of s[j], s[j+1] at j + 1 and moves
      nothing else. */
  lemma StepShape(s: seq<Tree>, j: nat)
    requires j + 1 < |s|
    ensures forall k :: 0 <= k < |s| && k != j && k != j + 1 ==> Step(s, j)[k] == s[k]
    ensures Step(s, j)[j].freq >= Step(s, j)[j + 1].freq
    ensures Step(s, j)[j + 1].freq <= s[j].freq
  {
  }

  lemma {:induction false} PassPerm(s: seq<Tree>, n: nat)
    requires n < |s|
    ensures multiset(Pass(s, n)) == multiset(s)
  {
    if n > 0 {
      PassPerm(s, n - 1);
      StepPerm(Pass(s, n - 1), n - 1);
    }
  }

  lemma {:induction false} PassStable(s: seq<Tree>, n: nat, f: nat)
    requires n < |s|
    ensures WithFreq(Pass(s, n), f) == WithFreq(s, f)
  {
    if n > 0 {
      PassStable(s, n - 1, f);
      StepStable(Pass(s, n - 1), n - 1, f);
    }
  }

  /** After n comparisons of a pass, r[n] is a least frequent node of r[0..n]
      and nothing beyond index n has moved. */
  lemma {:induction false} PassMin(s: seq<Tree>, n: nat)
    requires n < |s|
    ensures forall k :: 0 <= k <= n ==> Pass(s, n)[k].freq >= Pass(s, n)[n].freq
    ensures forall k :: n < k < |s| ==> Pass(s, n)[k] == s[k]
  {
    if n > 0 {
      PassMin(s, n - 1);
      StepShape(Pass(s, n - 1), n - 1);
    }
  }

  lemma SameMultisetPrefix(r: seq<Tree>, r': seq<Tree>, m: nat)
    requires |r| == |r'| && m <= |r| && multiset(r') == multiset(r)
    requires forall k :: m <= k < |r| ==> r'[k] == r[k]
    ensures multiset(r'[..m]) == multiset(r[..m])
  {
    assert r'[m..] == r[m..];
    assert r == r[..m] + r[m..];
    assert r' == r'[..m] + r'[m..];
    assert multiset(r) == multiset(r[..m]) + multiset(r[m..]);
    assert multiset(r') == multiset(r'[..m]) + multiset(r'[m..]);
    forall x
      ensures multiset(r'[..m])[x] == multiset(r[..m])[x]
    {
      assert multiset(r')[x] == multiset(r'[..m])[x] + multiset(r[m..])[x];
      assert multiset(r)[x] == multiset(r[..m])[x] + multiset(r[m..])[x];
    }
  }

  /** A node of a permuted prefix is a node of the original prefix. */
  lemma PrefixElement(r: seq<Tree>, r': seq<Tree>, m: nat, k: nat) returns (k': nat)
    requires m <= |r| && m <= |r'| && multiset(r'[..m]) == multiset(r[..m]) && k < m
    ensures k' < m && r[k'] == r'[k]
  {
    assert r'[..m][k] == r'[k];
    assert r'[k] in multiset(r[..m]);
    var j :| 0 <= j < m && r[..m][j] == r'[k];
    k' := j;
  }

  lemma PassSplit(r: seq<Tree>, r': seq<Tree>, m: nat)
    requires 1 <= m <= |r| == |r'| && Split(r, m)
    requires forall k :: m <= k < |r| ==> r'[k] == r[k]
    requires multiset(r'[..m]) == multiset(r[..m])
    requires forall k :: 0 <= k < m ==> r'[k].freq >= r'[m - 1].freq
    ensures Split(r', m - 1)
  {
    forall k, l | 0 <= k < m - 1 <= l < |r|
      ensures r'[k].freq >= r'[l].freq
    {
      if l >= m {
        var k' := PrefixElement(r, r', m, k);
      }
    }
  }

  lemma PassDescending(r: seq<Tree>, r': seq<Tree>, m: nat)
    requires 1 <= m <= |r| == |r'| && Split(r, m) && DescendingFrom(r, m)
    requires forall k :: m <= k < |r| ==> r'[k] == r[k]
    requires multiset(r'[..m]) == multiset(r[..m])
    ensures DescendingFrom(r', m - 1)
  {
    if m < |r| {
      var k' := PrefixElement(r, r', m, m - 1);
    }
  }

  /** One more pass moves the boundary of the sorted tail one place left. */
  lemma PassExtends(r: seq<Tree>, m: nat)
    requires 1 <= m <= |r| && Split(r, m) && DescendingFrom(r, m)
    ensures Split(Pass(r, m - 1), m - 1) && DescendingFrom(Pass(r, m - 1), m - 1)
  {
    var r' := Pass(r, m - 1);
    PassPerm(r, m - 1);
    PassMin(r, m - 1);
    SameMultisetPrefix(r, r', m);
    PassSplit(r, r', m);
    PassDescending(r, r', m);
  }

  lemma {:induction false} PassesPerm(s: seq<Tree>, i: nat)
    requires i < |s|
    ensures multiset(Passes(s, i)) == multiset(s)
  {
    if i > 0 {
      PassesPerm(s, i - 1);
      PassPerm(Passes(s, i - 1), |s| - i);
    }
  }

  lemma {:induction false} PassesStable(s: seq<Tree>, i: nat, f: nat)
    requires i < |s|
    ensures WithFreq(Passes(s, i), f) == WithFreq(s, f)
  {
    if i > 0 {
      PassesStable(s, i - 1, f);
      PassStable(Passes(s, i - 1), |s| - i, f);
    }
  }

  /** After i passes the last i nodes are in place: sorted, and no more
      frequent than any node before them. */
  lemma {:induction false} PassesSorted(s: seq<Tree>, i: nat)
    requires i < |s|
    ensures DescendingFrom(Passes(s, i), |s| - i)
    ensures Split(Passes(s, i), |s| - i)
  {
    if i > 0 {
      PassesSorted(s, i - 1);
      PassExtends(Passes(s, i - 1), |s| - i + 1);
    }
  }

  /** `sort` permutes its input. */
  lemma BubbleSortPerm(s: seq<Tree>)
    requires |s| >= 1
    ensures multiset(BubbleSort(s)) == multiset(s)
  {
    PassesPerm(s, |s| - 1);
  }

  /** `sort` with `nodes_cmp` orders by non-increasing frequency (no adjacent
      pair compares 1), permutes its input, and keeps nodes of equal
      frequency in their original order. */
  lemma BubbleSortSpec(s: seq<Tree>)
    requires |s| >= 1
    ensures Descending(BubbleSort(s))
    ensures forall k :: 0 <= k < |s| - 1 ==> NodesCmp(BubbleSort(s)[k], BubbleSort(s)[k + 1]) != 1
    ensures multiset(BubbleSort(s)) == multiset(s)
    ensures forall f :: WithFreq(BubbleSort(s), f) == WithFreq(s, f)
  {
    BubbleSortPerm(s);
    PassesSorted(s, |s| - 1);
    var r := BubbleSort(s);
    if |s| > 1 {
      assert r[0].freq >= r[1].freq;
    }
    forall f
      ensures WithFreq(r, f) == WithFreq(s, f)
    {
      PassesStable(s, |s| - 1, f);
    }
  }

  /** `swap`: exchanges a[i] and a[j]. */
  method Swap(a: array<Tree>, i: nat, j: nat)
    requires i < a.Length && j < a.Length
    modifies a
    ensures a[..] == old(a[..])[i := old(a[j])][j := old(a[i])]
  {
    var tmp := a[i];
    a[i] := a[j];
    a[j] := tmp;
  }

  /** `sort(a, len, nodes_cmp)`: bubble sort of a[0..len-1] in place. The
      source needs len >= 1, since `len - 1` is unsigned. */
  method Sort(a: array<Tree>, len: nat)
    requires 1 <= len <= a.Length
    modifies a
    ensures a[..len] == BubbleSort(old(a[..len]))
    ensures a[len..] == old(a[len..])
  {
    ghost var s := a[..len];
    var i := 0;
    while i < len - 1
      invariant 0 <= i <= len - 1
      invariant a[..len] == Passes(s, i)
      invariant a[len..] == old(a[len..])
    {
      ghost var t := a[..len];
      var j := 0;
      while j < len - i - 1
        invariant 0 <= j <= len - i - 1
        invariant a[..len] == Pass(t, j)
        invariant a[len..] == old(a[len..])
      {
        if NodesCmp(a[j], a[j + 1]) == 1 {
          Swap(a, j, j + 1);
        }
        j := j + 1;
      }
      i := i + 1;
    }
  }
}
