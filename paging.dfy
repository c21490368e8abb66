/** The page buffers of src/huffman.c: `dump` (the compressor's output page)
    and `in_buf` (the decompressor's input page), both BUFSIZE bytes, that
    the payload loops address with a bit cursor and flush or refill when the
    cursor reaches the end of the page. */
module Paging {
  import opened Bits
  import opened TreeCodec

  /** n zero bytes: a page after `memset(.., 0, BUFSIZE)` or `= {0}`. */
  function ZeroBytes(n: nat): (r: seq<bv8>)
    ensures |r| == n && forall j :: 0 <= j < n ==> r[j] == 0
  {
    seq(n, _ => 0)
  }

  lemma ZeroByteBits()
    ensures ByteBits(0) == Zeros(8)
  {
    forall k | 0 <= k < 8
      ensures ByteBits(0)[k] == Zeros(8)[k]
    {
      ZeroBit(k);
    }
  }

  /** A zeroed page holds no 1 bits. */
  lemma {:induction false} ZeroBytesBits(n: nat)
    ensures BytesToBits(ZeroBytes(n)) == Zeros(8 * n)
  {
    if n > 0 {
      assert ZeroBytes(n)[..n - 1] == ZeroBytes(n - 1);
      ZeroBytesBits(n - 1);
      ZeroByteBits();
      assert Zeros(8 * (n - 1)) + Zeros(8) == Zeros(8 * n);
    }
  }

  /** The page a holds the bits cur from its start and zero bits after them:
      the state of `dump` with the cursor at |cur|. */
  predicate PageHolds(a: seq<bv8>, cur: seq<bool>)
  {
    |cur| <= 8 * |a| && BytesToBits(a) == cur + Zeros(8 * |a| - |cur|)
  }

  /** ORing bits in at the cursor of a page that is zero from the cursor on
      appends them. */
  lemma OrsInPage(a: seq<bv8>, b: seq<bv8>, cur: seq<bool>, bits: seq<bool>)
    requires PageHolds(a, cur) && OrsIn(a, b, |cur|, bits)
    ensures PageHolds(b, cur + bits)
  {
    var n := 8 * |a|;
    var after := cur + bits + Zeros(n - |cur| - |bits|);
    forall i | 0 <= i < n
      ensures BytesToBits(b)[i] == after[i]
    {
      assert OrAt(a, b, |cur|, bits, i);
      OrsInPageAt(BytesToBits(a), BytesToBits(b), cur, bits, i);
    }
  }

  lemma OrsInPageAt(x: seq<bool>, y: seq<bool>, cur: seq<bool>, bits: seq<bool>, i: nat)
    requires |x| == |y| && |cur| + |bits| <= |x| && i < |x| && x == cur + Zeros(|x| - |cur|)
    requires y[i] == (x[i] || (|cur| <= i < |cur| + |bits| && bits[i - |cur|]))
    ensures y[i] == (cur + bits + Zeros(|x| - |cur| - |bits|))[i]
  {
  }

  /** A 0 bit costs only a cursor step: the page already holds it. */
  lemma PageSkip(a: seq<bv8>, cur: seq<bool>)
    requires PageHolds(a, cur) && |cur| < 8 * |a|
    ensures PageHolds(a, cur + [false])
  {
    var m := 8 * |a| - |cur|;
    assert Zeros(m) == [false] + Zeros(m - 1);
    assert cur + Zeros(m) == cur + [false] + Zeros(m - 1);
  }

  /** A full page holds exactly its bits. */
  lemma PageFull(a: seq<bv8>, cur: seq<bool>)
    requires PageHolds(a, cur) && |cur| == 8 * |a|
    ensures BytesToBits(a) == cur
  {
    assert Zeros(0) == [];
    assert cur + [] == cur;
  }

  /** `memset(.., 0, BUFSIZE)` on a page buffer. */
  method ClearPage(to: array<bv8>)
    modifies to
    ensures to[..] == ZeroBytes(to.Length)
  {
    for i := 0 to to.Length
      invariant forall j :: 0 <= j < i ==> to[j] == 0
    {
      to[i] := 0;
    }
  }

  /** A cleared page holds nothing yet. */
  lemma PageCleared(n: nat)
    ensures PageHolds(ZeroBytes(n), [])
  {
    ZeroBytesBits(n);
    assert [] + Zeros(8 * n) == Zeros(8 * n);
  }

  /** Whole bytes h at the front of a zeroed page. */
  lemma PageFront(a: seq<bv8>, h: seq<bv8>)
    requires |h| <= |a| && a[..|h|] == h && a[|h|..] == ZeroBytes(|a| - |h|)
    ensures PageHolds(a, BytesToBits(h))
  {
    var z := ZeroBytes(|a| - |h|);
    SplitAt(a, h, z);
    ZeroBytesBits(|a| - |h|);
    BytesToBitsAppend(h, z);
    HoldsFront(BytesToBits(a), BytesToBits(h), BytesToBits(z));
  }

  lemma HoldsFront(a: seq<bool>, h: seq<bool>, z: seq<bool>)
    requires a == h + z && z == Zeros(|z|)
    ensures a == h + Zeros(|a| - |h|)
  {
  }

  lemma SplitAt(a: seq<bv8>, h: seq<bv8>, z: seq<bv8>)
    requires |h| <= |a| && a[..|h|] == h && a[|h|..] == z
    ensures a == h + z
  {
    assert a == a[..|h|] + a[|h|..];
  }

  /** Bytes that hold no 1 bits, after bytes that hold s and zero bits, hold
      s and more zero bits. */
  lemma PadWith(x: seq<bv8>, z: seq<bv8>, s: seq<bool>)
    requires 8 * |x| >= |s| && BytesToBits(x) == s + Zeros(8 * |x| - |s|)
    requires BytesToBits(z) == Zeros(8 * |z|)
    ensures BytesToBits(x + z) == s + Zeros(8 * (|x| + |z|) - |s|)
  {
    BytesToBitsAppend(x, z);
    ZerosJoin(BytesToBits(x), BytesToBits(z), s, 8 * |x| - |s|, 8 * |z|);
  }

  /** Padding bytes that hold s and zero bits to whole pages keeps them
      holding s and zero bits. */
  lemma PaddedBits(x: seq<bv8>, s: seq<bool>, page: nat)
    requires page > 0 && 8 * |x| >= |s| && BytesToBits(x) == s + Zeros(8 * |x| - |s|)
    ensures 8 * |Padded(x, page)| >= |s|
    ensures BytesToBits(Padded(x, page)) == s + Zeros(8 * |Padded(x, page)| - |s|)
  {
    var p := Padded(x, page);
    var z := ZeroBytes(|p| - |x|);
    PaddedZeros(x, page);
    ZeroBytesBits(|p| - |x|);
    PadWith(x, z, s);
  }

  lemma ZerosJoin(u: seq<bool>, v: seq<bool>, s: seq<bool>, a: nat, b: nat)
    requires u == s + Zeros(a) && v == Zeros(b)
    ensures u + v == s + Zeros(a + b)
  {
  }

  /** The bits of the first m bytes are the first 8m bits. */
  lemma BytesToBitsPrefix(d: seq<bv8>, m: nat)
    requires m <= |d|
    ensures BytesToBits(d[..m]) == BytesToBits(d)[..8 * m]
  {
    assert d == d[..m] + d[m..];
    BytesToBitsAppend(d[..m], d[m..]);
  }

  /** `Pack` is the only byte string of its length that holds the bits
      followed by zero padding. */
  lemma PackUnique(x: seq<bv8>, s: seq<bool>)
    requires |x| == (|s| + 7) / 8 && 8 * |x| >= |s| && BytesToBits(x) == s + Zeros(8 * |x| - |s|)
    ensures x == Pack(s)
  {
    PackBits(s);
    BytesToBitsInjective(x, Pack(s));
  }

  /** The last, partial page `tree_write_compressed` writes: its first
      `bit_position / 8` bytes, plus one if a byte is partly filled. Together
      with the full pages before it this is the packed stream. */
  lemma FinalFlush(out: seq<bv8>, d: seq<bv8>, cur: seq<bool>, s: seq<bool>)
    requires BytesToBits(out) + cur == s && PageHolds(d, cur)
    ensures out + d[..(|cur| + 7) / 8] == Pack(s)
  {
    var m := (|cur| + 7) / 8;
    var x := out + d[..m];
    BytesToBitsAppend(out, d[..m]);
    BytesToBitsPrefix(d, m);
    assert BytesToBits(d)[..8 * m] == cur + Zeros(8 * m - |cur|);
    assert BytesToBits(x) == s + Zeros(8 * |x| - |s|);
    PackUnique(x, s);
  }

  /** The stream ends exactly at a page boundary: the full pages already
      written are the packed stream. */
  lemma NoFinalFlush(out: seq<bv8>, s: seq<bool>)
    requires BytesToBits(out) == s
    ensures out == Pack(s)
  {
    assert s + Zeros(0) == s;
    PackUnique(out, s);
  }

  // ---------------------------------------------------------------------
  // reading pages

  /** The number of `fread` calls of BUFSIZE bytes that return something for
      a container of n bytes. */
  function PageCount(n: nat, page: nat): nat
    requires page > 0
  {
    (n + page - 1) / page
  }

  /** The container as the decompressor sees it: page after page, the
      last one zero-filled past the end of the container (each `fread` of
      BUFSIZE bytes into a page that was zero before). */
  function Padded(c: seq<bv8>, page: nat): (r: seq<bv8>)
    requires page > 0
    ensures |r| >= |c| && |r| >= page && r[..|c|] == c
    decreases |c|
  {
    if |c| <= page then c + ZeroBytes(page - |c|)
    else
      var rest := Padded(c[page..], page);
      assert (c[..page] + rest)[..|c|] == c[..page] + rest[..|c| - page];
      c[..page] + rest
  }

  /** A non-empty container is padded to whole pages. */
  lemma {:induction false} PaddedSize(c: seq<bv8>, page: nat)
    requires page > 0 && |c| > 0
    ensures |Padded(c, page)| == PageCount(|c|, page) * page
    decreases |c|
  {
    if |c| <= page {
      DivOfMultiple(1, page, |c| - 1);
    } else {
      PaddedSize(c[page..], page);
      PageCountStep(|c|, page);
    }
  }

  /** One page more holds page bytes more. */
  lemma PageCountStep(n: nat, page: nat)
    requires 0 < page < n
    ensures PageCount(n, page) == PageCount(n - page, page) + 1
    ensures PageCount(n, page) * page == PageCount(n - page, page) * page + page
  {
    var q, r := (n - 1) / page, (n - 1) % page;
    assert n - 1 == q * page + r;
    assert (q + 1) * page == q * page + page;
    DivOfMultiple(q + 1, page, r);
  }

  /** Past the container, the pages hold zero bytes. */
  lemma {:induction false} PaddedZeros(c: seq<bv8>, page: nat)
    requires page > 0
    ensures Padded(c, page) == c + ZeroBytes(|Padded(c, page)| - |c|)
    decreases |c|
  {
    if |c| > page {
      var rest := c[page..];
      PaddedZeros(rest, page);
      assert c == c[..page] + rest;
    }
  }

  lemma MulStep(a: int, b: int, d: int)
    requires d > 0 && a < b
    ensures a * d + d <= b * d
  {
    var x := b - a - 1;
    assert b * d == a * d + x * d + d;
    assert x * d >= 0;
  }

  /** Division of a multiple plus a remainder. */
  lemma DivOfMultiple(j: nat, d: nat, r: nat)
    requires d > 0 && r < d
    ensures (j * d + r) / d == j && (j * d + r) % d == r
  {
    var n := j * d + r;
    var q, m := n / d, n % d;
    assert n == q * d + m;
    if q < j {
      MulStep(q, j, d);
    } else if q > j {
      MulStep(j, q, d);
    }
  }

  /** A page that starts inside a container of n bytes lies inside its
      padded pages. */
  lemma PageWithin(n: nat, page: nat, k: nat)
    requires page > 0 && k * page < n
    ensures k * page + page <= PageCount(n, page) * page
  {
    var q, r := (n + page - 1) / page, (n + page - 1) % page;
    assert n + page - 1 == q * page + r;
    assert (k + 1) * page == k * page + page;
    if q < k + 1 {
      MulStep(q, k + 1, page);
    } else if q > k + 1 {
      MulStep(k + 1, q, page);
    }
  }

  /** The page a container of n bytes ends in is its last page. */
  lemma PageLast(n: nat, page: nat, k: nat)
    requires page > 0 && k * page < n <= k * page + page
    ensures PageCount(n, page) * page == k * page + page
  {
    assert n + page - 1 == (k + 1) * page + (n - 1 - k * page);
    DivOfMultiple(k + 1, page, n - 1 - k * page);
    assert (k + 1) * page == k * page + page;
  }

  /** A start of a page is a whole number of pages. */
  lemma PageStart(start: nat, page: nat)
    requires page > 0 && start % page == 0
    ensures start == (start / page) * page
  {
  }

  /** The page after a start of a page starts a page too. */
  lemma NextPage(start: nat, page: nat)
    requires page > 0 && start % page == 0
    ensures (start + page) % page == 0
  {
    var k := start / page;
    PageStart(start, page);
    assert start + page == (k + 1) * page + 0;
    DivOfMultiple(k + 1, page, 0);
  }

  /** A page that a read fills from the container c from byte `start` on,
      zero past the end of c, is the page of the padded container that
      starts there. */
  lemma PageRead(c: seq<bv8>, page: nat, buf: seq<bv8>, start: nat, count: nat)
    requires page > 0 && start % page == 0 && start < |c| && |buf| == page
    requires count == if |c| - start < page then |c| - start else page
    requires buf[..count] == c[start..start + count] && buf[count..] == ZeroBytes(page)[count..]
    ensures start + page <= |Padded(c, page)| && buf == Padded(c, page)[start..start + page]
  {
    var p := Padded(c, page);
    PaddedZeros(c, page);
    PaddedSize(c, page);
    PageStart(start, page);
    PageWithin(|c|, page, start / page);
    forall i | 0 <= i < page
      ensures buf[i] == p[start + i]
    {
      if i < count {
        assert buf[i] == buf[..count][i];
      } else {
        assert buf[i] == buf[count..][i - count];
      }
    }
  }

  /** A refill that finds the container used up follows the last page. */
  lemma RefillEnd(c: seq<bv8>, page: nat, start: nat)
    requires page > 0 && start % page == 0 && start < |c| <= start + page
    ensures start + page == |Padded(c, page)|
  {
    PaddedSize(c, page);
    PageStart(start, page);
    PageLast(|c|, page, start / page);
  }

  /** The bit `in_buf[bp / 8] & (128u >> bp % 8)` tests, on the page of p
      that starts at byte `start`, is bit 8 * start + bp of p. */
  lemma BufferBit(p: seq<bv8>, buf: seq<bv8>, start: nat, bp: nat)
    requires start + |buf| <= |p| && buf == p[start..start + |buf|] && bp < 8 * |buf|
    ensures (buf[bp / 8] & Mask(bp % 8) != 0) == BytesToBits(p)[8 * start + bp]
  {
    PageBitOf(p, buf, start, bp, bp / 8, bp % 8);
    BitIndex(buf, bp, bp / 8, bp % 8);
  }

  /** Bit bp = 8q + r of the page pg that starts at byte `start` of p is
      bit 8 * start + bp of p. */
  lemma PageBitOf(p: seq<bv8>, pg: seq<bv8>, start: nat, bp: nat, q: nat, r: nat)
    requires bp == 8 * q + r && r < 8 && q < |pg| && start + q < |p| && pg[q] == p[start + q]
    ensures BytesToBits(pg)[bp] == BytesToBits(p)[8 * start + bp]
  {
    BitIndex(pg, bp, q, r);
    BitIndex(p, 8 * (start + q) + r, start + q, r);
    SameBit(BytesToBits(pg)[bp], BytesToBits(p)[8 * (start + q) + r], pg[q], p[start + q], r);
  }

  lemma SameBit(x: bool, y: bool, u: bv8, v: bv8, k: nat)
    requires k < 8 && x == BitAt(u, k) && y == BitAt(v, k) && u == v
    ensures x == y
  {
  }
}
