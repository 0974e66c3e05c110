/** How many bytes and blocks of a file are stored: the hole list against the set it stands for. */
module Accounting {
  import opened Bytes
  import opened Holes
  import opened Ranks

  /** Number of bytes below `p` that lie in a block of `s`. */
  function BytesIn(s: set<nat>, bs: nat, p: nat): nat
    requires bs > 0
  {
    if p == 0 then 0 else BytesIn(s, bs, p - 1) + if BlockOf(p - 1, bs) in s then 1 else 0
  }

  /** Number of bytes below `p` that are stored. */
  function StoredBytes(sparse: set<nat>, bs: nat, p: nat): nat
    requires bs > 0
  {
    if p == 0 then 0 else StoredBytes(sparse, bs, p - 1) + if BlockOf(p - 1, bs) in sparse then 0 else 1
  }

  lemma {:induction false} StoredOrSparse(sparse: set<nat>, bs: nat, p: nat)
    requires bs > 0
    ensures StoredBytes(sparse, bs, p) + BytesIn(sparse, bs, p) == p
  {
    if p > 0 {
      StoredOrSparse(sparse, bs, p - 1);
    }
  }

  lemma {:induction false} BytesInUnion(a: set<nat>, b: set<nat>, bs: nat, p: nat)
    requires bs > 0 && a !! b
    ensures BytesIn(a + b, bs, p) == BytesIn(a, bs, p) + BytesIn(b, bs, p)
  {
    if p > 0 {
      BytesInUnion(a, b, bs, p - 1);
    }
  }

  lemma {:induction false} BytesInNone(bs: nat, p: nat)
    requires bs > 0
    ensures BytesIn({}, bs, p) == 0
  {
    if p > 0 {
      BytesInNone(bs, p - 1);
    }
  }

  function Min(a: nat, b: nat): nat {
    if a < b then a else b
  }

  /** A hole covers the bytes from its start to its end, or to the end of the file. */
  lemma {:induction false} BytesInHole(h: Hole, bs: nat, p: nat, lo: nat, hi: nat)
    requires bs > 0 && lo == h.index * bs && hi == h.End() * bs
    ensures lo <= hi
    ensures BytesIn(Span(h), bs, p) == Min(hi, p) - Min(lo, p)
  {
    MulLe(h.index, h.End(), bs);
    if p > 0 {
      BytesInHole(h, bs, p - 1, lo, hi);
      BeforeBlock(p - 1, h.index, bs);
      BeforeBlock(p - 1, h.End(), bs);
    }
  }

  /** Stored bytes up to a place in block `q`: the stored blocks before, and that part of it. */
  lemma {:induction false} StoredBytesAt(sparse: set<nat>, bs: nat, q: nat, r: nat, p: nat)
    requires 0 < bs && r <= bs && p == q * bs + r
    ensures StoredBytes(sparse, bs, p) == Rank(sparse, q) * bs + if q in sparse then 0 else r
    decreases q, r
  {
    if r > 0 {
      ByteIndexUnique(q, r - 1, bs, p - 1);
      StoredBytesAt(sparse, bs, q, r - 1, p - 1);
    } else if q > 0 {
      assert p == (q - 1) * bs + bs;
      StoredBytesAt(sparse, bs, q - 1, bs, p);
      assert (Rank(sparse, q - 1) + 1) * bs == Rank(sparse, q - 1) * bs + bs;
    }
  }

  /** The physical size rounded up to blocks is the number of stored blocks, whatever the tail. */
  lemma StoredBlocks(sparse: set<nat>, bs: nat, size: nat)
    requires bs > 0
    ensures var k, phys := Rank(sparse, BlockCount(size, bs)), StoredBytes(sparse, bs, size);
            && BlockCount(phys, bs) == k && (phys == 0 <==> k == 0)
            && OffsetOf(phys, bs) == if BlockOf(size, bs) in sparse then 0 else OffsetOf(size, bs)
  {
    hide StoredBytes, BlockOf, OffsetOf;
    var q, t := BlockOf(size, bs), OffsetOf(size, bs);
    ByteIndex(size, bs);
    StoredBytesAt(sparse, bs, q, t, size);
    RoundedUp(Rank(sparse, q), if q in sparse then 0 else t, bs, StoredBytes(sparse, bs, size));
  }

  lemma RoundedUp(n: nat, r: nat, bs: nat, p: nat)
    requires r < bs && p == n * bs + r
    ensures BlockCount(p, bs) == (if r == 0 then n else n + 1) && OffsetOf(p, bs) == r
    ensures p == 0 <==> n == 0 && r == 0
  {
    ByteIndexUnique(n, r, bs, p);
    if n > 0 {
      MulLe(1, n, bs);
    }
  }

  /** Sum of the lengths of the holes that start below block `i`. */
  function CountsBelow(hs: seq<Hole>, i: nat): nat {
    if hs == [] then 0
    else CountsBelow(hs[..|hs| - 1], i) + if hs[|hs| - 1].index < i then hs[|hs| - 1].count else 0
  }

  lemma {:induction false} RankSpan(sparse: set<nat>, h: Hole, n: nat)
    requires h.End() <= n && forall i | i in Span(h) :: i !in sparse
    ensures Rank(sparse + Span(h), n) + h.count == Rank(sparse, n)
    decreases h.count
  {
    if h.count == 0 {
      assert sparse + Span(h) == sparse;
    } else {
      var g := Hole(h.index, h.count - 1);
      SpanGrown(g, h, g.End());
      RankSpan(sparse, g, n);
      assert g.End() in Span(h);
      RankMark(sparse + Span(g), g.End(), n);
      assert sparse + Span(g) + {g.End()} == sparse + Span(h);
    }
  }

  /** At a block that no hole runs across, the rank is the block number less the lengths of the holes before. */
  lemma {:induction false} RankAt(hs: seq<Hole>, i: nat)
    requires Canonical(hs) && forall k | 0 <= k < |hs| :: hs[k].End() <= i || i <= hs[k].index
    ensures Rank(HoleSet(hs), i) + CountsBelow(hs, i) == i
  {
    if hs == [] {
      RankNone(i);
      assert HoleSet(hs) == {};
    } else {
      var front, h := hs[..|hs| - 1], hs[|hs| - 1];
      assert hs == front + [h] + [];
      CanonicalFits(front, h, []);
      RankAt(front, i);
      HoleSetParts(front, h, []);
      assert HoleSet([]) == {};
      forall j | j in Span(h) ensures j !in HoleSet(front) {
        BelowAvoids(front, h.index, j);
      }
      assert HoleSet(hs) == HoleSet(front) + Span(h);
      if h.End() <= i {
        RankSpan(HoleSet(front), h, i);
      } else {
        RankAgree(HoleSet(hs), HoleSet(front), i);
      }
    }
  }

  /** Ranks do not grow across blocks that are sparse. */
  lemma {:induction false} RankFlat(sparse: set<nat>, i: nat, j: nat)
    requires i <= j && forall x: nat | i <= x < j :: x in sparse
    ensures Rank(sparse, j) == Rank(sparse, i)
  {
    if i < j {
      RankFlat(sparse, i, j - 1);
    }
  }

  lemma {:induction false} CountsPrefix(hs: seq<Hole>, k: nat, i: nat)
    requires k <= |hs| && forall j | k <= j < |hs| :: i <= hs[j].index
    ensures CountsBelow(hs, i) == CountsBelow(hs[..k], i)
  {
    if k < |hs| {
      CountsPrefix(hs[..|hs| - 1], k, i);
      assert hs[..|hs| - 1][..k] == hs[..k];
    } else {
      assert hs[..k] == hs;
    }
  }

  lemma {:induction false} CountsSame(hs: seq<Hole>, i: nat, j: nat)
    requires forall k | 0 <= k < |hs| :: hs[k].index < i && hs[k].index < j
    ensures CountsBelow(hs, i) == CountsBelow(hs, j)
  {
    if hs != [] {
      CountsSame(hs[..|hs| - 1], i, j);
    }
  }

  /** The rank of a block in a hole is that of the hole's first block. */
  lemma RankInHole(hs: seq<Hole>, k: nat, i: nat)
    requires Canonical(hs) && k < |hs| && hs[k].Has(i)
    ensures i in HoleSet(hs)
    ensures Rank(HoleSet(hs), i) == hs[k].index - CountsBelow(hs[..k], i)
  {
    hide HoleSet, Rank, CountsBelow;
    var h := hs[k];
    InHole(hs, k, i);
    forall x: nat | h.index <= x < i ensures x in HoleSet(hs) {
      InHole(hs, k, x);
    }
    RankFlat(HoleSet(hs), h.index, i);
    forall j | 0 <= j < |hs| ensures hs[j].End() <= h.index || h.index <= hs[j].index {
    }
    RankAt(hs, h.index);
    CountsPrefix(hs, k, h.index);
    CountsSame(hs[..k], h.index, i);
  }
}
