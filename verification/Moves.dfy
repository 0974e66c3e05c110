/** The steps that move the blocks of several files at once: rotation to the end, cutting off, opening a gap. */
module Moves {
  import opened Bytes
  import opened Volumes
  import opened Ranks
  import opened FileNodes
  import opened Layout

  /** Nothing is lost when every file is stored as before and the new places are in order. */
  lemma Rearranged(s: State, t: State)
    requires Ok(s) && t.bs == s.bs && |t.files| == |s.files|
    requires forall j | 0 <= j < |s.files| :: SameStored(s, t, j) && Below(t.files[j], s.bs, t.off)
    requires forall i, j | 0 <= i < |s.files| && 0 <= j < |s.files| && i != j :: Disjoint(t.files[i], t.files[j], s.bs)
    requires FreeIsZero(t.disk, t.bs, t.off)
    ensures Ok(t) && Used(t.files, t.bs) == Used(s.files, s.bs)
    ensures forall j | 0 <= j < |s.files| :: FileContents(t, j) == FileContents(s, j)
  {
    hide BlockOf, OffsetOf, BlockCount, Blk, Rank, FileBlock, Contents;
    forall j | 0 <= j < |s.files|
      ensures HolesInside(t.files[j], t.bs) && Padded(t.disk, t.bs, t.files[j])
      ensures FileContents(t, j) == FileContents(s, j) && StoredCount(t.files[j], s.bs) == StoredCount(s.files[j], s.bs)
    {
      SameFile(s, t, j);
    }
    UsedSame(s.files, t.files, s.bs);
  }

  lemma {:induction false} UsedPrepend(f: File, fs: seq<File>, bs: BlockSize)
    ensures Used([f] + fs, bs) == StoredCount(f, bs) + Used(fs, bs)
  {
    var gs := [f] + fs;
    if fs == [] {
      assert gs[..0] == [];
    } else {
      UsedPrepend(f, fs[..|fs| - 1], bs);
      assert gs[..|gs| - 1] == [f] + fs[..|fs| - 1];
    }
  }

  /** A new file has no blocks and no contents. */
  lemma FileAdded(s: State, t: State)
    requires Ok(s) && t == s.(files := [File(0, 0, {})] + s.files)
    ensures Ok(t) && Slack(t) == Slack(s) && FileContents(t, 0) == []
    ensures forall j | 0 <= j < |s.files| :: FileContents(t, j + 1) == FileContents(s, j)
  {
    var f := File(0, 0, {});
    assert BlockCount(0, s.bs) == 0;
    assert StoredCount(f, s.bs) == 0;
    UsedPrepend(f, s.files, s.bs);
    hide BlockOf, BlockCount, Rank, StoredCount, Used, FileBlock, Blk;
    forall j | 0 <= j < |t.files|
      ensures HolesInside(t.files[j], t.bs) && Below(t.files[j], t.bs, t.off) && Padded(t.disk, t.bs, t.files[j])
    {
      assert j > 0 ==> t.files[j] == s.files[j - 1];
    }
    forall i, j | 0 <= i < |t.files| && 0 <= j < |t.files| && i != j
      ensures Disjoint(t.files[i], t.files[j], t.bs)
    {
      assert i > 0 ==> t.files[i] == s.files[i - 1];
      assert j > 0 ==> t.files[j] == s.files[j - 1];
    }
  }

  /* Rotation: `k` blocks at `at` go to the end, everything behind them moves down. */

  ghost predicate Rotated(d0: Disk, d1: Disk, bs: BlockSize, at: nat, k: nat, off: nat)
    requires at + k <= off
  {
    forall b: nat {:trigger Blk(d1, bs, b)} ::
      Blk(d1, bs, b) ==
      if b < at then Blk(d0, bs, b)
      else if b + k < off then Blk(d0, bs, b + k)
      else if b < off then Blk(d0, bs, at + (b + k - off))
      else Zeros(bs)
  }

  /** Where file `f` starts once file `h`, which is another one or the same, has moved to the end. */
  ghost function StartAfterMove(f: File, h: File, same: bool, bs: BlockSize, off: nat): nat
    requires StoredCount(h, bs) <= off
  {
    var k := StoredCount(h, bs);
    if same then off - k
    else if StoredCount(f, bs) > 0 && f.start >= h.start + k then f.start - k
    else f.start
  }

  ghost predicate MovedToEnd(s: State, t: State, i: nat)
    requires i < |s.files| && Below(s.files[i], s.bs, s.off) && StoredCount(s.files[i], s.bs) > 0
  {
    && t.bs == s.bs && t.off == s.off && |t.files| == |s.files|
    && Rotated(s.disk, t.disk, s.bs, s.files[i].start, StoredCount(s.files[i], s.bs), s.off)
    && forall j | 0 <= j < |s.files| ::
         t.files[j] == s.files[j].(start := StartAfterMove(s.files[j], s.files[i], j == i, s.bs, s.off))
  }

  lemma MoveKeeps(s: State, t: State, i: nat)
    requires Ok(s) && i < |s.files| && StoredCount(s.files[i], s.bs) > 0 && MovedToEnd(s, t, i)
    ensures Kept(s, t, i) && AtEnd(t, i) && FileContents(t, i) == FileContents(s, i)
  {
    hide BlockOf, OffsetOf, BlockCount, Blk, Rank, FileBlock, Contents, FileContents, Padded, HolesInside, Used;
    forall j | 0 <= j < |s.files| ensures SameStored(s, t, j) && Below(t.files[j], s.bs, t.off) {
      assert j != i ==> Disjoint(s.files[i], s.files[j], s.bs);
      MoveSame(s.disk, t.disk, s.bs, s.files[j], t.files[j], s.files[i], j == i, s.off);
    }
    forall x, y | 0 <= x < |s.files| && 0 <= y < |s.files| && x != y
      ensures Disjoint(t.files[x], t.files[y], s.bs)
    {
      assert Disjoint(s.files[x], s.files[y], s.bs);
      assert Disjoint(s.files[x], s.files[i], s.bs) || x == i;
      assert Disjoint(s.files[y], s.files[i], s.bs) || y == i;
    }
    Rearranged(s, t);
  }

  lemma MoveSame(d0: Disk, d1: Disk, bs: BlockSize, f: File, g: File, h: File, same: bool, off: nat)
    requires Below(f, bs, off) && Below(h, bs, off) && StoredCount(h, bs) > 0
    requires if same then f == h else Disjoint(h, f, bs)
    requires Rotated(d0, d1, bs, h.start, StoredCount(h, bs), off)
    requires g == f.(start := StartAfterMove(f, h, same, bs, off))
    ensures Below(g, bs, off)
    ensures forall r: nat | r < StoredCount(f, bs) :: NthStored(d1, bs, g, r) == NthStored(d0, bs, f, r)
  {
    assert StoredCount(g, bs) == StoredCount(f, bs);
    hide BlockOf, OffsetOf, BlockCount, Blk, Rank, Rotated, StoredCount;
    var k := StoredCount(h, bs);
    forall r: nat | r < StoredCount(f, bs)
      ensures NthStored(d1, bs, g, r) == NthStored(d0, bs, f, r)
    {
      var b := f.start + r;
      RotatedBlock(d0, d1, bs, h.start, k, off, b);
      assert g.start + r == if b < h.start then b else if b < h.start + k then b + (off - k - h.start) else b - k;
    }
  }

  /** Where a block below the high-water mark is found after the rotation. */
  lemma RotatedBlock(d0: Disk, d1: Disk, bs: BlockSize, at: nat, k: nat, off: nat, b: nat)
    requires at + k <= off && b < off && Rotated(d0, d1, bs, at, k, off)
    ensures Blk(d1, bs, if b < at then b else if b < at + k then b + (off - k - at) else b - k) == Blk(d0, bs, b)
  {
    hide Blk;
  }

  /* Cutting off: a file keeps its first blocks, everything behind the ones it loses moves down. */

  ghost predicate Dropped(d0: Disk, d1: Disk, bs: BlockSize, at: nat, n: nat, off: nat) {
    forall b: nat {:trigger Blk(d1, bs, b)} ::
      Blk(d1, bs, b) == if b < at then Blk(d0, bs, b) else if b + n < off then Blk(d0, bs, b + n) else Zeros(bs)
  }

  lemma DroppedBlock(d0: Disk, d1: Disk, bs: BlockSize, at: nat, n: nat, off: nat, b: nat)
    requires Dropped(d0, d1, bs, at, n, off) && b < off
    ensures b < at ==> Blk(d1, bs, b) == Blk(d0, bs, b)
    ensures at + n <= b ==> Blk(d1, bs, b - n) == Blk(d0, bs, b)
  {
    hide Blk;
  }

  ghost function ZeroFrom(x: seq<byte>, o: nat): (r: seq<byte>)
    ensures o <= |x| ==> |r| == |x|
  {
    if o <= |x| then x[..o] + Zeros(|x| - o) else x
  }

  /** Block `b` has zeros from byte `o` on, if `tail` says so; nothing else has changed. */
  ghost predicate TailCleared(d0: Disk, d1: Disk, bs: BlockSize, tail: bool, b: int, o: nat) {
    forall c: nat {:trigger Blk(d1, bs, c)} ::
      Blk(d1, bs, c) == if tail && c == b then ZeroFrom(Blk(d0, bs, c), o) else Blk(d0, bs, c)
  }

  /** The file cut to `size` bytes: the same place, the holes clipped to what is left. */
  ghost function Cut(f: File, bs: BlockSize, size: nat): File {
    File(size, f.start, set x | x in f.sparse && x < BlockCount(size, bs))
  }

  lemma CutStored(f: File, bs: BlockSize, size: nat)
    requires size <= f.size
    ensures BlockCount(size, bs) <= BlockCount(f.size, bs)
    ensures StoredCount(Cut(f, bs, size), bs) == Rank(f.sparse, BlockCount(size, bs)) <= StoredCount(f, bs)
    ensures forall x: nat | x <= BlockCount(size, bs) :: Rank(Cut(f, bs, size).sparse, x) == Rank(f.sparse, x)
    ensures TailStored(f, bs, size) ==> StoredCount(Cut(f, bs, size), bs) > 0
  {
    var g, n := Cut(f, bs, size), BlockCount(size, bs);
    CountMonotone(size, f.size, bs);
    if TailStored(f, bs, size) {
      RankStrict(f.sparse, BlockOf(size, bs), n);
    }
    hide BlockOf, OffsetOf, BlockCount, Rank;
    RankMonotone(f.sparse, n, BlockCount(f.size, bs));
    forall x: nat | x <= n ensures Rank(g.sparse, x) == Rank(f.sparse, x) {
      RankAgree(g.sparse, f.sparse, x);
    }
  }

  lemma CountMonotone(a: nat, b: nat, bs: BlockSize)
    requires a <= b
    ensures BlockCount(a, bs) <= BlockCount(b, bs)
  {
    if 0 < a {
      if a < b {
        BlockInFile(b, bs, a);
      }
      hide BlockOf, OffsetOf;
    }
  }

  /** On the volume: `d0` with the blocks behind the cut dropped is `d`, and that with the tail cleared is `d1`. */
  ghost predicate CutOnDisk(d0: Disk, d: Disk, d1: Disk, bs: BlockSize, f: File, size: nat, off: nat) {
    var k0, k1 := StoredCount(f, bs), StoredCount(Cut(f, bs, size), bs);
    && k1 <= k0
    && Dropped(d0, d, bs, f.start + k1, k0 - k1, off)
    && TailCleared(d, d1, bs, TailStored(f, bs, size), f.start + k1 - 1, OffsetOf(size, bs))
  }

  /** The file, cut to `size`, ends inside a block that is stored. */
  ghost predicate TailStored(f: File, bs: BlockSize, size: nat) {
    OffsetOf(size, bs) > 0 && BlockOf(size, bs) !in f.sparse
  }

  /** Where a file starts once the file at `start` has given up `n` blocks. */
  ghost function StartAfterCut(f: File, bs: BlockSize, start: nat, n: nat): nat {
    if StoredCount(f, bs) > 0 && f.start > start && f.start >= n then f.start - n else f.start
  }

  /** File `i` is cut to `size` bytes: `d` is the volume before the rest of its last block is cleared. */
  ghost predicate Truncated(s: State, d: Disk, t: State, i: nat, size: nat)
    requires i < |s.files| && size <= s.files[i].size
  {
    var f, g := s.files[i], Cut(s.files[i], s.bs, size);
    var k0, k1 := StoredCount(f, s.bs), StoredCount(g, s.bs);
    && k1 <= k0
    && t.bs == s.bs && |t.files| == |s.files| && t.off == s.off - (k0 - k1)
    && CutOnDisk(s.disk, d, t.disk, s.bs, f, size, s.off)
    && t.files[i] == g
    && forall j | 0 <= j < |s.files| && j != i ::
         t.files[j] == s.files[j].(start := StartAfterCut(s.files[j], s.bs, f.start, k0 - k1))
  }

  lemma CutSame(d0: Disk, d: Disk, d1: Disk, bs: BlockSize, f: File, g: File, h: File, k1: nat, off: nat, tail: bool,
                o: nat)
    requires Below(f, bs, off) && Below(h, bs, off) && Disjoint(h, f, bs) && k1 <= StoredCount(h, bs) && o <= bs
    requires tail ==> k1 > 0
    requires var n := StoredCount(h, bs) - k1;
             Dropped(d0, d, bs, h.start + k1, n, off) && g == f.(start := StartAfterCut(f, bs, h.start, n)) && n <= off
    requires TailCleared(d, d1, bs, tail, h.start + k1 - 1, o)
    ensures Below(g, bs, off - (StoredCount(h, bs) - k1))
    ensures forall r: nat | r < StoredCount(f, bs) :: NthStored(d1, bs, g, r) == NthStored(d0, bs, f, r)
  {
    hide BlockOf, OffsetOf, BlockCount, Blk, Rank, Dropped, TailCleared;
    assert StoredCount(g, bs) == StoredCount(f, bs);
    hide StoredCount;
    var at, n := h.start + k1, StoredCount(h, bs) - k1;
    forall r: nat | r < StoredCount(f, bs)
      ensures NthStored(d1, bs, g, r) == NthStored(d0, bs, f, r)
    {
      var b := f.start + r;
      DroppedBlock(d0, d, bs, at, n, off, b);
      NotCleared(d, d1, bs, tail, at - 1, o, g.start + r);
    }
  }

  /** Two files stay apart when file `h` shrinks to `k1` blocks. */
  lemma CutDisjoint(bs: BlockSize, x: File, y: File, x1: File, y1: File, h: File, k1: nat, xIsH: bool, yIsH: bool)
    requires Disjoint(x, y, bs) && k1 <= StoredCount(h, bs) && !(xIsH && yIsH)
    requires if xIsH then x == h && x1.start == h.start && StoredCount(x1, bs) == k1
             else Disjoint(h, x, bs) && x1 == x.(start := StartAfterCut(x, bs, h.start, StoredCount(h, bs) - k1))
    requires if yIsH then y == h && y1.start == h.start && StoredCount(y1, bs) == k1
             else Disjoint(h, y, bs) && y1 == y.(start := StartAfterCut(y, bs, h.start, StoredCount(h, bs) - k1))
    ensures Disjoint(x1, y1, bs)
  {
    assert !xIsH ==> StoredCount(x1, bs) == StoredCount(x, bs);
    assert !yIsH ==> StoredCount(y1, bs) == StoredCount(y, bs);
    hide StoredCount;
  }

  lemma CutFree(d0: Disk, d: Disk, d1: Disk, bs: BlockSize, h: File, k1: nat, off: nat, tail: bool, o: nat)
    requires Below(h, bs, off) && k1 <= StoredCount(h, bs) && o <= bs && (tail ==> k1 > 0)
    requires FreeIsZero(d0, bs, off)
    requires Dropped(d0, d, bs, h.start + k1, StoredCount(h, bs) - k1, off)
    requires TailCleared(d, d1, bs, tail, h.start + k1 - 1, o)
    ensures FreeIsZero(d1, bs, off - (StoredCount(h, bs) - k1))
  {
    hide BlockOf, OffsetOf, BlockCount, Blk, Rank, StoredCount;
  }

  lemma NotCleared(d0: Disk, d1: Disk, bs: BlockSize, tail: bool, b: int, o: nat, c: nat)
    requires o <= bs && TailCleared(d0, d1, bs, tail, b, o) && (tail ==> c != b)
    ensures Blk(d1, bs, c) == Blk(d0, bs, c)
  {
    hide Blk;
  }

  lemma CutContents(d0: Disk, d: Disk, d1: Disk, bs: BlockSize, f: File, size: nat, off: nat)
    requires size <= f.size && Below(f, bs, off)
    requires CutOnDisk(d0, d, d1, bs, f, size, off)
    ensures Contents(d1, bs, Cut(f, bs, size)) == Contents(d0, bs, f)[..size]
    ensures Padded(d1, bs, Cut(f, bs, size))
  {
    var g, q, o := Cut(f, bs, size), BlockOf(size, bs), OffsetOf(size, bs);
    CutStored(f, bs, size);
    forall x: nat | x < q || (x == q && o > 0)
      ensures FileBlock(d1, bs, g, x) ==
              if x == q then ZeroFrom(FileBlock(d0, bs, f, x), o) else FileBlock(d0, bs, f, x)
    {
      CutBlock(d0, d, d1, bs, f, size, off, x);
    }
    hide BlockOf, OffsetOf, FileBlock, BlockCount;
    var c0, c1 := Contents(d0, bs, f), Contents(d1, bs, g);
    forall p: nat | p < size
      ensures c1[p] == c0[p]
    {
      BlockInFile(size, bs, p);
    }
  }

  lemma CutBlock(d0: Disk, d: Disk, d1: Disk, bs: BlockSize, f: File, size: nat, off: nat, x: nat)
    requires size <= f.size && Below(f, bs, off)
    requires x < BlockOf(size, bs) || (x == BlockOf(size, bs) && OffsetOf(size, bs) > 0)
    requires CutOnDisk(d0, d, d1, bs, f, size, off)
    ensures FileBlock(d1, bs, Cut(f, bs, size), x) ==
            if x == BlockOf(size, bs) then ZeroFrom(FileBlock(d0, bs, f, x), OffsetOf(size, bs))
            else FileBlock(d0, bs, f, x)
  {
    if x in f.sparse {
      assert x in Cut(f, bs, size).sparse;
      hide CutOnDisk, BlockOf, OffsetOf, BlockCount, Rank, Blk;
      assert ZeroFrom(Zeros(bs), OffsetOf(size, bs)) == Zeros(bs);
    } else {
      hide *;
      CutBlockStored(d0, d, d1, bs, f, size, off, x);
    }
  }

  lemma CutBlockStored(d0: Disk, d: Disk, d1: Disk, bs: BlockSize, f: File, size: nat, off: nat, x: nat)
    requires size <= f.size && Below(f, bs, off) && x !in f.sparse
    requires x < BlockOf(size, bs) || (x == BlockOf(size, bs) && OffsetOf(size, bs) > 0)
    requires CutOnDisk(d0, d, d1, bs, f, size, off)
    ensures FileBlock(d1, bs, Cut(f, bs, size), x) ==
            if x == BlockOf(size, bs) then ZeroFrom(FileBlock(d0, bs, f, x), OffsetOf(size, bs))
            else FileBlock(d0, bs, f, x)
  {
    var g, o := Cut(f, bs, size), OffsetOf(size, bs);
    CutRanks(f, bs, size, x);
    CutStored(f, bs, size);
    hide Dropped, TailCleared, Blk, BlockOf, OffsetOf, BlockCount, Rank, Cut, StoredCount, ZeroFrom;
    CutBlockAt(d0, d, d1, bs, f.start + StoredCount(g, bs), StoredCount(f, bs) - StoredCount(g, bs), off,
               TailStored(f, bs, size), o, f.start + Rank(f.sparse, x));
  }

  /** The ranks of the blocks that are left, the last of them included. */
  lemma CutRanks(f: File, bs: BlockSize, size: nat, x: nat)
    requires size <= f.size && x !in f.sparse
    requires x < BlockOf(size, bs) || (x == BlockOf(size, bs) && OffsetOf(size, bs) > 0)
    ensures var g, k := Cut(f, bs, size), StoredCount(Cut(f, bs, size), bs);
            && x !in g.sparse && Rank(g.sparse, x) == Rank(f.sparse, x) < k
            && (x == BlockOf(size, bs) ==> Rank(f.sparse, x) + 1 == k)
            && (x < BlockOf(size, bs) && TailStored(f, bs, size) ==> Rank(f.sparse, x) + 1 < k)
  {
    var q, n := BlockOf(size, bs), BlockCount(size, bs);
    CutStored(f, bs, size);
    RankStrict(f.sparse, x, n);
    if x < q && TailStored(f, bs, size) {
      RankStrict(f.sparse, x, q);
    }
    hide BlockOf, OffsetOf, BlockCount;
  }

  lemma CutBlockAt(d0: Disk, d: Disk, d1: Disk, bs: BlockSize, at: nat, n: nat, off: nat, tail: bool, o: nat, b: nat)
    requires b < at && b < off
    requires Dropped(d0, d, bs, at, n, off) && TailCleared(d, d1, bs, tail, at - 1, o)
    ensures Blk(d1, bs, b) == if tail && b == at - 1 then ZeroFrom(Blk(d0, bs, b), o) else Blk(d0, bs, b)
  {
    hide Blk;
  }

  lemma TruncateOther(s: State, d: Disk, t: State, i: nat, size: nat, j: nat)
    requires Ok(s) && i < |s.files| && size <= s.files[i].size && Truncated(s, d, t, i, size)
    requires j < |s.files| && j != i
    ensures HolesInside(t.files[j], t.bs) && Below(t.files[j], t.bs, t.off) && Padded(t.disk, t.bs, t.files[j])
    ensures FileContents(t, j) == FileContents(s, j) && StoredCount(t.files[j], t.bs) == StoredCount(s.files[j], s.bs)
  {
    var f, bs := s.files[i], s.bs;
    CutStored(f, bs, size);
    assert HolesInside(s.files[j], bs) ==> HolesInside(t.files[j], bs);
    hide BlockOf, OffsetOf, BlockCount, Blk, Rank, FileBlock, Contents, Padded, HolesInside, Cut, Dropped, TailCleared,
      FreeIsZero;
    assert Disjoint(f, s.files[j], bs);
    CutSame(s.disk, d, t.disk, bs, s.files[j], t.files[j], f, StoredCount(Cut(f, bs, size), bs), s.off,
            TailStored(f, bs, size), OffsetOf(size, bs));
    SameFile(s, t, j);
  }

  lemma TruncateApart(s: State, d: Disk, t: State, i: nat, size: nat, x: nat, y: nat)
    requires Ok(s) && i < |s.files| && size <= s.files[i].size && Truncated(s, d, t, i, size)
    requires x < |s.files| && y < |s.files| && x != y
    ensures Disjoint(t.files[x], t.files[y], t.bs)
  {
    var f, bs := s.files[i], s.bs;
    assert t.files[i].start == f.start;
    hide BlockOf, OffsetOf, BlockCount, Blk, Rank, Padded, HolesInside, Cut, Dropped, TailCleared, FreeIsZero,
      StoredCount;
    assert Disjoint(s.files[x], s.files[y], bs);
    assert x == i || Disjoint(f, s.files[x], bs);
    assert y == i || Disjoint(f, s.files[y], bs);
    CutDisjoint(bs, s.files[x], s.files[y], t.files[x], t.files[y], f, StoredCount(t.files[i], bs), x == i, y == i);
  }

  lemma TruncateOwn(s: State, d: Disk, t: State, i: nat, size: nat)
    requires Ok(s) && i < |s.files| && size <= s.files[i].size && Truncated(s, d, t, i, size)
    ensures HolesInside(t.files[i], t.bs) && Below(t.files[i], t.bs, t.off) && Padded(t.disk, t.bs, t.files[i])
    ensures FileContents(t, i) == FileContents(s, i)[..size] && FreeIsZero(t.disk, t.bs, t.off)
  {
    var f, g, bs := s.files[i], t.files[i], s.bs;
    assert HolesInside(f, bs) && Below(f, bs, s.off);
    assert HolesInside(g, bs) && g == Cut(f, bs, size);
    CutStored(f, bs, size);
    assert Below(g, bs, t.off);
    hide Dropped, TailCleared, Padded, Disjoint, Rank, Blk, Cut, HolesInside, Below, StoredCount, Contents, FreeIsZero;
    CutContents(s.disk, d, t.disk, bs, f, size, s.off);
    CutFree(s.disk, d, t.disk, bs, f, StoredCount(Cut(f, bs, size), bs), s.off,
            TailStored(f, bs, size), OffsetOf(size, bs));
  }

  /** Shrinking keeps exactly the prefix, frees exactly the blocks behind it, and moves nothing else's contents. */
  lemma TruncateKeeps(s: State, d: Disk, t: State, i: nat, size: nat)
    requires Ok(s) && i < |s.files| && size <= s.files[i].size && Truncated(s, d, t, i, size)
    ensures Kept(s, t, i)
    ensures FileContents(t, i) == FileContents(s, i)[..size]
  {
    var bs := s.bs;
    hide BlockOf, OffsetOf, BlockCount, Blk, Rank, FileBlock, Contents, Padded, HolesInside, Cut, Dropped, TailCleared,
      FreeIsZero, Below, Disjoint;
    TruncateOwn(s, d, t, i, size);
    forall j | 0 <= j < |s.files| && j != i
      ensures HolesInside(t.files[j], bs) && Below(t.files[j], bs, t.off) && Padded(t.disk, bs, t.files[j])
      ensures FileContents(t, j) == FileContents(s, j) && StoredCount(t.files[j], bs) == StoredCount(s.files[j], bs)
    {
      TruncateOther(s, d, t, i, size, j);
    }
    forall x, y | 0 <= x < |s.files| && 0 <= y < |s.files| && x != y
      ensures Disjoint(t.files[x], t.files[y], bs)
    {
      TruncateApart(s, d, t, i, size, x, y);
    }
    UsedUpdate(s.files, bs, i, t.files[i]);
    UsedSame(s.files[i := t.files[i]], t.files, bs);
  }

  /* A gap: `n` zero blocks are put in at a place where no file is cut, everything from there on moves up. */

  ghost predicate GapOpened(d0: Disk, d1: Disk, bs: BlockSize, at: nat, n: nat) {
    forall b: nat {:trigger Blk(d1, bs, b)} ::
      Blk(d1, bs, b) == if b < at then Blk(d0, bs, b) else if b < at + n then Zeros(bs) else Blk(d0, bs, b - n)
  }

  /** The place is not strictly inside the stored blocks of the file. */
  ghost predicate NotInside(f: File, bs: BlockSize, at: nat) {
    StoredCount(f, bs) > 0 ==> at <= f.start || f.start + StoredCount(f, bs) <= at
  }

  ghost predicate NothingCut(s: State, at: nat) {
    forall j | 0 <= j < |s.files| :: NotInside(s.files[j], s.bs, at)
  }

  ghost predicate Gapped(s: State, t: State, at: nat, n: nat) {
    && t.bs == s.bs && |t.files| == |s.files|
    && GapOpened(s.disk, t.disk, s.bs, at, n)
    && t.off == (if at < s.off then s.off + n else at + n)
    && forall j | 0 <= j < |s.files| ::
         t.files[j] == s.files[j].(start := if at < s.off && s.files[j].start >= at then s.files[j].start + n
                                            else s.files[j].start)
  }

  lemma GapKeeps(s: State, t: State, at: nat, n: nat)
    requires Ok(s) && Gapped(s, t, at, n)
    requires forall j | 0 <= j < |s.files| :: NotInside(s.files[j], s.bs, at)
    ensures Ok(t) && Slack(t) == Slack(s) + n + if at < s.off then 0 else at - s.off
    ensures forall j | 0 <= j < |s.files| :: FileContents(t, j) == FileContents(s, j)
    ensures forall b: nat | at <= b < at + n :: Blk(t.disk, t.bs, b) == Zeros(t.bs)
    ensures forall j | 0 <= j < |t.files| && StoredCount(t.files[j], t.bs) > 0 ::
              t.files[j].start + StoredCount(t.files[j], t.bs) <= at || at + n <= t.files[j].start
  {
    hide BlockOf, OffsetOf, BlockCount, Blk, Rank, FileBlock, Contents, Padded, HolesInside;
    forall j | 0 <= j < |s.files| ensures SameStored(s, t, j) && Below(t.files[j], s.bs, t.off) {
      assert HolesInside(s.files[j], s.bs) && Below(s.files[j], s.bs, s.off);
      GapSame(s.disk, t.disk, s.bs, s.files[j], t.files[j], at, n, s.off);
    }
    forall x, y | 0 <= x < |s.files| && 0 <= y < |s.files| && x != y
      ensures Disjoint(t.files[x], t.files[y], s.bs)
    {
      assert Disjoint(s.files[x], s.files[y], s.bs);
    }
    Rearranged(s, t);
  }

  lemma GapSame(d0: Disk, d1: Disk, bs: BlockSize, f: File, g: File, at: nat, n: nat, off: nat)
    requires Below(f, bs, off) && NotInside(f, bs, at) && GapOpened(d0, d1, bs, at, n)
    requires g == f.(start := if at < off && f.start >= at then f.start + n else f.start)
    ensures Below(g, bs, if at < off then off + n else at + n)
    ensures forall r: nat | r < StoredCount(f, bs) :: NthStored(d1, bs, g, r) == NthStored(d0, bs, f, r)
  {
    assert StoredCount(g, bs) == StoredCount(f, bs);
    hide BlockOf, OffsetOf, BlockCount, Blk, Rank, StoredCount;
  }

  /** From the place on, the file holds only zeros. */
  ghost predicate ZeroFromBlock(d: Disk, bs: BlockSize, f: File, at: nat) {
    forall r: nat {:trigger NthStored(d, bs, f, r)} | r < StoredCount(f, bs) && at <= f.start + r ::
      NthStored(d, bs, f, r) == Zeros(bs)
  }

  /** A gap inside a file's blocks reads as zeros there, and what was behind it is found `n` blocks later. */
  lemma GapInside(d0: Disk, d1: Disk, bs: BlockSize, f: File, at: nat, n: nat, r: nat)
    requires GapOpened(d0, d1, bs, at, n) && f.start < at
    ensures NthStored(d1, bs, f, r) ==
            if f.start + r < at then NthStored(d0, bs, f, r)
            else if f.start + r < at + n then Zeros(bs) else NthStored(d0, bs, f, r - n)
  {
    hide Blk;
  }

  lemma GapOverZeros(d0: Disk, d1: Disk, bs: BlockSize, f: File, at: nat, n: nat)
    requires GapOpened(d0, d1, bs, at, n) && f.start < at && ZeroFromBlock(d0, bs, f, at)
    ensures forall r: nat | r < StoredCount(f, bs) :: NthStored(d1, bs, f, r) == NthStored(d0, bs, f, r)
  {
    hide StoredCount, NthStored, GapOpened;
    forall r: nat | r < StoredCount(f, bs) ensures NthStored(d1, bs, f, r) == NthStored(d0, bs, f, r) {
      GapInside(d0, d1, bs, f, at, n, r);
    }
  }

  /** If the contents agree, so do the stored blocks, once the padding is known to be zeros. */
  lemma SameContentsBlock(d0: Disk, d1: Disk, bs: BlockSize, f: File, r: nat)
    requires Contents(d1, bs, f) == Contents(d0, bs, f) && r < StoredCount(f, bs)
    requires Padded(d0, bs, f) && NthStored(d1, bs, f, r) == Zeros(bs)
    ensures NthStored(d0, bs, f, r) == Zeros(bs)
  {
    var i := RankOnto(f.sparse, BlockCount(f.size, bs), r);
    assert FileBlock(d0, bs, f, i) == NthStored(d0, bs, f, r) && FileBlock(d1, bs, f, i) == NthStored(d1, bs, f, r);
    hide BlockOf, OffsetOf, BlockCount, Rank, NthStored, FileBlock;
    forall o | 0 <= o < bs ensures FileBlock(d0, bs, f, i)[o] == 0 {
      BlockByteZero(d0, d1, bs, f, i, o);
    }
    assert FileBlock(d0, bs, f, i) == Zeros(bs);
  }

  lemma BlockByteZero(d0: Disk, d1: Disk, bs: BlockSize, f: File, i: nat, o: nat)
    requires Contents(d1, bs, f) == Contents(d0, bs, f) && i < BlockCount(f.size, bs) && o < bs
    requires Padded(d0, bs, f) && FileBlock(d1, bs, f, i) == Zeros(bs)
    ensures FileBlock(d0, bs, f, i)[o] == 0
  {
    var p := i * bs + o;
    ByteIndexUnique(i, o, bs, p);
    if p < f.size {
      assert Contents(d0, bs, f)[p] == FileByte(d0, bs, f, p);
      assert Contents(d1, bs, f)[p] == FileByte(d1, bs, f, p);
    } else {
      PastSize(f.size, bs, i, o);
    }
  }

  lemma PastSize(size: nat, bs: BlockSize, i: nat, o: nat)
    requires i < BlockCount(size, bs) && o < bs && i * bs + o >= size
    ensures OffsetOf(size, bs) > 0 && i == BlockOf(size, bs) && o >= OffsetOf(size, bs)
  {
    hide BlockOf, OffsetOf;
    ByteIndex(size, bs);
    assert (i + 1) * bs == i * bs + bs;
    BeforeBlock(size, i + 1, bs);
  }

  lemma {:induction false} ZerosByInduction(d0: Disk, d1: Disk, bs: BlockSize, f: File, at: nat, n: nat, r: nat)
    requires GapOpened(d0, d1, bs, at, n) && f.start < at && n > 0 && Padded(d0, bs, f)
    requires Contents(d1, bs, f) == Contents(d0, bs, f) && r < StoredCount(f, bs) && at <= f.start + r
    ensures NthStored(d0, bs, f, r) == Zeros(bs)
    decreases r
  {
    hide GapOpened, Padded, Contents, StoredCount, NthStored;
    GapInside(d0, d1, bs, f, at, n, r);
    if f.start + r >= at + n {
      ZerosByInduction(d0, d1, bs, f, at, n, r - n);
    }
    SameContentsBlock(d0, d1, bs, f, r);
  }

  /**
   * A gap keeps a file's contents exactly if it does not cut the file in two, or the file has only zeros from there on.
   */
  lemma GapExact(s: State, t: State, at: nat, n: nat, j: nat)
    requires Ok(s) && Gapped(s, t, at, n) && n > 0 && j < |s.files|
    ensures FileContents(t, j) == FileContents(s, j) <==>
            NotInside(s.files[j], s.bs, at) || ZeroFromBlock(s.disk, s.bs, s.files[j], at)
  {
    var f, g := s.files[j], t.files[j];
    assert HolesInside(f, s.bs) && Below(f, s.bs, s.off) && Padded(s.disk, s.bs, f);
    hide BlockOf, OffsetOf, BlockCount, Blk, Rank, FileBlock, Contents, Padded, HolesInside, GapOpened, NthStored,
      StoredCount;
    if NotInside(f, s.bs, at) {
      GapSame(s.disk, t.disk, s.bs, f, g, at, n, s.off);
      SameFile(s, t, j);
    } else {
      assert g == f;
      if ZeroFromBlock(s.disk, s.bs, f, at) {
        GapOverZeros(s.disk, t.disk, s.bs, f, at, n);
        SameFile(s, t, j);
      }
      if FileContents(t, j) == FileContents(s, j) {
        forall r: nat | r < StoredCount(f, s.bs) && at <= f.start + r
          ensures NthStored(s.disk, s.bs, f, r) == Zeros(s.bs)
        {
          ZerosByInduction(s.disk, t.disk, s.bs, f, at, n, r);
        }
      }
    }
  }

  lemma ByteBlocks(p: nat)
    ensures BlockOf(p, 1) == p && OffsetOf(p, 1) == 0 && BlockCount(p, 1) == p
  {
    ByteIndex(p, 1);
  }

  /** A gap inside a file's stored blocks would cut the file in two: here one of two bytes is lost. */
  lemma GapInsideLoses()
    ensures exists s: State, t: State ::
              && Ok(s) && Gapped(s, t, 1, 1) && |s.files| == 1 && |t.files| == 1
              && FileContents(t, 0) != FileContents(s, 0)
  {
    var f := File(2, 0, {});
    var s := State(1, map[0 := [1], 1 := [2]], 2, [f]);
    var t := State(1, map[0 := [1], 2 := [2]], 3, [f]);
    ByteBlocks(1);
    ByteBlocks(2);
    RankNone(1);
    RankNone(2);
    hide BlockOf, OffsetOf, BlockCount, Rank;
    assert StoredCount(f, 1) == 2;
    assert Blk(s.disk, 1, 1) == [2] && Blk(t.disk, 1, 1) == Zeros(1);
    assert FileContents(s, 0)[1] == 2 && FileContents(t, 0)[1] == 0;
    assert Ok(s);
    assert Gapped(s, t, 1, 1);
  }
}
