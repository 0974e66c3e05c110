/** The steps that the file operations are made of, from one state of the volume to the next. */
module Steps {
  import opened Bytes
  import opened Volumes
  import opened Ranks
  import opened FileNodes
  import opened Layout
  import opened Edits
  import opened Models

  /** A file whose size is a whole number of blocks has all of them below the next block. */
  lemma FullBlocks(f: File, bs: BlockSize)
    requires HolesInside(f, bs) && OffsetOf(f.size, bs) == 0
    ensures BlockCount(f.size, bs) == BlockOf(f.size, bs) && BlockOf(f.size, bs) !in f.sparse
  {
  }

  lemma FileBlockKept(d0: Disk, d1: Disk, bs: BlockSize, f: File, g: File, i: nat, lo: nat)
    requires g.start == f.start && BlocksKept(d0, d1, bs, 0, lo)
    requires (i in g.sparse <==> i in f.sparse) && Rank(g.sparse, i) == Rank(f.sparse, i)
    requires i !in f.sparse ==> f.start + Rank(f.sparse, i) < lo
    ensures FileBlock(d1, bs, g, i) == FileBlock(d0, bs, f, i)
  {
    hide Blk, Rank;
  }

  /** A new block at the end of the volume, holding `data` and zeros, becomes the file's last block. */
  lemma BlockAppended(s: State, t: State, i: nat, data: seq<byte>)
    requires Ok(s) && i < |s.files| && AtEnd(s, i) && OffsetOf(s.files[i].size, s.bs) == 0
    requires 0 < |data| <= s.bs
    requires t.bs == s.bs && t.off == s.off + 1
    requires t.files == s.files[i := s.files[i].(size := s.files[i].size + |data|)]
    requires BlockSet(s.disk, t.disk, s.bs, s.off, data + Zeros(s.bs - |data|))
    ensures Kept(s, t, i) && AtEnd(t, i)
    ensures FileContents(t, i) == FileContents(s, i) + data
  {
    var bs, f, g := s.bs, s.files[i], t.files[i];
    var q := BlockOf(f.size, bs);
    FullBlocks(f, bs);
    TailGrows(f.size, |data|, bs);
    hide BlockOf, OffsetOf, BlockCount, Blk;
    assert StoredCount(g, bs) == StoredCount(f, bs) + 1;
    forall x: nat | x < q
      ensures FileBlock(t.disk, bs, g, x) == FileBlock(s.disk, bs, f, x)
    {
      if x !in f.sparse {
        RankStrict(f.sparse, x, q);
      }
      FileBlockKept(s.disk, t.disk, bs, f, g, x, s.off);
    }
    assert FileBlock(t.disk, bs, g, q) == FileBlock(s.disk, bs, f, q)[..0] + data + Zeros(bs - 0 - |data|);
    TailStep(s.disk, t.disk, bs, f, g, data);
    EditAtEnd(s, t, i);
  }

  /** A zero block is appended by marking it sparse. */
  lemma HoleAppended(s: State, t: State, i: nat, n: nat)
    requires Ok(s) && i < |s.files| && OffsetOf(s.files[i].size, s.bs) == 0
    requires 0 < n <= s.bs
    requires t == s.(files := s.files[i := s.files[i].(size := s.files[i].size + n,
                                                      sparse := s.files[i].sparse + {BlockOf(s.files[i].size, s.bs)})])
    ensures Kept(s, t, i) && StoredCount(t.files[i], t.bs) == StoredCount(s.files[i], s.bs)
    ensures FileContents(t, i) == FileContents(s, i) + Zeros(n)
  {
    var bs, f, g := s.bs, s.files[i], t.files[i];
    var q := BlockOf(f.size, bs);
    FullBlocks(f, bs);
    TailGrows(f.size, n, bs);
    hide BlockOf, OffsetOf, BlockCount, Blk;
    RankMark(f.sparse, q, q);
    assert StoredCount(g, bs) == StoredCount(f, bs);
    forall x: nat | x < q
      ensures FileBlock(t.disk, bs, g, x) == FileBlock(s.disk, bs, f, x)
    {
      RankMark(f.sparse, q, x);
    }
    assert FileBlock(t.disk, bs, g, q) == FileBlock(s.disk, bs, f, q)[..0] + Zeros(n) + Zeros(bs - 0 - n);
    TailStep(s.disk, t.disk, bs, f, g, Zeros(n));
    EditInPlace(s, t, i);
  }

  /** Zeros are appended inside the tail block without touching the volume: it holds zeros there already. */
  lemma TailZeroed(s: State, t: State, i: nat, n: nat)
    requires Ok(s) && i < |s.files| && OffsetOf(s.files[i].size, s.bs) > 0
    requires 0 < n && OffsetOf(s.files[i].size, s.bs) + n <= s.bs
    requires t == s.(files := s.files[i := s.files[i].(size := s.files[i].size + n)])
    ensures Kept(s, t, i) && StoredCount(t.files[i], t.bs) == StoredCount(s.files[i], s.bs)
    ensures FileContents(t, i) == FileContents(s, i) + Zeros(n)
  {
    var bs, f, g := s.bs, s.files[i], t.files[i];
    var q, o := BlockOf(f.size, bs), OffsetOf(f.size, bs);
    TailGrows(f.size, n, bs);
    assert BlockCount(f.size, bs) == q + 1;
    hide BlockOf, OffsetOf, BlockCount, Blk;
    assert FileBlock(t.disk, bs, g, q) == FileBlock(s.disk, bs, f, q)[..o] + Zeros(n) + Zeros(bs - o - n);
    TailStep(s.disk, t.disk, bs, f, g, Zeros(n));
    EditInPlace(s, t, i);
  }

  /** Data is appended inside a tail block that is stored. */
  lemma TailFilled(s: State, t: State, i: nat, data: seq<byte>)
    requires Ok(s) && i < |s.files| && OffsetOf(s.files[i].size, s.bs) > 0
    requires BlockOf(s.files[i].size, s.bs) !in s.files[i].sparse
    requires 0 < |data| && OffsetOf(s.files[i].size, s.bs) + |data| <= s.bs
    requires t.bs == s.bs && t.off == s.off
    requires t.files == s.files[i := s.files[i].(size := s.files[i].size + |data|)]
    requires var f := s.files[i];
             var b := f.start + Rank(f.sparse, BlockOf(f.size, s.bs));
             BlockSet(s.disk, t.disk, s.bs, b, Splice(Blk(s.disk, s.bs, b), OffsetOf(f.size, s.bs), data))
    ensures Kept(s, t, i) && StoredCount(t.files[i], t.bs) == StoredCount(s.files[i], s.bs)
    ensures FileContents(t, i) == FileContents(s, i) + data
  {
    var bs, f, g := s.bs, s.files[i], t.files[i];
    var q, o := BlockOf(f.size, bs), OffsetOf(f.size, bs);
    TailGrows(f.size, |data|, bs);
    assert BlockCount(f.size, bs) == q + 1;
    hide BlockOf, OffsetOf, BlockCount, Blk;
    forall x: nat | x < q
      ensures FileBlock(t.disk, bs, g, x) == FileBlock(s.disk, bs, f, x)
    {
      if x !in f.sparse {
        RankStrict(f.sparse, x, q);
      }
    }
    assert FileBlock(t.disk, bs, g, q) == FileBlock(s.disk, bs, f, q)[..o] + data + Zeros(bs - o - |data|);
    TailStep(s.disk, t.disk, bs, f, g, data);
    EditInPlace(s, t, i);
  }

  /** Data is appended inside a tail block that is sparse: it gets a block at the end of the volume. */
  lemma TailUnshared(s: State, t: State, i: nat, data: seq<byte>)
    requires Ok(s) && i < |s.files| && AtEnd(s, i) && OffsetOf(s.files[i].size, s.bs) > 0
    requires BlockOf(s.files[i].size, s.bs) in s.files[i].sparse
    requires 0 < |data| && OffsetOf(s.files[i].size, s.bs) + |data| <= s.bs
    requires t.bs == s.bs && t.off == s.off + 1
    requires t.files == s.files[i := s.files[i].(size := s.files[i].size + |data|,
                                                sparse := s.files[i].sparse - {BlockOf(s.files[i].size, s.bs)})]
    requires var o := OffsetOf(s.files[i].size, s.bs);
             BlockSet(s.disk, t.disk, s.bs, s.off, Zeros(o) + data + Zeros(s.bs - o - |data|))
    ensures Kept(s, t, i) && AtEnd(t, i)
    ensures FileContents(t, i) == FileContents(s, i) + data
  {
    var bs, f, g := s.bs, s.files[i], t.files[i];
    var q, o := BlockOf(f.size, bs), OffsetOf(f.size, bs);
    TailGrows(f.size, |data|, bs);
    assert BlockCount(f.size, bs) == q + 1;
    hide BlockOf, OffsetOf, BlockCount, Blk;
    RankUnmark(f.sparse, q, q + 1);
    RankUnmark(f.sparse, q, q);
    forall x: nat | x < q
      ensures FileBlock(t.disk, bs, g, x) == FileBlock(s.disk, bs, f, x)
    {
      RankUnmark(f.sparse, q, x);
      if x !in f.sparse {
        RankStrict(f.sparse, x, q);
      }
    }
    assert FileBlock(t.disk, bs, g, q) == FileBlock(s.disk, bs, f, q)[..o] + data + Zeros(bs - o - |data|);
    TailStep(s.disk, t.disk, bs, f, g, data);
    EditAtEnd(s, t, i);
  }

  /* Appending inside a stored tail block right behind a hole goes wrong: the tail is taken for sparse. */

  lemma TailMisread(s: State, t: State, i: nat, data: seq<byte>)
    requires Ok(s) && i < |s.files| && AtEnd(s, i) && TailBehindHole(s.files[i].size, s.files[i].sparse, s.bs)
    requires 0 < |data| && OffsetOf(s.files[i].size, s.bs) + |data| <= s.bs
    requires t.bs == s.bs && t.off == s.off + 1
    requires t.files == s.files[i := s.files[i].(size := s.files[i].size + |data|,
                                                sparse := s.files[i].sparse - {BlockOf(s.files[i].size, s.bs) - 1})]
    requires var o := OffsetOf(s.files[i].size, s.bs);
             BlockSet(s.disk, t.disk, s.bs, s.off, Zeros(o) + data + Zeros(s.bs - o - |data|))
    ensures Kept(s, t, i) && AtEnd(t, i)
    ensures FileContents(t, i) == TailMovedUp(FileContents(s, i), BlockOf(s.files[i].size, s.bs), s.bs) + data
  {
    var bs, f, g := s.bs, s.files[i], t.files[i];
    var q, o := BlockOf(f.size, bs), OffsetOf(f.size, bs);
    TailGrows(f.size, |data|, bs);
    MisreadBlocks(s, t, i, data);
    MisreadContents(s.disk, t.disk, bs, f, g, data);
    hide BlockOf, OffsetOf, BlockCount, Blk, FileBlock, Contents, Rank;
    assert BlockCount(f.size, bs) == q + 1;
    assert HolesInside(g, bs);
    assert Padded(t.disk, bs, g);
    EditAtEnd(s, t, i);
  }

  /** Block by block: the stored tail has moved into the hole, and the tail holds zeros and the new data. */
  lemma MisreadBlocks(s: State, t: State, i: nat, data: seq<byte>)
    requires Ok(s) && i < |s.files| && AtEnd(s, i) && TailBehindHole(s.files[i].size, s.files[i].sparse, s.bs)
    requires 0 < |data| && OffsetOf(s.files[i].size, s.bs) + |data| <= s.bs
    requires t.bs == s.bs && t.off == s.off + 1
    requires t.files == s.files[i := s.files[i].(size := s.files[i].size + |data|,
                                                sparse := s.files[i].sparse - {BlockOf(s.files[i].size, s.bs) - 1})]
    requires var o := OffsetOf(s.files[i].size, s.bs);
             BlockSet(s.disk, t.disk, s.bs, s.off, Zeros(o) + data + Zeros(s.bs - o - |data|))
    ensures var bs, f, g := s.bs, s.files[i], t.files[i];
            var q, o := BlockOf(f.size, bs), OffsetOf(f.size, bs);
            && StoredCount(g, bs) == StoredCount(f, bs) + 1
            && (forall x: nat | x < q - 1 :: FileBlock(t.disk, bs, g, x) == FileBlock(s.disk, bs, f, x))
            && FileBlock(t.disk, bs, g, q - 1) == FileBlock(s.disk, bs, f, q)
            && FileBlock(t.disk, bs, g, q) == Zeros(o) + data + Zeros(bs - o - |data|)
  {
    var bs, f, g := s.bs, s.files[i], t.files[i];
    var q := BlockOf(f.size, bs);
    TailGrows(f.size, |data|, bs);
    assert BlockCount(f.size, bs) == q + 1;
    hide BlockOf, OffsetOf, BlockCount, Blk;
    RankUnmark(f.sparse, q - 1, q + 1);
    RankUnmark(f.sparse, q - 1, q);
    RankUnmark(f.sparse, q - 1, q - 1);
    forall x: nat | x < q - 1
      ensures FileBlock(t.disk, bs, g, x) == FileBlock(s.disk, bs, f, x)
    {
      RankUnmark(f.sparse, q - 1, x);
      if x !in f.sparse {
        RankStrict(f.sparse, x, q);
      }
    }
  }

  lemma MisreadContents(d0: Disk, d1: Disk, bs: BlockSize, f: File, g: File, data: seq<byte>)
    requires var q, o := BlockOf(f.size, bs), OffsetOf(f.size, bs);
             && 0 < o && 0 < |data| && o + |data| <= bs && g.size == f.size + |data|
             && Padded(d0, bs, f) && 0 < q && q - 1 in f.sparse
             && (forall x: nat | x < q - 1 :: FileBlock(d1, bs, g, x) == FileBlock(d0, bs, f, x))
             && FileBlock(d1, bs, g, q - 1) == FileBlock(d0, bs, f, q)
             && FileBlock(d1, bs, g, q) == Zeros(o) + data + Zeros(bs - o - |data|)
    ensures Contents(d1, bs, g) == TailMovedUp(Contents(d0, bs, f), BlockOf(f.size, bs), bs) + data
    ensures Padded(d1, bs, g)
  {
    var q, o := BlockOf(f.size, bs), OffsetOf(f.size, bs);
    var c0, c1 := Contents(d0, bs, f), Contents(d1, bs, g);
    var lo := (q - 1) * bs;
    assert lo + bs == q * bs;
    ByteIndex(f.size, bs);
    TailGrows(f.size, |data|, bs);
    assert TailMovedUp(c0, q, bs) == c0[..lo] + c0[lo + bs..] + Zeros(bs);
    assert AtByte(bs, q - 1, 0, lo) && f.size == lo + bs + o;
    assert Padded(d1, bs, g);
    hide *;
    assert forall p: nat | p < g.size :: c1[p] == (c0[..lo] + c0[lo + bs..] + Zeros(bs) + data)[p] by {
      forall p: nat | p < g.size
        ensures c1[p] == (c0[..lo] + c0[lo + bs..] + Zeros(bs) + data)[p]
      {
        MisreadByte(d0, d1, bs, f, g, data, q, o, lo, p);
      }
    }
    assert c1 == c0[..lo] + c0[lo + bs..] + Zeros(bs) + data;
  }

  lemma MisreadByte(d0: Disk, d1: Disk, bs: BlockSize, f: File, g: File, data: seq<byte>, q: nat, o: nat, lo: nat,
                    p: nat)
    requires 0 < q && AtByte(bs, q - 1, 0, lo) && f.size == lo + bs + o
    requires q == BlockOf(f.size, bs) && o == OffsetOf(f.size, bs) && 0 < o && o + |data| <= bs
    requires g.size == f.size + |data| && p < g.size && Padded(d0, bs, f)
    requires forall x: nat | x < q - 1 :: FileBlock(d1, bs, g, x) == FileBlock(d0, bs, f, x)
    requires FileBlock(d1, bs, g, q - 1) == FileBlock(d0, bs, f, q)
    requires FileBlock(d1, bs, g, q) == Zeros(o) + data + Zeros(bs - o - |data|)
    ensures var c0, c1 := Contents(d0, bs, f), Contents(d1, bs, g);
            c1[p] == (c0[..lo] + c0[lo + bs..] + Zeros(bs) + data)[p]
  {
    hide BlockOf, OffsetOf, FileBlock, BlockCount, AtByte;
    WhereAround(bs, q, lo, p);
    WhereAround(bs, q, lo, p + bs);
    var c0, c1 := Contents(d0, bs, f), Contents(d1, bs, g);
    if p < lo {
      assert c1[p] == c0[p];
    } else if p < lo + o {
      assert c1[p] == c0[p + bs];
    } else if p < lo + bs {
      assert c1[p] == FileBlock(d0, bs, f, q)[p - lo];
    }
  }

  /** The bytes of block `q - 1`, of block `q`, and those before. */
  lemma WhereAround(bs: BlockSize, q: nat, lo: nat, p: nat)
    requires q > 0 && AtByte(bs, q - 1, 0, lo)
    ensures p < lo <==> BlockOf(p, bs) < q - 1
    ensures lo <= p < lo + bs ==> BlockOf(p, bs) == q - 1 && OffsetOf(p, bs) == p - lo
    ensures lo + bs <= p < lo + bs + bs ==> BlockOf(p, bs) == q && OffsetOf(p, bs) == p - lo - bs
  {
    hide BlockOf, OffsetOf;
    BeforeBlock(p, q - 1, bs);
    assert q * bs == lo + bs;
    InBlock(bs, q - 1, 0, bs, lo, p);
    InBlock(bs, q, 0, bs, lo + bs, p);
  }

  /* Steps inside a file: each changes one logical block. */

  /** A zero block was put in at `at`, the blocks from there on moving up. */
  ghost predicate Opened(d0: Disk, d1: Disk, bs: BlockSize, at: nat) {
    forall b: nat {:trigger Blk(d1, bs, b)} ::
      Blk(d1, bs, b) ==
      if b < at then Blk(d0, bs, b) else if b == at then Zeros(bs) else Blk(d0, bs, b - 1)
  }

  /** Block `at` was taken out, the blocks behind it up to `off` moving down. */
  ghost predicate Closed(d0: Disk, d1: Disk, bs: BlockSize, at: nat, off: nat) {
    forall b: nat {:trigger Blk(d1, bs, b)} ::
      Blk(d1, bs, b) ==
      if b < at then Blk(d0, bs, b) else if b + 1 < off then Blk(d0, bs, b + 1) else Zeros(bs)
  }

  /** A sparse block of the last file gets a zero block of its own, the blocks behind it moving up. */
  lemma BlockInserted(s: State, t: State, i: nat, x: nat)
    requires Ok(s) && i < |s.files| && AtEnd(s, i) && x in s.files[i].sparse
    requires t.bs == s.bs && t.off == s.off + 1
    requires t.files == s.files[i := s.files[i].(sparse := s.files[i].sparse - {x})]
    requires Opened(s.disk, t.disk, s.bs, s.files[i].start + Rank(s.files[i].sparse, x))
    ensures Kept(s, t, i) && AtEnd(t, i) && Padded(t.disk, t.bs, t.files[i])
    ensures FileContents(t, i) == FileContents(s, i)
    ensures forall j: nat | j < BlockCount(s.files[i].size, s.bs) ::
              FileBlock(t.disk, t.bs, t.files[i], j) == FileBlock(s.disk, s.bs, s.files[i], j)
  {
    var bs, f, g := s.bs, s.files[i], t.files[i];
    var n := BlockCount(f.size, bs);
    forall j: nat | j < n
      ensures FileBlock(t.disk, bs, g, j) == FileBlock(s.disk, bs, f, j)
    {
      InsertedBlock(s.disk, t.disk, bs, f, g, x, j);
    }
    RankUnmark(f.sparse, x, n);
    BlocksDecide(s.disk, t.disk, bs, f, g);
    hide BlockOf, OffsetOf, BlockCount, Blk, FileBlock;
    EditAtEnd(s, t, i);
  }

  lemma InsertedBlock(d0: Disk, d1: Disk, bs: BlockSize, f: File, g: File, x: nat, j: nat)
    requires x in f.sparse && g == f.(sparse := f.sparse - {x})
    requires Opened(d0, d1, bs, f.start + Rank(f.sparse, x))
    ensures FileBlock(d1, bs, g, j) == FileBlock(d0, bs, f, j)
  {
    hide Blk, Rank;
    RankUnmark(f.sparse, x, x);
    RankUnmark(f.sparse, x, j);
    if j < x && j !in f.sparse {
      RankStrict(f.sparse, j, x);
    } else if x < j {
      RankMonotone(f.sparse, x, j);
    }
  }

  /** A file whose logical blocks are what they were contains what it did. */
  lemma BlocksDecide(d0: Disk, d1: Disk, bs: BlockSize, f: File, g: File)
    requires g.size == f.size
    requires forall j: nat | j < BlockCount(f.size, bs) :: FileBlock(d1, bs, g, j) == FileBlock(d0, bs, f, j)
    ensures Contents(d1, bs, g) == Contents(d0, bs, f)
    ensures Padded(d0, bs, f) ==> Padded(d1, bs, g)
  {
    if OffsetOf(f.size, bs) > 0 {
      assert BlockOf(f.size, bs) < BlockCount(f.size, bs);
    }
    hide BlockOf, OffsetOf, BlockCount, FileBlock;
    forall p: nat | p < f.size
      ensures FileByte(d1, bs, g, p) == FileByte(d0, bs, f, p)
    {
      BlockInFile(f.size, bs, p);
    }
  }

  /** A stored block of the last file is taken out, the blocks behind it moving down; it reads as zeros from then on. */
  lemma BlockRemoved(s: State, t: State, i: nat, x: nat, n: nat, pos: nat)
    requires Ok(s) && i < |s.files| && AtEnd(s, i) && x !in s.files[i].sparse
    requires x < BlockCount(s.files[i].size, s.bs) && AtByte(s.bs, x, 0, pos)
    requires 0 < n <= s.bs && pos + n <= s.files[i].size && (n < s.bs ==> pos + n == s.files[i].size)
    requires t.bs == s.bs && t.off == s.off - 1
    requires t.files == s.files[i := s.files[i].(sparse := s.files[i].sparse + {x})]
    requires Closed(s.disk, t.disk, s.bs, s.files[i].start + Rank(s.files[i].sparse, x), s.off)
    ensures Kept(s, t, i) && AtEnd(t, i)
    ensures FileContents(t, i) == Splice(FileContents(s, i), pos, Zeros(n))
  {
    var bs, f, g := s.bs, s.files[i], t.files[i];
    RemovedContents(s.disk, t.disk, bs, f, g, x, n, pos, s.off);
    RankStrict(f.sparse, x, BlockCount(f.size, bs));
    assert HolesInside(g, bs);
    hide BlockOf, OffsetOf, BlockCount, Blk, Rank, AtByte, FileBlock, Contents, Padded, HolesInside;
    assert FreeIsZero(t.disk, bs, t.off);
    EditAtEnd(s, t, i);
  }

  lemma RemovedContents(d0: Disk, d1: Disk, bs: BlockSize, f: File, g: File, x: nat, n: nat, pos: nat, off: nat)
    requires x !in f.sparse && g == f.(sparse := f.sparse + {x}) && x < BlockCount(f.size, bs) && AtByte(bs, x, 0, pos)
    requires Padded(d0, bs, f) && f.start + StoredCount(f, bs) == off
    requires 0 < n <= bs && pos + n <= f.size && (n < bs ==> pos + n == f.size)
    requires Closed(d0, d1, bs, f.start + Rank(f.sparse, x), off)
    ensures Contents(d1, bs, g) == Splice(Contents(d0, bs, f), pos, Zeros(n)) && Padded(d1, bs, g)
    ensures StoredCount(g, bs) + 1 == StoredCount(f, bs)
  {
    var cnt := BlockCount(f.size, bs);
    RemovedTail(d0, bs, f, x, n, pos);
    RankMark(f.sparse, x, cnt);
    hide BlockOf, OffsetOf, BlockCount, Blk, Rank, AtByte;
    forall j: nat | j < cnt && j != x
      ensures FileBlock(d1, bs, g, j) == FileBlock(d0, bs, f, j)
    {
      RemovedBlock(d0, d1, bs, f, g, x, j, cnt, off);
    }
    SpliceStep(d0, d1, bs, f, g, x, 0, Zeros(n), pos);
  }

  lemma RemovedBlock(d0: Disk, d1: Disk, bs: BlockSize, f: File, g: File, x: nat, j: nat, n: nat, off: nat)
    requires x !in f.sparse && g == f.(sparse := f.sparse + {x}) && j != x && x < n && j < n
    requires f.start + Rank(f.sparse, n) == off
    requires Closed(d0, d1, bs, f.start + Rank(f.sparse, x), off)
    ensures FileBlock(d1, bs, g, j) == FileBlock(d0, bs, f, j)
  {
    hide Blk, Rank;
    RankMark(f.sparse, x, j);
    if j < x && j !in f.sparse {
      RankStrict(f.sparse, j, x);
    } else if x < j && j !in f.sparse {
      RankStrict(f.sparse, x, j);
      RankStrict(f.sparse, j, n);
    }
  }

  /** Zeroing the part of a block that is inside the file zeroes all of it. */
  lemma RemovedTail(d: Disk, bs: BlockSize, f: File, x: nat, n: nat, pos: nat)
    requires AtByte(bs, x, 0, pos) && Padded(d, bs, f)
    requires 0 < n <= bs && pos + n <= f.size && (n < bs ==> pos + n == f.size)
    ensures Splice(FileBlock(d, bs, f, x), 0, Zeros(n)) == Zeros(bs)
  {
    hide BlockOf, OffsetOf, FileBlock;
    if n < bs {
      ByteIndexUnique(x, n, bs, f.size);
    }
    var b := FileBlock(d, bs, f, x);
    assert forall o | n <= o < bs :: b[o] == 0;
    assert Splice(b, 0, Zeros(n)) == Zeros(bs);
  }

  /** A stored block is rewritten in part, wherever the file lies. */
  lemma BlockRewritten(s: State, t: State, i: nat, x: nat, o: nat, data: seq<byte>, pos: nat)
    requires Ok(s) && i < |s.files| && x !in s.files[i].sparse && x < BlockCount(s.files[i].size, s.bs)
    requires o + |data| <= s.bs && AtByte(s.bs, x, o, pos) && pos + |data| <= s.files[i].size
    requires t.bs == s.bs && t.off == s.off && t.files == s.files
    requires var b := s.files[i].start + Rank(s.files[i].sparse, x);
             BlockSet(s.disk, t.disk, s.bs, b, Splice(Blk(s.disk, s.bs, b), o, data))
    ensures Kept(s, t, i)
    ensures FileContents(t, i) == Splice(FileContents(s, i), pos, data)
  {
    var bs, f := s.bs, s.files[i];
    var cnt := BlockCount(f.size, bs);
    hide BlockOf, OffsetOf, BlockCount, Blk, Rank, AtByte;
    RankStrict(f.sparse, x, cnt);
    forall j: nat | j < cnt && j != x
      ensures FileBlock(t.disk, bs, f, j) == FileBlock(s.disk, bs, f, j)
    {
      if j !in f.sparse {
        if j < x {
          RankStrict(f.sparse, j, x);
        } else {
          RankStrict(f.sparse, x, j);
        }
      }
    }
    SpliceStep(s.disk, t.disk, bs, f, f, x, o, data, pos);
    assert t.files == s.files[i := t.files[i]];
    EditInPlace(s, t, i);
  }
}
