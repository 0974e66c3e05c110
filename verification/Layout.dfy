/** The packed volume as a value: which blocks belong to which file, and what each file contains. */
module Layout {
  import opened Bytes
  import opened Volumes
  import opened Ranks
  import opened FileNodes

  /** A file tree's volume: its blocks, the high-water mark below which files are packed, and the files. */
  datatype State = State(bs: BlockSize, disk: Disk, off: nat, files: seq<File>)

  /** Number of blocks the file has on the volume. */
  ghost function StoredCount(f: File, bs: BlockSize): nat {
    Rank(f.sparse, BlockCount(f.size, bs))
  }

  /** The stored block of rank `r`. */
  ghost function NthStored(d: Disk, bs: BlockSize, f: File, r: nat): (b: seq<byte>)
    ensures |b| == bs
  {
    Blk(d, bs, f.start + r)
  }

  /** Logical block `i` of a file: zeros in a hole, else the block found at its rank. */
  ghost function FileBlock(d: Disk, bs: BlockSize, f: File, i: nat): (b: seq<byte>)
    ensures |b| == bs
  {
    if i in f.sparse then Zeros(bs) else NthStored(d, bs, f, Rank(f.sparse, i))
  }

  ghost function FileByte(d: Disk, bs: BlockSize, f: File, p: nat): byte {
    FileBlock(d, bs, f, BlockOf(p, bs))[OffsetOf(p, bs)]
  }

  /** What the file contains. */
  ghost function Contents(d: Disk, bs: BlockSize, f: File): (c: seq<byte>)
    ensures |c| == f.size
    ensures forall p | 0 <= p < f.size :: c[p] == FileByte(d, bs, f, p)
  {
    seq(f.size, p requires 0 <= p < f.size => FileByte(d, bs, f, p))
  }

  ghost function FileContents(s: State, i: nat): (c: seq<byte>)
    requires i < |s.files|
    ensures |c| == s.files[i].size
  {
    Contents(s.disk, s.bs, s.files[i])
  }

  /* What every operation keeps. */

  /** No hole reaches past the last block of the file. */
  ghost predicate HolesInside(f: File, bs: BlockSize) {
    forall i | i in f.sparse :: i < BlockCount(f.size, bs)
  }

  /** The stored blocks end at the high-water mark or before. */
  ghost predicate Below(f: File, bs: BlockSize, off: nat) {
    StoredCount(f, bs) > 0 ==> f.start + StoredCount(f, bs) <= off
  }

  ghost predicate Disjoint(f: File, g: File, bs: BlockSize) {
    StoredCount(f, bs) > 0 && StoredCount(g, bs) > 0 ==>
      f.start + StoredCount(f, bs) <= g.start || g.start + StoredCount(g, bs) <= f.start
  }

  /** What is stored behind the end of the file in its last block reads as zeros. */
  ghost predicate Padded(d: Disk, bs: BlockSize, f: File) {
    OffsetOf(f.size, bs) > 0 ==>
      forall o | OffsetOf(f.size, bs) <= o < bs :: FileBlock(d, bs, f, BlockOf(f.size, bs))[o] == 0
  }

  /** Nothing is stored at or above the high-water mark. */
  ghost predicate FreeIsZero(d: Disk, bs: BlockSize, off: nat) {
    forall b: nat | off <= b :: Blk(d, bs, b) == Zeros(bs)
  }

  ghost predicate Ok(s: State) {
    && (forall i | 0 <= i < |s.files| ::
         HolesInside(s.files[i], s.bs) && Below(s.files[i], s.bs, s.off) && Padded(s.disk, s.bs, s.files[i]))
    && (forall i, j | 0 <= i < |s.files| && 0 <= j < |s.files| && i != j :: Disjoint(s.files[i], s.files[j], s.bs))
    && FreeIsZero(s.disk, s.bs, s.off)
  }

  /** Number of blocks of all files together. */
  ghost function Used(fs: seq<File>, bs: BlockSize): nat {
    if fs == [] then 0 else Used(fs[..|fs| - 1], bs) + StoredCount(fs[|fs| - 1], bs)
  }

  /** Blocks below the high-water mark that belong to no file. */
  ghost function Slack(s: State): int {
    s.off - Used(s.files, s.bs)
  }

  /** The file's blocks are the last ones before the high-water mark. */
  ghost predicate AtEnd(s: State, i: nat)
    requires i < |s.files|
  {
    s.files[i].start + StoredCount(s.files[i], s.bs) == s.off
  }

  /** The file is stored as before, though maybe elsewhere. */
  ghost predicate SameStored(s: State, t: State, j: nat)
    requires s.bs == t.bs && j < |s.files| == |t.files|
  {
    && t.files[j].size == s.files[j].size && t.files[j].sparse == s.files[j].sparse
    && forall r: nat | r < StoredCount(s.files[j], s.bs) ::
         NthStored(t.disk, t.bs, t.files[j], r) == NthStored(s.disk, s.bs, s.files[j], r)
  }

  lemma SameFile(s: State, t: State, j: nat)
    requires s.bs == t.bs && j < |s.files| == |t.files|
    requires SameStored(s, t, j)
    ensures FileContents(t, j) == FileContents(s, j)
    ensures Padded(t.disk, t.bs, t.files[j]) <==> Padded(s.disk, s.bs, s.files[j])
    ensures StoredCount(t.files[j], t.bs) == StoredCount(s.files[j], s.bs)
    ensures forall i: nat | i < BlockCount(s.files[j].size, s.bs) ::
              FileBlock(t.disk, t.bs, t.files[j], i) == FileBlock(s.disk, s.bs, s.files[j], i)
  {
    var f, g, n := s.files[j], t.files[j], BlockCount(s.files[j].size, s.bs);
    forall i: nat | i < n
      ensures FileBlock(t.disk, t.bs, g, i) == FileBlock(s.disk, s.bs, f, i)
    {
      if i !in f.sparse {
        RankStrict(f.sparse, i, n);
      }
    }
    forall p: nat | p < f.size
      ensures FileByte(t.disk, t.bs, g, p) == FileByte(s.disk, s.bs, f, p)
    {
      BlockInFile(f.size, s.bs, p);
    }
    if OffsetOf(f.size, s.bs) > 0 {
      assert BlockOf(f.size, s.bs) < n;
    }
  }

  lemma BlockInFile(size: nat, bs: BlockSize, p: nat)
    requires p < size
    ensures BlockOf(p, bs) < BlockCount(size, bs)
    ensures BlockOf(p, bs) <= BlockOf(size, bs)
    ensures BlockOf(p, bs) == BlockOf(size, bs) ==> OffsetOf(p, bs) < OffsetOf(size, bs)
  {
    hide BlockOf, OffsetOf;
    var q, n := BlockOf(p, bs), BlockOf(size, bs);
    ByteIndex(p, bs);
    ByteIndex(size, bs);
    BeforeBlock(p, n + 1, bs);
    assert (n + 1) * bs == n * bs + bs;
  }

  /* Block counts of all files. */

  lemma {:induction false} UsedUpdate(fs: seq<File>, bs: BlockSize, i: nat, g: File)
    requires i < |fs|
    ensures Used(fs[i := g], bs) + StoredCount(fs[i], bs) == Used(fs, bs) + StoredCount(g, bs)
  {
    var last := |fs| - 1;
    if i < last {
      UsedUpdate(fs[..last], bs, i, g);
      assert fs[i := g][..last] == fs[..last][i := g];
    } else {
      assert fs[i := g][..last] == fs[..last];
    }
  }

  lemma {:induction false} UsedSame(fs: seq<File>, gs: seq<File>, bs: BlockSize)
    requires |fs| == |gs| && forall j | 0 <= j < |fs| :: StoredCount(gs[j], bs) == StoredCount(fs[j], bs)
    ensures Used(gs, bs) == Used(fs, bs)
  {
    if fs != [] {
      UsedSame(fs[..|fs| - 1], gs[..|gs| - 1], bs);
    }
  }

  /* Edits of one file. `Kept` is what the rest of the tree sees of any of them. */

  /** Everything is in order after the step, no other file has changed, and no block was lost or gained. */
  ghost predicate Kept(s: State, t: State, i: nat)
    requires i < |s.files|
  {
    && t.bs == s.bs && |t.files| == |s.files|
    && Ok(t) && Slack(t) == Slack(s)
    && forall j | 0 <= j < |s.files| && j != i ::
         FileContents(t, j) == FileContents(s, j) && t.files[j].sparse == s.files[j].sparse
  }

  ghost predicate BlocksKept(d0: Disk, d1: Disk, bs: BlockSize, lo: nat, hi: nat) {
    forall b: nat | lo <= b < hi :: Blk(d1, bs, b) == Blk(d0, bs, b)
  }

  /** The file that lies last can grow, shrink and rearrange its blocks at will. */
  lemma EditAtEnd(s: State, t: State, i: nat)
    requires Ok(s) && i < |s.files| && AtEnd(s, i)
    requires t.bs == s.bs && |t.files| == |s.files| && t.files == s.files[i := t.files[i]]
    requires t.files[i].start == s.files[i].start && AtEnd(t, i)
    requires BlocksKept(s.disk, t.disk, s.bs, 0, s.files[i].start) && FreeIsZero(t.disk, t.bs, t.off)
    requires HolesInside(t.files[i], t.bs) && Padded(t.disk, t.bs, t.files[i])
    ensures Kept(s, t, i)
  {
    hide Contents, Padded, Stored, HolesInside, Used, Blk;
    forall j | 0 <= j < |s.files| && j != i
      ensures StoredCount(s.files[j], s.bs) > 0 ==> s.files[j].start + StoredCount(s.files[j], s.bs) <= s.files[i].start
      ensures FileContents(t, j) == FileContents(s, j) && Padded(t.disk, t.bs, t.files[j])
    {
      assert Disjoint(s.files[i], s.files[j], s.bs);
      SameFile(s, t, j);
    }
    UsedUpdate(s.files, s.bs, i, t.files[i]);
  }

  /** A file can change inside its own blocks wherever it lies. */
  lemma EditInPlace(s: State, t: State, i: nat)
    requires Ok(s) && i < |s.files|
    requires t.bs == s.bs && t.off == s.off && |t.files| == |s.files| && t.files == s.files[i := t.files[i]]
    requires t.files[i].start == s.files[i].start && StoredCount(t.files[i], t.bs) == StoredCount(s.files[i], s.bs)
    requires BlocksKept(s.disk, t.disk, s.bs, 0, s.files[i].start)
    requires forall b: nat | s.files[i].start + StoredCount(s.files[i], s.bs) <= b ::
               Blk(t.disk, s.bs, b) == Blk(s.disk, s.bs, b)
    requires HolesInside(t.files[i], t.bs) && Padded(t.disk, t.bs, t.files[i])
    ensures Kept(s, t, i)
  {
    hide Contents, Padded, Stored, HolesInside, Used, Blk;
    forall j | 0 <= j < |s.files| && j != i
      ensures FileContents(t, j) == FileContents(s, j) && Padded(t.disk, t.bs, t.files[j])
    {
      assert Disjoint(s.files[i], s.files[j], s.bs);
      SameFile(s, t, j);
    }
    UsedUpdate(s.files, s.bs, i, t.files[i]);
  }
}
