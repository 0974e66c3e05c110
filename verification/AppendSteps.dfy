/** The ways in which one part of an append is carried out, each against what it does to the file. */
module AppendSteps {
  import opened Bytes
  import opened Volumes
  import opened Ranks
  import opened Models
  import opened Layout
  import opened Steps

  /** A file of the tree, seen without its place on the volume. */
  ghost function ModelOf(s: State, i: nat): (m: FileModel)
    requires i < |s.files|
    ensures |m.data| == s.files[i].size
  {
    FileModel(FileContents(s, i), s.files[i].sparse)
  }

  /** In a tree that is in order, a sparse block is a block of its file, and reads as zeros. */
  lemma InOrder(s: State, i: nat)
    requires Ok(s) && i < |s.files|
    ensures HolesFit(ModelOf(s, i), s.bs) && SparseReadsZero(ModelOf(s, i), s.bs)
  {
    assert HolesInside(s.files[i], s.bs);
    hide BlockOf, OffsetOf, BlockCount, Padded, Slack;
  }

  /** The file counted as `n` bytes longer. */
  ghost function Grown(s: State, i: nat, n: nat): State
    requires i < |s.files|
  {
    s.(files := s.files[i := s.files[i].(size := s.files[i].size + n)])
  }

  /** Once the file's size is counted up, `part` has been appended and nothing else has changed. */
  ghost predicate PartAppended(s: State, t: State, i: nat, noSparse: bool, part: Buffer)
    requires i < |s.files|
  {
    && t.bs == s.bs && |t.files| == |s.files| && t.files[i].size == s.files[i].size
    && Kept(s, Grown(t, i, part.Len()), i)
    && ModelOf(Grown(t, i, part.Len()), i) == AppendPart(ModelOf(s, i), s.bs, noSparse, part)
  }

  /** The file lies last now; nothing else about any file that matters has changed. */
  ghost predicate Relocated(s: State, t: State, i: nat)
    requires i < |s.files|
  {
    && Kept(s, t, i) && AtEnd(t, i) && FileContents(t, i) == FileContents(s, i)
    && t.off == s.off
    && forall j | 0 <= j < |s.files| :: t.files[j].size == s.files[j].size && t.files[j].sparse == s.files[j].sparse
  }

  lemma KeptAfter(s: State, r: State, t: State, i: nat)
    requires i < |s.files| && Kept(s, r, i) && Kept(r, t, i)
    ensures Kept(s, t, i)
  {
    hide Ok, FileContents, Slack;
  }

  lemma PartIntoZeros(s: State, i: nat, noSparse: bool, part: Buffer)
    requires Ok(s) && i < |s.files| && OffsetOf(s.files[i].size, s.bs) > 0
    requires 0 < part.Len() && OffsetOf(s.files[i].size, s.bs) + part.Len() <= s.bs && part.ReadsZero()
    ensures PartAppended(s, s, i, noSparse, part)
  {
    hide Ok, Kept, Contents, StoredCount, OffsetOf, BlockOf;
    TailZeroed(s, Grown(s, i, part.Len()), i, part.Len());
    assert part.Bytes() == Zeros(part.Len());
  }

  lemma PartIntoTail(s: State, t: State, i: nat, noSparse: bool, part: Buffer)
    requires Ok(s) && i < |s.files| && OffsetOf(s.files[i].size, s.bs) > 0
    requires 0 < part.Len() && OffsetOf(s.files[i].size, s.bs) + part.Len() <= s.bs
    requires BlockOf(s.files[i].size, s.bs) !in s.files[i].sparse
    requires !TailBehindHole(s.files[i].size, s.files[i].sparse, s.bs)
    requires t.bs == s.bs && t.off == s.off && t.files == s.files
    requires var f := s.files[i];
             var b := f.start + Rank(f.sparse, BlockOf(f.size, s.bs));
             BlockSet(s.disk, t.disk, s.bs, b, Splice(Blk(s.disk, s.bs, b), OffsetOf(f.size, s.bs), part.Bytes()))
    ensures PartAppended(s, t, i, noSparse, part)
  {
    hide Ok, Kept, Contents, StoredCount, OffsetOf, BlockOf, Rank, Blk, Splice, BlockSet;
    TailFilled(s, Grown(t, i, part.Len()), i, part.Bytes());
  }

  /** The new last block of a tail that was sparse, or was taken for sparse. */
  lemma PartIntoNewTail(s: State, r: State, t: State, i: nat, noSparse: bool, part: Buffer, x: nat)
    requires i < |s.files| && Ok(r) && Relocated(s, r, i)
    requires OffsetOf(s.files[i].size, s.bs) > 0 && !part.ReadsZero()
    requires 0 < part.Len() && OffsetOf(s.files[i].size, s.bs) + part.Len() <= s.bs
    requires var q := BlockOf(s.files[i].size, s.bs);
             if q in s.files[i].sparse then x == q
             else TailBehindHole(s.files[i].size, s.files[i].sparse, s.bs) && x == q - 1
    requires t.bs == r.bs && t.off == r.off + 1
    requires t.files == r.files[i := r.files[i].(sparse := r.files[i].sparse - {x})]
    requires var o := OffsetOf(s.files[i].size, s.bs);
             BlockSet(r.disk, t.disk, r.bs, r.off, Zeros(o) + part.Bytes() + Zeros(r.bs - o - part.Len()))
    ensures PartAppended(s, t, i, noSparse, part)
  {
    hide Ok, Contents, StoredCount, OffsetOf, BlockOf, Rank, Blk, BlockSet, AtEnd, Slack, TailMovedUp;
    var u := Grown(t, i, part.Len());
    if BlockOf(s.files[i].size, s.bs) in s.files[i].sparse {
      TailUnshared(r, u, i, part.Bytes());
    } else {
      TailMisread(r, u, i, part.Bytes());
    }
    KeptAfter(s, r, u, i);
  }

  lemma PartAsHole(s: State, t: State, i: nat, noSparse: bool, part: Buffer)
    requires Ok(s) && i < |s.files| && OffsetOf(s.files[i].size, s.bs) == 0
    requires 0 < part.Len() <= s.bs && part.ReadsZero() && !noSparse
    requires t == s.(files := s.files[i := s.files[i].(sparse := s.files[i].sparse + {BlockOf(s.files[i].size, s.bs)})])
    ensures PartAppended(s, t, i, noSparse, part)
  {
    hide Ok, Kept, Contents, StoredCount, OffsetOf, BlockOf;
    HoleAppended(s, Grown(t, i, part.Len()), i, part.Len());
    assert part.Bytes() == Zeros(part.Len());
  }

  lemma PartAsBlock(s: State, r: State, t: State, i: nat, noSparse: bool, part: Buffer)
    requires i < |s.files| && Ok(r) && Relocated(s, r, i)
    requires OffsetOf(s.files[i].size, s.bs) == 0 && 0 < part.Len() <= s.bs && (noSparse || !part.ReadsZero())
    requires t.bs == r.bs && t.off == r.off + 1 && t.files == r.files
    requires BlockSet(r.disk, t.disk, r.bs, r.off, part.Bytes() + Zeros(r.bs - part.Len()))
    ensures PartAppended(s, t, i, noSparse, part)
  {
    hide Ok, Contents, StoredCount, OffsetOf, BlockOf, Rank, Blk, BlockSet, AtEnd, Slack;
    var u := Grown(t, i, part.Len());
    BlockAppended(r, u, i, part.Bytes());
    KeptAfter(s, r, u, i);
  }
}
