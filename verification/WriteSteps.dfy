/** The ways in which one part of a write inside the file is carried out, each against what it does to the file. */
module WriteSteps {
  import opened Bytes
  import opened Volumes
  import opened Ranks
  import opened Models
  import opened Layout
  import opened Edits
  import opened Steps
  import opened AppendSteps

  /** `part` has been written at `offset` and nothing else has changed. */
  ghost predicate PartWritten(s: State, t: State, i: nat, noSparse: bool, offset: nat, part: Buffer)
    requires i < |s.files| && offset + part.Len() <= s.files[i].size
  {
    Kept(s, t, i) && ModelOf(t, i) == WritePart(ModelOf(s, i), s.bs, noSparse, offset, part)
  }

  /** The part lies in one block of the file. */
  ghost predicate PartFits(s: State, i: nat, offset: nat, part: Buffer)
    requires i < |s.files|
  {
    0 < part.Len() && OffsetOf(offset, s.bs) + part.Len() <= s.bs && offset + part.Len() <= s.files[i].size
  }

  lemma PartPlace(s: State, i: nat, offset: nat, part: Buffer)
    requires i < |s.files| && PartFits(s, i, offset, part)
    ensures AtByte(s.bs, BlockOf(offset, s.bs), OffsetOf(offset, s.bs), offset)
    ensures BlockOf(offset, s.bs) < BlockCount(s.files[i].size, s.bs)
  {
    ByteIndex(offset, s.bs);
    BlockInFile(s.files[i].size, s.bs, offset);
  }

  /** Zeros written into a hole change nothing. */
  lemma ZerosIntoHole(s: State, i: nat, noSparse: bool, offset: nat, part: Buffer)
    requires Ok(s) && i < |s.files| && PartFits(s, i, offset, part)
    requires BlockOf(offset, s.bs) in s.files[i].sparse && part.ReadsZero()
    ensures PartWritten(s, s, i, noSparse, offset, part)
  {
    hide BlockOf, OffsetOf, BlockCount, Contents, StoredCount, AtByte, CoversBlock, Splice;
    var f, x, o := s.files[i], BlockOf(offset, s.bs), OffsetOf(offset, s.bs);
    PartPlace(s, i, offset, part);
    ZerosOverZeros(s.bs, o, part);
    assert Padded(s.disk, s.bs, f);
    SpliceStep(s.disk, s.disk, s.bs, f, f, x, o, part.Bytes(), offset);
  }

  lemma ZerosOverZeros(bs: BlockSize, o: nat, part: Buffer)
    requires part.ReadsZero() && o + part.Len() <= bs
    ensures Splice(Zeros(bs), o, part.Bytes()) == Zeros(bs)
  {
  }

  /** Data written into a hole: the file moves to the end, the block is put in, then written. */
  lemma DataIntoHole(s: State, r: State, u: State, t: State, i: nat, noSparse: bool, offset: nat, part: Buffer)
    requires i < |s.files| && PartFits(s, i, offset, part) && Ok(r) && Relocated(s, r, i)
    requires BlockOf(offset, s.bs) in s.files[i].sparse && !part.ReadsZero()
    requires u.bs == r.bs && u.off == r.off + 1
    requires u.files == r.files[i := r.files[i].(sparse := r.files[i].sparse - {BlockOf(offset, r.bs)})]
    requires Opened(r.disk, u.disk, r.bs, r.files[i].start + Rank(r.files[i].sparse, BlockOf(offset, r.bs)))
    requires t.bs == u.bs && t.off == u.off && t.files == u.files
    requires var b := r.files[i].start + Rank(r.files[i].sparse, BlockOf(offset, r.bs));
             BlockSet(u.disk, t.disk, r.bs, b, Splice(Blk(u.disk, r.bs, b), OffsetOf(offset, r.bs), part.Bytes()))
    ensures PartWritten(s, t, i, noSparse, offset, part)
  {
    hide Ok, BlockOf, OffsetOf, BlockCount, Contents, StoredCount, AtByte, CoversBlock, Splice, Opened, BlockSet, Blk,
      Rank, AtEnd, Slack;
    var x, o := BlockOf(offset, s.bs), OffsetOf(offset, s.bs);
    PartPlace(s, i, offset, part);
    BlockInserted(r, u, i, x);
    RankAgree(u.files[i].sparse, r.files[i].sparse, x);
    BlockRewritten(u, t, i, x, o, part.Bytes(), offset);
    KeptAfter(s, r, u, i);
    KeptAfter(s, u, t, i);
  }

  /** A stored block that gets only zeros, all of it that the file has, is taken out and made sparse. */
  lemma ZerosOverBlock(s: State, r: State, t: State, i: nat, noSparse: bool, offset: nat, part: Buffer)
    requires i < |s.files| && PartFits(s, i, offset, part) && Ok(r) && Relocated(s, r, i)
    requires BlockOf(offset, s.bs) !in s.files[i].sparse && part.ReadsZero() && !noSparse
    requires CoversBlock(s.files[i].size, s.bs, BlockOf(offset, s.bs), OffsetOf(offset, s.bs), part.Len())
    requires t.bs == r.bs && t.off == r.off - 1
    requires t.files == r.files[i := r.files[i].(sparse := r.files[i].sparse + {BlockOf(offset, r.bs)})]
    requires Closed(r.disk, t.disk, r.bs, r.files[i].start + Rank(r.files[i].sparse, BlockOf(offset, r.bs)), r.off)
    ensures PartWritten(s, t, i, noSparse, offset, part)
  {
    hide Ok, BlockOf, OffsetOf, BlockCount, Contents, StoredCount, AtByte, CoversBlock, Splice, Closed, Blk, Rank,
      AtEnd, Slack;
    PartPlace(s, i, offset, part);
    CoveredTail(s.files[i].size, s.bs, offset, part.Len());
    BlockRemoved(r, t, i, BlockOf(offset, s.bs), part.Len(), offset);
    KeptAfter(s, r, t, i);
    assert part.Bytes() == Zeros(part.Len());
  }

  lemma CoveredTail(size: nat, bs: BlockSize, offset: nat, n: nat)
    requires CoversBlock(size, bs, BlockOf(offset, bs), OffsetOf(offset, bs), n)
    ensures OffsetOf(offset, bs) == 0 && n <= bs && (n < bs ==> offset + n == size)
  {
    hide BlockOf, OffsetOf;
    ByteIndex(offset, bs);
    ByteIndex(size, bs);
  }

  lemma DataOverBlock(s: State, t: State, i: nat, noSparse: bool, offset: nat, part: Buffer)
    requires Ok(s) && i < |s.files| && PartFits(s, i, offset, part)
    requires BlockOf(offset, s.bs) !in s.files[i].sparse
    requires noSparse || !part.ReadsZero() ||
             !CoversBlock(s.files[i].size, s.bs, BlockOf(offset, s.bs), OffsetOf(offset, s.bs), part.Len())
    requires t.bs == s.bs && t.off == s.off && t.files == s.files
    requires var b := s.files[i].start + Rank(s.files[i].sparse, BlockOf(offset, s.bs));
             BlockSet(s.disk, t.disk, s.bs, b, Splice(Blk(s.disk, s.bs, b), OffsetOf(offset, s.bs), part.Bytes()))
    ensures PartWritten(s, t, i, noSparse, offset, part)
  {
    hide Ok, BlockOf, OffsetOf, BlockCount, Contents, StoredCount, AtByte, CoversBlock, Splice, BlockSet, Blk, Rank,
      Slack;
    PartPlace(s, i, offset, part);
    BlockRewritten(s, t, i, BlockOf(offset, s.bs), OffsetOf(offset, s.bs), part.Bytes(), offset);
  }
}
