/**
 * What the file operations do to one file, said of its contents and its set of sparse blocks only:
 * no extents, no other files, no volume.
 */
module Models {
  import opened Bytes
  import opened Volumes

  datatype FileModel = FileModel(data: seq<byte>, sparse: set<nat>)

  /** A partial tail block that is stored, right behind a sparse block. */
  ghost predicate TailBehindHole(size: nat, sparse: set<nat>, bs: BlockSize) {
    var q := BlockOf(size, bs);
    OffsetOf(size, bs) > 0 && q !in sparse && q > 0 && q - 1 in sparse
  }

  /** The data with the tail block moved forward over the sparse block before it. */
  ghost function TailMovedUp(c: seq<byte>, q: nat, bs: BlockSize): (r: seq<byte>)
    ensures |r| == |c|
  {
    var lo: nat := if q == 0 then 0 else (q - 1) * bs;
    if lo + bs <= |c| then c[..lo] + c[lo + bs..] + Zeros(bs) else c
  }

  /** What fits into the tail block, or into one more block. */
  ghost function FirstPart(size: nat, bs: BlockSize, data: Buffer): (n: nat)
    ensures n <= data.Len() && n <= bs && (data.Len() > 0 ==> n > 0)
    ensures OffsetOf(size, bs) + n <= bs
  {
    var room := bs - OffsetOf(size, bs);
    if room > data.Len() then data.Len() else room
  }

  /** Appending at most one block's worth of data. */
  ghost function AppendPart(m: FileModel, bs: BlockSize, noSparse: bool, part: Buffer): (r: FileModel)
    ensures |r.data| == |m.data| + part.Len()
  {
    var q, d := BlockOf(|m.data|, bs), part.Bytes();
    if OffsetOf(|m.data|, bs) > 0 then
      if part.ReadsZero() then FileModel(m.data + d, m.sparse)
      else if q in m.sparse then FileModel(m.data + d, m.sparse - {q})
      else if TailBehindHole(|m.data|, m.sparse, bs) then FileModel(TailMovedUp(m.data, q, bs) + d, m.sparse - {q - 1})
      else FileModel(m.data + d, m.sparse)
    else if !noSparse && part.ReadsZero() then FileModel(m.data + d, m.sparse + {q})
    else FileModel(m.data + d, m.sparse)
  }

  ghost function Appended(m: FileModel, bs: BlockSize, noSparse: bool, data: Buffer): (r: FileModel)
    ensures |r.data| == |m.data| + data.Len()
    decreases data.Len()
  {
    if data.Len() == 0 then m
    else
      var n := FirstPart(|m.data|, bs, data);
      Appended(AppendPart(m, bs, noSparse, data.Take(n)), bs, noSparse, data.Drop(n))
  }

  lemma AppendedNone(m: FileModel, bs: BlockSize, noSparse: bool, data: Buffer)
    requires data.Len() == 0
    ensures Appended(m, bs, noSparse, data) == m
  {
  }

  /** The append does harm: data other than zeros goes into a stored tail behind a hole. */
  ghost predicate Misplaces(m: FileModel, bs: BlockSize, data: Buffer) {
    TailBehindHole(|m.data|, m.sparse, bs) && !data.Take(FirstPart(|m.data|, bs, data)).ReadsZero()
  }

  lemma NothingIsZero(b: Buffer)
    requires b.Len() == 0
    ensures b.ReadsZero()
  {
  }

  lemma PartEndsAligned(m: FileModel, bs: BlockSize, data: Buffer)
    requires data.Len() > 0
    ensures var n := FirstPart(|m.data|, bs, data); n < data.Len() ==> OffsetOf(|m.data| + n, bs) == 0
  {
    var n := FirstPart(|m.data|, bs, data);
    if n < data.Len() {
      var q := BlockOf(|m.data|, bs);
      ByteIndex(|m.data|, bs);
      assert (q + 1) * bs == q * bs + bs;
      ByteIndexUnique(q + 1, 0, bs, |m.data| + n);
    }
  }

  /** The data before the append, or as a misread tail leaves it. */
  ghost function Base(m: FileModel, bs: BlockSize, data: Buffer): seq<byte> {
    if Misplaces(m, bs, data) then TailMovedUp(m.data, BlockOf(|m.data|, bs), bs) else m.data
  }

  lemma PartData(m: FileModel, bs: BlockSize, noSparse: bool, data: Buffer)
    requires data.Len() > 0
    ensures var n := FirstPart(|m.data|, bs, data);
            AppendPart(m, bs, noSparse, data.Take(n)).data == Base(m, bs, data) + data.Take(n).Bytes()
  {
    hide BlockOf, OffsetOf, TailMovedUp, IsZero, FirstPart;
  }

  /** Only the first part of an append can do harm: the others start new blocks. */
  lemma HarmlessAfter(m: FileModel, p: FileModel, bs: BlockSize, data: Buffer)
    requires data.Len() > 0 && |p.data| == |m.data| + FirstPart(|m.data|, bs, data)
    ensures Base(p, bs, data.Drop(FirstPart(|m.data|, bs, data))) == p.data
  {
    hide BlockOf, OffsetOf, TailMovedUp, IsZero;
    PartEndsAligned(m, bs, data);
    var rest := data.Drop(FirstPart(|m.data|, bs, data));
    if rest.Len() == 0 {
      NothingIsZero(rest.Take(FirstPart(|p.data|, bs, rest)));
    }
  }

  /** What an append makes of the data, in every case. */
  lemma {:induction false} AppendedData(m: FileModel, bs: BlockSize, noSparse: bool, data: Buffer)
    ensures Appended(m, bs, noSparse, data).data == Base(m, bs, data) + data.Bytes()
    decreases data.Len()
  {
    hide Base, AppendPart, FirstPart;
    if data.Len() == 0 {
      BaseOfNothing(m, bs, data);
      assert m.data + data.Bytes() == m.data;
    } else {
      var n := FirstPart(|m.data|, bs, data);
      var p, rest := AppendPart(m, bs, noSparse, data.Take(n)), data.Drop(n);
      AppendedData(p, bs, noSparse, rest);
      PartData(m, bs, noSparse, data);
      HarmlessAfter(m, p, bs, data);
      Concat3(Base(m, bs, data), data.Take(n).Bytes(), rest.Bytes());
      assert data.Take(n).Bytes() + rest.Bytes() == data.Bytes();
    }
  }

  lemma Concat3(a: seq<byte>, b: seq<byte>, c: seq<byte>)
    ensures a + b + c == a + (b + c)
  {
  }

  lemma BaseOfNothing(m: FileModel, bs: BlockSize, data: Buffer)
    requires data.Len() == 0
    ensures Base(m, bs, data) == m.data
  {
    NothingIsZero(data.Take(FirstPart(|m.data|, bs, data)));
  }

  /** In the block before a stored tail there are only zeros, if that block is sparse. */
  ghost predicate SparseReadsZero(m: FileModel, bs: BlockSize) {
    forall p | 0 <= p < |m.data| && BlockOf(p, bs) in m.sparse :: m.data[p] == 0
  }

  /**
   * An append gives the old data followed by the new, exactly if the tail is not one that is taken for sparse, or
   * nothing but zeros goes into it first, or nothing but zeros is in it.
   */
  lemma AppendExact(m: FileModel, bs: BlockSize, noSparse: bool, data: Buffer)
    requires SparseReadsZero(m, bs)
    ensures Appended(m, bs, noSparse, data).data == m.data + data.Bytes() <==>
            || !Misplaces(m, bs, data)
            || forall p | 0 <= p < |m.data| && BlockOf(p, bs) == BlockOf(|m.data|, bs) :: m.data[p] == 0
  {
    AppendedData(m, bs, noSparse, data);
    if Misplaces(m, bs, data) {
      MovedUpBefore(m, bs, |m.data|);
      var b := Base(m, bs, data);
      assert b[..|m.data|] == b && m.data[..|m.data|] == m.data;
      assert (b + data.Bytes())[..|m.data|] == b && (m.data + data.Bytes())[..|m.data|] == m.data;
    }
  }

  lemma AppendedInTail(m: FileModel, bs: BlockSize, noSparse: bool, data: Buffer)
    requires 0 < data.Len() && OffsetOf(|m.data|, bs) + data.Len() <= bs
    ensures Appended(m, bs, noSparse, data) == AppendPart(m, bs, noSparse, data)
  {
    assert data.Take(data.Len()) == data;
  }

  /**
   * Two zeros, a five and a seven, appended one after the other to an empty file with blocks of two bytes: the five
   * ends up in front.
   */
  lemma AppendGoesWrong()
    ensures var a := Appended(FileModel([], {}), 2, false, Null(2));
            var b := Appended(a, 2, false, Data([5]));
            var c := Appended(b, 2, false, Data([7]));
            b.data == [0, 0, 5] && c.data == [5, 0, 0, 7]
  {
    var m := FileModel([], {});
    assert BlockOf(0, 2) == 0 && OffsetOf(0, 2) == 0 && BlockOf(2, 2) == 1 && OffsetOf(2, 2) == 0;
    assert BlockOf(3, 2) == 1 && OffsetOf(3, 2) == 1;
    AppendedInTail(m, 2, false, Null(2));
    var a := Appended(m, 2, false, Null(2));
    assert a == FileModel([0, 0], {0});
    AppendedInTail(a, 2, false, Data([5]));
    var b := Appended(a, 2, false, Data([5]));
    assert !Data([5]).ReadsZero() && !Data([7]).ReadsZero() by {
      assert [5][0] == 5 && [7][0] == 7;
    }
    assert b == FileModel([0, 0, 5], {0});
    AppendedInTail(b, 2, false, Data([7]));
    assert TailMovedUp(b.data, 1, 2) == [5, 0, 0];
  }

  /* Writing inside the file. */

  /** The bytes from `o` on of block `x` that the part covers are all the bytes of that block that the file has. */
  ghost predicate CoversBlock(size: nat, bs: BlockSize, x: nat, o: nat, n: nat) {
    o == 0 && (n == bs || (x == BlockOf(size, bs) && n == OffsetOf(size, bs)))
  }

  /** Writing inside one block. A block that gets only zeros becomes, or stays, sparse. */
  ghost function WritePart(m: FileModel, bs: BlockSize, noSparse: bool, offset: nat, part: Buffer): (r: FileModel)
    requires offset + part.Len() <= |m.data|
    ensures |r.data| == |m.data|
  {
    var x, o := BlockOf(offset, bs), OffsetOf(offset, bs);
    FileModel(Splice(m.data, offset, part.Bytes()),
              if x in m.sparse then (if part.ReadsZero() then m.sparse else m.sparse - {x})
              else if !noSparse && part.ReadsZero() && CoversBlock(|m.data|, bs, x, o, part.Len()) then m.sparse + {x}
              else m.sparse)
  }

  ghost function Written(m: FileModel, bs: BlockSize, noSparse: bool, offset: nat, data: Buffer): (r: FileModel)
    requires offset + data.Len() <= |m.data|
    ensures |r.data| == |m.data|
    decreases data.Len()
  {
    if data.Len() == 0 then m
    else
      var n := FirstPart(offset, bs, data);
      Written(WritePart(m, bs, noSparse, offset, data.Take(n)), bs, noSparse, offset + n, data.Drop(n))
  }

  lemma WrittenNone(m: FileModel, bs: BlockSize, noSparse: bool, offset: nat, data: Buffer)
    requires data.Len() == 0 && offset <= |m.data|
    ensures Written(m, bs, noSparse, offset, data) == m
  {
  }

  /** A write inside the file replaces exactly the range, whatever is sparse. */
  lemma {:induction false} WrittenData(m: FileModel, bs: BlockSize, noSparse: bool, offset: nat, data: Buffer)
    requires offset + data.Len() <= |m.data|
    ensures Written(m, bs, noSparse, offset, data).data == Splice(m.data, offset, data.Bytes())
    decreases data.Len()
  {
    hide BlockOf, OffsetOf, CoversBlock, IsZero;
    if data.Len() == 0 {
      assert Splice(m.data, offset, data.Bytes()) == m.data;
    } else {
      var n := FirstPart(offset, bs, data);
      WrittenData(WritePart(m, bs, noSparse, offset, data.Take(n)), bs, noSparse, offset + n, data.Drop(n));
      SpliceTwice(m.data, offset, data.Bytes(), n);
    }
  }

  lemma SpliceTwice(c: seq<byte>, at: nat, d: seq<byte>, n: nat)
    requires at + |d| <= |c| && n <= |d|
    ensures Splice(Splice(c, at, d[..n]), at + n, d[n..]) == Splice(c, at, d)
  {
  }

  /** The part of the data that falls into block `x` is zeros. */
  ghost predicate ZeroIn(bs: BlockSize, offset: nat, d: seq<byte>, x: nat) {
    forall p: nat | offset <= p < offset + |d| && BlockOf(p, bs) == x :: d[p - offset] == 0
  }

  /** The data reaches into block `x`. */
  ghost predicate Touches(bs: BlockSize, offset: nat, n: nat, x: nat) {
    exists p: nat | offset <= p < offset + n :: BlockOf(p, bs) == x
  }

  /** All of the file's bytes in block `x` are among those written. */
  ghost predicate Covers(size: nat, bs: BlockSize, offset: nat, n: nat, x: nat) {
    forall p: nat | p < size && BlockOf(p, bs) == x :: offset <= p < offset + n
  }

  /** Whether block `x` is sparse after a write. */
  ghost predicate SparseAfterWrite(m: FileModel, bs: BlockSize, noSparse: bool, offset: nat, d: seq<byte>, x: nat) {
    if Touches(bs, offset, |d|, x)
    then ZeroIn(bs, offset, d, x) && (x in m.sparse || (!noSparse && Covers(|m.data|, bs, offset, |d|, x)))
    else x in m.sparse
  }

  lemma PartCovers(size: nat, bs: BlockSize, offset: nat, n: nat)
    requires 0 < n && OffsetOf(offset, bs) + n <= bs && offset + n <= size
    ensures var x, o := BlockOf(offset, bs), OffsetOf(offset, bs);
            CoversBlock(size, bs, x, o, n) <==> Covers(size, bs, offset, n, x)
  {
    hide BlockOf, OffsetOf;
    var x, o := BlockOf(offset, bs), OffsetOf(offset, bs);
    ByteIndex(offset, bs);
    var lo: nat := x * bs;
    forall p: nat ensures lo <= p < lo + bs <==> BlockOf(p, bs) == x {
      InBlock(bs, x, 0, bs, lo, p);
    }
    ByteIndex(size, bs);
    if o != 0 {
      assert BlockOf(lo, bs) == x;
    } else if n < bs && offset + n < size {
      assert BlockOf(offset + n, bs) == x;
      InBlock(bs, x, 0, n, lo, size);
    } else if n < bs {
      ByteIndexUnique(x, n, bs, size);
    }
  }

  /** The first part lies in the first block, the others in blocks behind. */
  lemma PartBlocks(bs: BlockSize, offset: nat, data: Buffer, p: nat)
    requires data.Len() > 0 && offset <= p < offset + data.Len()
    ensures BlockOf(p, bs) == BlockOf(offset, bs) <==> p < offset + FirstPart(offset, bs, data)
  {
    hide BlockOf, OffsetOf;
    var x, n := BlockOf(offset, bs), FirstPart(offset, bs, data);
    ByteIndex(offset, bs);
    InBlock(bs, x, 0, bs, x * bs, p);
  }

  /** The first part of a write decides about the first block, and about no other. */
  lemma WriteStep(m: FileModel, bs: BlockSize, noSparse: bool, offset: nat, data: Buffer, x: nat)
    requires offset + data.Len() <= |m.data| && data.Len() > 0
    ensures var n := FirstPart(offset, bs, data);
            SparseAfterWrite(WritePart(m, bs, noSparse, offset, data.Take(n)), bs, noSparse, offset + n,
                             data.Drop(n).Bytes(), x)
            <==> SparseAfterWrite(m, bs, noSparse, offset, data.Bytes(), x)
  {
    hide BlockOf, OffsetOf, CoversBlock, Splice, FirstPart;
    var n, d := FirstPart(offset, bs, data), data.Bytes();
    var x0 := BlockOf(offset, bs);
    forall p: nat | offset <= p < offset + |d| ensures BlockOf(p, bs) == x0 <==> p < offset + n {
      PartBlocks(bs, offset, data, p);
    }
    assert data.Drop(n).Bytes() == d[n..] && data.Take(n).Bytes() == d[..n];
    if x == x0 {
      PartCovers(|m.data|, bs, offset, n);
      FirstBlockWritten(bs, |m.data|, offset, d, n);
    } else {
      OtherBlockWritten(bs, |m.data|, offset, d, n, x);
    }
  }

  lemma FirstBlockWritten(bs: BlockSize, size: nat, offset: nat, d: seq<byte>, n: nat)
    requires 0 < n <= |d| && offset + |d| <= size
    requires forall p: nat | offset <= p < offset + |d| :: BlockOf(p, bs) == BlockOf(offset, bs) <==> p < offset + n
    ensures var x := BlockOf(offset, bs);
            && Touches(bs, offset, |d|, x) && !Touches(bs, offset + n, |d| - n, x)
            && (ZeroIn(bs, offset, d, x) <==> IsZero(d[..n]))
            && (Covers(size, bs, offset, |d|, x) <==> Covers(size, bs, offset, n, x))
  {
    hide BlockOf;
    var x := BlockOf(offset, bs);
    if ZeroIn(bs, offset, d, x) {
      forall k | 0 <= k < n ensures d[..n][k] == 0 {
        assert BlockOf(offset + k, bs) == x;
      }
    }
    if IsZero(d[..n]) {
      forall p: nat | offset <= p < offset + |d| && BlockOf(p, bs) == x ensures d[p - offset] == 0 {
        assert d[..n][p - offset] == 0;
      }
    }
  }

  lemma OtherBlockWritten(bs: BlockSize, size: nat, offset: nat, d: seq<byte>, n: nat, x: nat)
    requires 0 < n <= |d| && offset + |d| <= size && x != BlockOf(offset, bs)
    requires forall p: nat | offset <= p < offset + |d| :: BlockOf(p, bs) == BlockOf(offset, bs) <==> p < offset + n
    ensures Touches(bs, offset, |d|, x) <==> Touches(bs, offset + n, |d| - n, x)
    ensures ZeroIn(bs, offset, d, x) <==> ZeroIn(bs, offset + n, d[n..], x)
    ensures Covers(size, bs, offset, |d|, x) <==> Covers(size, bs, offset + n, |d| - n, x)
  {
    hide BlockOf;
    if ZeroIn(bs, offset + n, d[n..], x) {
      forall p: nat | offset <= p < offset + |d| && BlockOf(p, bs) == x ensures d[p - offset] == 0 {
        assert d[n..][p - offset - n] == 0;
      }
    }
  }

  /**
   * A write makes exactly those blocks sparse that it overwrites with zeros altogether, and unshares those it puts data
   * in.
   */
  lemma {:induction false} WrittenSparse(m: FileModel, bs: BlockSize, noSparse: bool, offset: nat, data: Buffer, x: nat)
    requires offset + data.Len() <= |m.data|
    ensures x in Written(m, bs, noSparse, offset, data).sparse <==>
            SparseAfterWrite(m, bs, noSparse, offset, data.Bytes(), x)
    decreases data.Len()
  {
    hide BlockOf, OffsetOf, CoversBlock, WritePart, FirstPart, ZeroIn, Covers;
    if data.Len() > 0 {
      var n := FirstPart(offset, bs, data);
      WrittenSparse(WritePart(m, bs, noSparse, offset, data.Take(n)), bs, noSparse, offset + n, data.Drop(n), x);
      WriteStep(m, bs, noSparse, offset, data, x);
    }
  }

  /* Which blocks are sparse after an append. */

  ghost predicate HolesFit(m: FileModel, bs: BlockSize) {
    forall x | x in m.sparse :: x < BlockCount(|m.data|, bs)
  }

  ghost predicate SparseAfterAppend(m: FileModel, bs: BlockSize, noSparse: bool, data: Buffer, x: nat) {
    var size := |m.data|;
    if Touches(bs, size, data.Len(), x)
    then ZeroIn(bs, size, data.Bytes(), x) && (x in m.sparse || (!noSparse && x >= BlockCount(size, bs)))
    else x in m.sparse && !(Misplaces(m, bs, data) && x + 1 == BlockOf(size, bs))
  }

  lemma AppendStep(m: FileModel, bs: BlockSize, noSparse: bool, data: Buffer, x: nat)
    requires data.Len() > 0 && HolesFit(m, bs)
    ensures var n := FirstPart(|m.data|, bs, data);
            var p := AppendPart(m, bs, noSparse, data.Take(n));
            && HolesFit(p, bs)
            && (SparseAfterAppend(p, bs, noSparse, data.Drop(n), x) <==> SparseAfterAppend(m, bs, noSparse, data, x))
  {
    hide BlockOf, OffsetOf, FirstPart, TailMovedUp, IsZero;
    var size, n, d := |m.data|, FirstPart(|m.data|, bs, data), data.Bytes();
    var q := BlockOf(size, bs);
    var p, rest := AppendPart(m, bs, noSparse, data.Take(n)), data.Drop(n);
    PartAligned(size, bs, data);
    forall b: nat | size <= b < size + |d| ensures BlockOf(b, bs) == q <==> b < size + n {
      PartBlocks(bs, size, data, b);
    }
    assert data.Drop(n).Bytes() == d[n..] && data.Take(n).Bytes() == d[..n];
    RestHarmless(p, bs, rest);
    FirstBlockWritten(bs, size + |d|, size, d, n);
    if x != q {
      OtherBlockWritten(bs, size + |d|, size, d, n, x);
      if Touches(bs, size, |d|, x) {
        LaterBlock(bs, size, |d|, x);
      }
    }
  }

  lemma RestHarmless(p: FileModel, bs: BlockSize, rest: Buffer)
    requires rest.Len() > 0 ==> OffsetOf(|p.data|, bs) == 0
    ensures !Misplaces(p, bs, rest)
  {
    if rest.Len() == 0 {
      NothingIsZero(rest.Take(FirstPart(|p.data|, bs, rest)));
    }
  }

  lemma LaterBlock(bs: BlockSize, offset: nat, n: nat, x: nat)
    requires Touches(bs, offset, n, x)
    ensures x >= BlockOf(offset, bs)
  {
    hide BlockOf, OffsetOf;
    var p: nat :| offset <= p < offset + n && BlockOf(p, bs) == x;
    ByteIndex(offset, bs);
    BeforeBlock(offset, x + 1, bs);
    BeforeBlock(p, x + 1, bs);
  }

  /** Where the first part ends, and how many blocks that makes. */
  lemma PartAligned(size: nat, bs: BlockSize, data: Buffer)
    requires data.Len() > 0
    ensures var n := FirstPart(size, bs, data);
            && 0 < n && BlockCount(size + n, bs) == BlockOf(size, bs) + 1
            && (n < data.Len() ==> OffsetOf(size + n, bs) == 0)
  {
    hide BlockOf, OffsetOf;
    var n, q, t := FirstPart(size, bs, data), BlockOf(size, bs), OffsetOf(size, bs);
    ByteIndex(size, bs);
    if t + n < bs {
      ByteIndexUnique(q, t + n, bs, size + n);
    } else {
      assert (q + 1) * bs == q * bs + bs;
      ByteIndexUnique(q + 1, 0, bs, size + n);
    }
  }

  /** An append makes sparse exactly the new blocks that get only zeros, and unshares a sparse tail that gets data. */
  lemma {:induction false} AppendedSparse(m: FileModel, bs: BlockSize, noSparse: bool, data: Buffer, x: nat)
    requires HolesFit(m, bs)
    ensures x in Appended(m, bs, noSparse, data).sparse <==> SparseAfterAppend(m, bs, noSparse, data, x)
    decreases data.Len()
  {
    hide BlockOf, OffsetOf, AppendPart, FirstPart, ZeroIn;
    if data.Len() > 0 {
      var n := FirstPart(|m.data|, bs, data);
      AppendStep(m, bs, noSparse, data, x);
      AppendedSparse(AppendPart(m, bs, noSparse, data.Take(n)), bs, noSparse, data.Drop(n), x);
    } else {
      NothingIsZero(data.Take(FirstPart(|m.data|, bs, data)));
    }
  }

  /* A write anywhere: what lies between the old end and the range is filled with zeros first. */

  ghost function Filled(m: FileModel, bs: BlockSize, noSparse: bool, offset: nat): (r: FileModel)
    ensures |r.data| == if offset > |m.data| then offset else |m.data|
  {
    if offset > |m.data| then Appended(m, bs, noSparse, Null(offset - |m.data|)) else m
  }

  /** The write of any range. The part behind the end of the file is appended before the rest is written. */
  ghost function FileWritten(m: FileModel, bs: BlockSize, noSparse: bool, offset: nat, data: Buffer): (r: FileModel)
    ensures |r.data| == if data.Len() > 0 && offset + data.Len() > |m.data| then offset + data.Len() else |m.data|
  {
    if data.Len() == 0 then m
    else
      var f := Filled(m, bs, noSparse, offset);
      var inside: nat := if data.Len() > |f.data| - offset then |f.data| - offset else data.Len();
      var g := if data.Len() > inside then Appended(f, bs, noSparse, data.Drop(inside)) else f;
      Written(g, bs, noSparse, offset, data.Take(inside))
  }

  /** The file with its size changed: cut off, or filled up with zeros. */
  ghost function Resized(m: FileModel, bs: BlockSize, noSparse: bool, size: nat): (r: FileModel)
    ensures |r.data| == size
  {
    if size >= |m.data| then Filled(m, bs, noSparse, size)
    else FileModel(m.data[..size], set x | x in m.sparse && x < BlockCount(size, bs))
  }

  /** Whatever is sparse, a change of size keeps what is left and adds only zeros. */
  lemma ResizedData(m: FileModel, bs: BlockSize, noSparse: bool, size: nat)
    ensures Resized(m, bs, noSparse, size).data ==
            if size >= |m.data| then m.data + Zeros(size - |m.data|) else m.data[..size]
  {
    hide Filled;
    FilledData(m, bs, noSparse, size);
    if size == |m.data| {
      assert m.data + Zeros(0) == m.data;
    }
  }

  /** What a file should hold after a write. */
  ghost function Overwritten(c: seq<byte>, offset: nat, d: seq<byte>): (r: seq<byte>) {
    if d == [] then c
    else
      var f := if offset > |c| then c + Zeros(offset - |c|) else c;
      if offset + |d| >= |f| then f[..offset] + d else f[..offset] + d + f[offset + |d|..]
  }

  /** Byte by byte: the range holds the data, a gap before it zeros, all else what it held. */
  lemma OverwrittenBytes(c: seq<byte>, offset: nat, d: seq<byte>, p: nat)
    ensures |Overwritten(c, offset, d)| == if d != [] && offset + |d| > |c| then offset + |d| else |c|
    ensures p < |Overwritten(c, offset, d)| ==>
              Overwritten(c, offset, d)[p] ==
              if offset <= p < offset + |d| then d[p - offset] else if p < |c| then c[p] else 0
  {
  }

  lemma FilledData(m: FileModel, bs: BlockSize, noSparse: bool, offset: nat)
    ensures Filled(m, bs, noSparse, offset).data ==
            if offset > |m.data| then m.data + Zeros(offset - |m.data|) else m.data
  {
    hide Appended, FirstPart;
    if offset > |m.data| {
      var z := Null(offset - |m.data|);
      AppendedData(m, bs, noSparse, z);
      assert z.Take(FirstPart(|m.data|, bs, z)).ReadsZero();
    }
  }

  /** A write that does not reach past the end of the file is exact, whatever is sparse. */
  lemma InsideExact(m: FileModel, bs: BlockSize, noSparse: bool, offset: nat, data: Buffer)
    requires offset + data.Len() <= |m.data|
    ensures FileWritten(m, bs, noSparse, offset, data).data == Overwritten(m.data, offset, data.Bytes())
  {
    hide Written, BlockOf, OffsetOf;
    if data.Len() > 0 {
      assert data.Take(data.Len()).Bytes() == data.Bytes();
      WrittenData(m, bs, noSparse, offset, data.Take(data.Len()));
    }
  }

  /** The part of a write that lies behind the end of the file does no harm. */
  ghost predicate WriteSafe(m: FileModel, bs: BlockSize, noSparse: bool, offset: nat, data: Buffer) {
    var f := Filled(m, bs, noSparse, offset);
    var inside: nat := if data.Len() > |f.data| - offset then |f.data| - offset else data.Len();
    || !Misplaces(f, bs, data.Drop(inside))
    || forall p | 0 <= p < |f.data| && BlockOf(p, bs) == BlockOf(|f.data|, bs) && p < offset + bs :: f.data[p] == 0
  }

  /** Filling up with zeros leaves a stored tail behind a hole only where the hole was there before. */
  lemma FilledTail(m: FileModel, bs: BlockSize, noSparse: bool, offset: nat)
    requires HolesFit(m, bs) && offset > |m.data|
    ensures var q := BlockOf(offset, bs);
            TailBehindHole(offset, Filled(m, bs, noSparse, offset).sparse, bs) <==>
            && OffsetOf(offset, bs) > 0 && q > 0 && q !in m.sparse && q - 1 in m.sparse
            && (noSparse || q < BlockCount(|m.data|, bs))
  {
    hide BlockOf, OffsetOf, Appended, FirstPart, BlockCount;
    var z, q := Null(offset - |m.data|), BlockOf(offset, bs);
    assert z.Take(FirstPart(|m.data|, bs, z)).ReadsZero();
    AppendedSparse(m, bs, noSparse, z, q);
    if OffsetOf(offset, bs) > 0 {
      BlockBefore(offset, bs);
      assert Touches(bs, |m.data|, z.Len(), q);
    }
    if q > 0 {
      AppendedSparse(m, bs, noSparse, z, q - 1);
      if q - 1 >= BlockCount(|m.data|, bs) {
        BlockReached(|m.data|, bs, offset, q - 1);
      }
    }
  }

  lemma BlockBefore(offset: nat, bs: BlockSize)
    requires OffsetOf(offset, bs) > 0
    ensures offset > 0 && BlockOf(offset - 1, bs) == BlockOf(offset, bs)
  {
    hide BlockOf, OffsetOf;
    ByteIndex(offset, bs);
    ByteIndexUnique(BlockOf(offset, bs), OffsetOf(offset, bs) - 1, bs, offset - 1);
  }

  /** A block behind the file and before the one with `offset` in it is reached on the way there. */
  lemma BlockReached(size: nat, bs: BlockSize, offset: nat, x: nat)
    requires BlockCount(size, bs) <= x < BlockOf(offset, bs) && size <= offset
    ensures Touches(bs, size, offset - size, x)
  {
    hide BlockOf, OffsetOf;
    var p: nat := x * bs;
    ByteIndexUnique(x, 0, bs, p);
    BeforeBlock(offset, x + 1, bs);
    assert (x + 1) * bs == p + bs;
    BeforeBlock(size, x, bs);
    ByteIndex(size, bs);
    if BlockOf(size, bs) == x {
      assert OffsetOf(size, bs) == 0;
    }
    assert size <= p < offset && BlockOf(p, bs) == x;
  }

  lemma FilledReadsZero(m: FileModel, bs: BlockSize, noSparse: bool, offset: nat)
    requires HolesFit(m, bs) && SparseReadsZero(m, bs)
    ensures SparseReadsZero(Filled(m, bs, noSparse, offset), bs)
  {
    hide BlockOf, OffsetOf, Appended, FirstPart, BlockCount, Touches, ZeroIn;
    var f := Filled(m, bs, noSparse, offset);
    FilledData(m, bs, noSparse, offset);
    if offset > |m.data| {
      forall p | 0 <= p < |f.data| && BlockOf(p, bs) in f.sparse
        ensures f.data[p] == 0
      {
        if p < |m.data| {
          var x := BlockOf(p, bs);
          AppendedSparse(m, bs, noSparse, Null(offset - |m.data|), x);
          CountAbove(|m.data|, bs, p);
        }
      }
    }
  }

  lemma CountAbove(size: nat, bs: BlockSize, p: nat)
    requires p < size
    ensures BlockOf(p, bs) < BlockCount(size, bs)
  {
    hide BlockOf, OffsetOf;
    ByteIndex(p, bs);
    ByteIndex(size, bs);
    BeforeBlock(p, BlockOf(size, bs) + 1, bs);
    assert (BlockOf(size, bs) + 1) * bs == BlockOf(size, bs) * bs + bs;
    BeforeBlock(p, BlockOf(size, bs), bs);
  }

  /** What a write makes of the data, in every case. */
  lemma WriteData(m: FileModel, bs: BlockSize, noSparse: bool, offset: nat, data: Buffer)
    requires data.Len() > 0
    ensures var f := Filled(m, bs, noSparse, offset);
            var inside: nat := if data.Len() > |f.data| - offset then |f.data| - offset else data.Len();
            FileWritten(m, bs, noSparse, offset, data).data ==
            Splice(Base(f, bs, data.Drop(inside)) + data.Bytes()[inside..], offset, data.Bytes()[..inside])
  {
    hide BlockOf, OffsetOf, Appended, FirstPart, Written, Base, Splice;
    var f := Filled(m, bs, noSparse, offset);
    var inside: nat := if data.Len() > |f.data| - offset then |f.data| - offset else data.Len();
    AppendedData(f, bs, noSparse, data.Drop(inside));
    var g := if data.Len() > inside then Appended(f, bs, noSparse, data.Drop(inside)) else f;
    if data.Len() == inside {
      BaseOfNothing(f, bs, data.Drop(inside));
      assert f.data + data.Bytes()[inside..] == f.data;
    }
    WrittenData(g, bs, noSparse, offset, data.Take(inside));
  }

  lemma WriteSafeExact(m: FileModel, bs: BlockSize, noSparse: bool, offset: nat, data: Buffer)
    requires HolesFit(m, bs) && SparseReadsZero(m, bs) && data.Len() > 0
    ensures FileWritten(m, bs, noSparse, offset, data).data == Overwritten(m.data, offset, data.Bytes()) <==>
            WriteSafe(m, bs, noSparse, offset, data)
  {
    hide BlockOf, OffsetOf, Appended, FirstPart, Written, FileWritten, TailMovedUp, HolesFit, TailBehindHole,
      Overwritten, Splice, SparseReadsZero, Misplaces, IsZero;
    var f := Filled(m, bs, noSparse, offset);
    var inside: nat := if data.Len() > |f.data| - offset then |f.data| - offset else data.Len();
    var b, d := Base(f, bs, data.Drop(inside)), data.Bytes();
    WriteData(m, bs, noSparse, offset, data);
    FilledData(m, bs, noSparse, offset);
    FilledReadsZero(m, bs, noSparse, offset);
    OverwrittenFilled(m.data, f.data, offset, d);
    MisplacesTail(f, bs, data.Drop(inside));
    SpliceAgrees(b, f.data, offset, d, inside);
    if Misplaces(f, bs, data.Drop(inside)) {
      MovedUpBefore(f, bs, offset);
    }
  }

  lemma MisplacesTail(m: FileModel, bs: BlockSize, data: Buffer)
    ensures Misplaces(m, bs, data) ==> TailBehindHole(|m.data|, m.sparse, bs) && data.Len() > 0
  {
    if data.Len() == 0 {
      NothingIsZero(data.Take(FirstPart(|m.data|, bs, data)));
    }
  }

  lemma OverwrittenFilled(c: seq<byte>, f: seq<byte>, offset: nat, d: seq<byte>)
    requires d != [] && f == if offset > |c| then c + Zeros(offset - |c|) else c
    ensures Overwritten(f, offset, d) == Overwritten(c, offset, d)
  {
  }

  /** The range hides what happened to the bytes in it: only those before count. */
  lemma SpliceAgrees(b: seq<byte>, c: seq<byte>, offset: nat, d: seq<byte>, inside: nat)
    requires |b| == |c| && d != []  && offset <= |c|
    requires inside == if |d| > |c| - offset then |c| - offset else |d|
    ensures (inside == |d| ==> b == c) ==>
            (Splice(b + d[inside..], offset, d[..inside]) == Overwritten(c, offset, d) <==> b[..offset] == c[..offset])
  {
    var r, w := Splice(b + d[inside..], offset, d[..inside]), Overwritten(c, offset, d);
    assert |r| == |w|;
    assert r[..offset] == b[..offset] && w[..offset] == c[..offset];
    if inside == |d| {
      if b == c {
        assert r == w;
      }
    } else if b[..offset] == c[..offset] {
      assert r == b[..offset] + d && w == c[..offset] + d;
    }
  }

  /** Before `offset`, moving the tail up changes nothing exactly if the tail bytes that would show there are zeros. */
  lemma MovedUpBefore(m: FileModel, bs: BlockSize, offset: nat)
    requires SparseReadsZero(m, bs) && TailBehindHole(|m.data|, m.sparse, bs) && offset <= |m.data|
    ensures TailMovedUp(m.data, BlockOf(|m.data|, bs), bs)[..offset] == m.data[..offset] <==>
            forall p | 0 <= p < |m.data| && BlockOf(p, bs) == BlockOf(|m.data|, bs) && p < offset + bs :: m.data[p] == 0
  {
    hide BlockOf, OffsetOf;
    var c, q := m.data, BlockOf(|m.data|, bs);
    var lo: nat := (q - 1) * bs;
    assert q * bs == lo + bs;
    ByteIndex(|c|, bs);
    var r := TailMovedUp(c, q, bs);
    assert r == c[..lo] + c[lo + bs..] + Zeros(bs);
    forall p: nat | p < |c|
      ensures lo <= p < lo + bs ==> BlockOf(p, bs) == q - 1
      ensures lo + bs <= p <==> BlockOf(p, bs) == q
    {
      InBlock(bs, q - 1, 0, bs, lo, p);
      InBlock(bs, q, 0, bs, lo + bs, p);
    }
    TailZeroBefore(c, r, lo, bs, offset);
  }

  lemma TailZeroBefore(c: seq<byte>, r: seq<byte>, lo: nat, bs: BlockSize, offset: nat)
    requires lo + bs <= |c| < lo + bs + bs && r == c[..lo] + c[lo + bs..] + Zeros(bs) && offset <= |c|
    requires forall p | lo <= p < lo + bs :: c[p] == 0
    ensures r[..offset] == c[..offset] <==> forall p | lo + bs <= p < |c| && p < offset + bs :: c[p] == 0
  {
    if r[..offset] == c[..offset] {
      forall p | lo + bs <= p < |c| && p < offset + bs ensures c[p] == 0 {
        assert r[..offset][p - bs] == c[..offset][p - bs];
      }
    }
    if forall p | lo + bs <= p < |c| && p < offset + bs :: c[p] == 0 {
      forall p | 0 <= p < offset ensures r[p] == c[p] {
      }
    }
  }

  /**
   * The write puts nothing into a stored tail that the code takes for sparse, or only zeros, or the bytes of that tail
   * that would show in front are zeros. The tail is that of the file, or of the zeros between the file and the range.
   */
  ghost predicate WriteHarmless(m: FileModel, bs: BlockSize, noSparse: bool, offset: nat, d: seq<byte>) {
    var end := if offset > |m.data| then offset else |m.data|;
    var q := BlockOf(end, bs);
    || !(TailBehindHole(end, m.sparse, bs) && (noSparse || q < BlockCount(|m.data|, bs)))
    || ZeroPast(bs, offset, d, q, end)
    || ZeroUpTo(bs, m.data, q, offset + bs)
  }

  /** What the data has for block `q` from byte `end` on is zeros. */
  ghost predicate ZeroPast(bs: BlockSize, offset: nat, d: seq<byte>, q: nat, end: nat)
    requires offset <= end
  {
    forall p: nat | end <= p < offset + |d| && BlockOf(p, bs) == q :: d[p - offset] == 0
  }

  /** What the file has of block `q` below byte `end` is zeros. */
  ghost predicate ZeroUpTo(bs: BlockSize, c: seq<byte>, q: nat, end: nat) {
    forall p: nat | p < |c| && p < end && BlockOf(p, bs) == q :: c[p] == 0
  }

  /** What filling up and splitting the data make of the condition. */
  lemma SafeExact(m: FileModel, bs: BlockSize, noSparse: bool, offset: nat, data: Buffer)
    requires HolesFit(m, bs)
    ensures WriteSafe(m, bs, noSparse, offset, data) <==> WriteHarmless(m, bs, noSparse, offset, data.Bytes())
  {
    hide BlockOf, OffsetOf, BlockCount, Filled, HolesFit, Misplaces, TailBehindHole, ZeroIn;
    var f, d := Filled(m, bs, noSparse, offset), data.Bytes();
    var inside: nat := if data.Len() > |f.data| - offset then |f.data| - offset else data.Len();
    var q := BlockOf(|f.data|, bs);
    TailOfFilled(m, bs, noSparse, offset);
    RestMisplaced(f, bs, data.Drop(inside));
    ZeroBehind(bs, offset, d, inside, |f.data|, q);
    TailZeros(m, bs, noSparse, offset, q);
  }

  lemma ZeroBehind(bs: BlockSize, offset: nat, d: seq<byte>, inside: nat, end: nat, q: nat)
    requires offset <= end && inside == if |d| > end - offset then end - offset else |d|
    ensures ZeroIn(bs, end, d[inside..], q) <==> ZeroPast(bs, offset, d, q, end)
  {
    hide BlockOf;
    var r := d[inside..];
    if ZeroIn(bs, end, r, q) {
      forall p: nat | end <= p < offset + |d| && BlockOf(p, bs) == q ensures d[p - offset] == 0 {
        assert r[p - end] == 0;
      }
    }
    if ZeroPast(bs, offset, d, q, end) {
      forall p: nat | end <= p < end + |r| && BlockOf(p, bs) == q ensures r[p - end] == 0 {
        assert d[p - offset] == 0;
      }
    }
  }

  lemma TailZeros(m: FileModel, bs: BlockSize, noSparse: bool, offset: nat, q: nat)
    ensures ZeroUpTo(bs, Filled(m, bs, noSparse, offset).data, q, offset + bs) <==> ZeroUpTo(bs, m.data, q, offset + bs)
  {
    hide BlockOf, Filled;
    var f := Filled(m, bs, noSparse, offset);
    FilledData(m, bs, noSparse, offset);
    assert forall p: nat | p < |m.data| :: f.data[p] == m.data[p];
  }

  lemma TailOfFilled(m: FileModel, bs: BlockSize, noSparse: bool, offset: nat)
    requires HolesFit(m, bs)
    ensures var f := Filled(m, bs, noSparse, offset);
            TailBehindHole(|f.data|, f.sparse, bs) <==>
            TailBehindHole(|f.data|, m.sparse, bs) && (noSparse || BlockOf(|f.data|, bs) < BlockCount(|m.data|, bs))
  {
    hide BlockOf, OffsetOf, HolesFit, Appended;
    if offset > |m.data| {
      FilledTail(m, bs, noSparse, offset);
    }
  }

  lemma RestMisplaced(f: FileModel, bs: BlockSize, rest: Buffer)
    ensures Misplaces(f, bs, rest) <==>
            TailBehindHole(|f.data|, f.sparse, bs) && !ZeroIn(bs, |f.data|, rest.Bytes(), BlockOf(|f.data|, bs))
  {
    hide BlockOf, OffsetOf, TailBehindHole, FirstPart, Covers, Touches;
    var size, n, d := |f.data|, FirstPart(|f.data|, bs, rest), rest.Bytes();
    if rest.Len() == 0 {
      NothingIsZero(rest.Take(n));
    } else {
      forall p: nat | size <= p < size + |d| ensures BlockOf(p, bs) == BlockOf(size, bs) <==> p < size + n {
        PartBlocks(bs, size, rest, p);
      }
      FirstBlockWritten(bs, size + |d|, size, d, n);
      assert rest.Take(n).Bytes() == d[..n];
    }
  }

  /** A write of any range gives the old data with the range replaced exactly if it is harmless. */
  lemma WriteExact(m: FileModel, bs: BlockSize, noSparse: bool, offset: nat, data: Buffer)
    requires HolesFit(m, bs) && SparseReadsZero(m, bs)
    ensures FileWritten(m, bs, noSparse, offset, data).data == Overwritten(m.data, offset, data.Bytes()) <==>
            WriteHarmless(m, bs, noSparse, offset, data.Bytes())
  {
    hide HolesFit, SparseReadsZero, WriteSafe, BlockOf, OffsetOf, BlockCount, Written, Appended, TailBehindHole;
    if data.Len() > 0 {
      WriteSafeExact(m, bs, noSparse, offset, data);
      SafeExact(m, bs, noSparse, offset, data);
    }
  }

  /* Files without holes stay so with the flag set, and no write does them any harm. */

  lemma {:induction false} AppendNoHoles(m: FileModel, bs: BlockSize, data: Buffer)
    requires m.sparse == {}
    ensures Appended(m, bs, true, data).sparse == {}
    decreases data.Len()
  {
    hide BlockOf, OffsetOf, FirstPart, IsZero;
    if data.Len() > 0 {
      var n := FirstPart(|m.data|, bs, data);
      AppendNoHoles(AppendPart(m, bs, true, data.Take(n)), bs, data.Drop(n));
    }
  }

  lemma {:induction false} WriteNoHoles(m: FileModel, bs: BlockSize, offset: nat, data: Buffer)
    requires m.sparse == {} && offset + data.Len() <= |m.data|
    ensures Written(m, bs, true, offset, data).sparse == {}
    decreases data.Len()
  {
    hide BlockOf, OffsetOf, FirstPart, IsZero, CoversBlock, Splice;
    if data.Len() > 0 {
      var n := FirstPart(offset, bs, data);
      WriteNoHoles(WritePart(m, bs, true, offset, data.Take(n)), bs, offset + n, data.Drop(n));
    }
  }

  lemma FilledNoHoles(m: FileModel, bs: BlockSize, offset: nat)
    requires m.sparse == {}
    ensures Filled(m, bs, true, offset).sparse == {}
  {
    hide Appended;
    if offset > |m.data| {
      AppendNoHoles(m, bs, Null(offset - |m.data|));
    }
  }

  lemma FileWrittenNoHoles(m: FileModel, bs: BlockSize, offset: nat, data: Buffer)
    requires m.sparse == {}
    ensures FileWritten(m, bs, true, offset, data).sparse == {}
    ensures WriteHarmless(m, bs, true, offset, data.Bytes())
  {
    hide Appended, Written, Filled;
    FilledNoHoles(m, bs, offset);
    if data.Len() > 0 {
      var f := Filled(m, bs, true, offset);
      var inside: nat := if data.Len() > |f.data| - offset then |f.data| - offset else data.Len();
      AppendNoHoles(f, bs, data.Drop(inside));
      var g := if data.Len() > inside then Appended(f, bs, true, data.Drop(inside)) else f;
      WriteNoHoles(g, bs, offset, data.Take(inside));
    }
  }
}
