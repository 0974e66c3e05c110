/** The packed file tree on its volume: the operations of the source on files, hole lists and blocks. */
module FsTree {
  import opened Bytes
  import opened Volumes
  import opened Holes
  import opened Ranks
  import opened Accounting
  import opened FileNodes
  import opened Layout
  import opened Steps
  import opened Moves
  import opened Models
  import opened AppendSteps
  import opened WriteSteps

  ghost function Values(fs: seq<FileNode>): (r: seq<File>)
    reads fs
    ensures |r| == |fs| && forall i | 0 <= i < |fs| :: r[i] == fs[i].Value()
  {
    seq(|fs|, i requires 0 <= i < |fs| reads fs => fs[i].Value())
  }

  /** The hole lists of the files, as they are. */
  ghost function Lists(fs: seq<FileNode>): (r: seq<seq<Hole>>)
    reads fs
    ensures |r| == |fs| && forall i | 0 <= i < |fs| :: r[i] == fs[i].sparse
  {
    seq(|fs|, i requires 0 <= i < |fs| reads fs => fs[i].sparse)
  }

  /** The list holds different files with canonical hole lists. */
  ghost predicate Shaped(fs: seq<FileNode>)
    reads fs
  {
    && (forall i, j | 0 <= i < |fs| && 0 <= j < |fs| && i != j :: fs[i] != fs[j])
    && (forall i | 0 <= i < |fs| :: Canonical(fs[i].sparse))
  }

  /** The position of a file in the list of files. */
  ghost function Pos(fs: seq<FileNode>, n: FileNode): (i: nat)
    requires n in fs
    ensures i < |fs| && fs[i] == n
  {
    var i :| 0 <= i < |fs| && fs[i] == n;
    i
  }

  lemma PosAt(fs: seq<FileNode>, i: nat)
    requires Shaped(fs) && i < |fs|
    ensures Pos(fs, fs[i]) == i
  {
    hide Canonical;
  }

  class FsTree {
    const volume: Volume
    var files: seq<FileNode>
    var dataOffset: nat
    var noSparse: bool

    constructor (vol: Volume)
      requires forall b: nat :: Blk(vol.store, vol.blocksize, b) == Zeros(vol.blocksize)
      ensures Valid() && volume == vol && files == [] && dataOffset == 0 && !noSparse
      ensures Slack(Snap()) == 0
    {
      volume, files, dataOffset, noSparse := vol, [], 0, false;
    }

    ghost function Snap(): State
      reads this, volume, files
    {
      State(volume.blocksize, volume.store, dataOffset, Values(files))
    }

    ghost predicate Valid()
      reads this, volume, files
    {
      Shaped(files) && Ok(Snap())
    }

    /** What a file of the tree contains. */
    ghost function ContentsOf(n: FileNode): seq<byte>
      reads this, volume, n
    {
      Contents(volume.store, volume.blocksize, n.Value())
    }

    method AddFile() returns (n: FileNode)
      requires Valid()
      modifies this`files
      ensures Valid() && fresh(n) && files == [n] + old(files) && ContentsOf(n) == []
      ensures forall m | m in old(files) :: ContentsOf(m) == old(ContentsOf(m))
      ensures Snap() == old(Snap()).(files := [File(0, 0, {})] + old(Snap()).files)
      ensures Slack(Snap()) == old(Slack(Snap()))
    {
      hide Ok, Slack, Canonical, HoleSet, FileBlock, FileByte;
      ghost var s := Snap();
      n := new FileNode();
      files := [n] + files;
      assert Snap() == s.(files := [File(0, 0, {})] + s.files);
      FileAdded(s, Snap());
      assert ContentsOf(n) == FileContents(Snap(), 0);
    }

    /* file_accounting.c */

    method FileSparseBytes(n: FileNode) returns (count: nat)
      requires Canonical(n.sparse)
      ensures count == BytesIn(HoleSet(n.sparse), volume.blocksize, n.size)
    {
      hide HoleSet, Canonical, BytesIn;
      count := 0;
      var bs := volume.blocksize;
      ghost var hs := n.sparse;
      BytesInNone(bs, n.size);
      NoHoles();
      assert hs[..0] == [];
      var k := 0;
      while k < |n.sparse|
        invariant 0 <= k <= |hs|
        invariant count == BytesIn(HoleSet(hs[..k]), bs, n.size)
      {
        var start, length := n.sparse[k].index * bs, n.sparse[k].count * bs;
        ghost var h := hs[k];
        SparseBytesStep(hs, k, bs, n.size, start, length);
        k := k + 1;
        if start >= n.size {
          continue;
        }
        if length > n.size - start {
          length := n.size - start;
        }
        count := count + length;
      }
      assert hs[..k] == hs;
    }

    method FilePhysicalSize(n: FileNode) returns (size: nat)
      requires Canonical(n.sparse)
      ensures size == StoredBytes(HoleSet(n.sparse), volume.blocksize, n.size)
    {
      var sparse := FileSparseBytes(n);
      StoredOrSparse(HoleSet(n.sparse), volume.blocksize, n.size);
      size := if sparse >= n.size then 0 else n.size - sparse;
    }

    /** The physical size in blocks, as every user of it rounds it up. */
    method FileBlockCount(n: FileNode) returns (phys: nat, count: nat)
      requires Canonical(n.sparse)
      ensures count == StoredCount(n.Value(), volume.blocksize) && (phys == 0 <==> count == 0)
      ensures phys % volume.blocksize == if BlockOf(n.size, volume.blocksize) in HoleSet(n.sparse) then 0
                                         else OffsetOf(n.size, volume.blocksize)
    {
      phys := FilePhysicalSize(n);
      StoredBlocks(HoleSet(n.sparse), volume.blocksize, n.size);
      DivMod(phys, volume.blocksize);
      count := phys / volume.blocksize;
      if phys % volume.blocksize != 0 {
        count := count + 1;
      }
    }

    /* file_move_to_end.c */

    /** The accounting part of the move: every file with blocks at `src` or behind starts `blkCount` earlier. */
    method UpdateStartsAfterMove(src: nat, blkCount: nat)
      requires Shaped(files)
      requires forall m | m in files && StoredCount(m.Value(), volume.blocksize) > 0 && m.startIndex >= src ::
                 m.startIndex >= blkCount
      modifies files
      ensures Shaped(files)
      ensures Lists(files) == old(Lists(files))
      ensures forall j | 0 <= j < |files| ::
                Values(files)[j] ==
                old(Values(files)[j].(start := StartMoved(Values(files)[j], volume.blocksize, src, blkCount)))
    {
      hide Canonical, HoleSet, StoredCount;
      var k := 0;
      while k < |files|
        invariant 0 <= k <= |files| && Shaped(files)
        invariant forall m | m in files :: m.size == old(m.size) && m.sparse == old(m.sparse)
        invariant forall j | 0 <= j < k ::
                    files[j].startIndex == old(StartMoved(files[j].Value(), volume.blocksize, src, blkCount))
        invariant forall j | k <= j < |files| :: files[j].startIndex == old(files[j].startIndex)
      {
        var fit := files[k];
        var phys, _ := FileBlockCount(fit);
        if phys != 0 {
          if fit.startIndex >= src {
            fit.startIndex := fit.startIndex - blkCount;
          }
        }
        k := k + 1;
      }
    }

    /** The data part of the move. */
    method RotateBlocks(src: nat, blkCount: nat)
      requires src + blkCount <= dataOffset && FreeIsZero(volume.store, volume.blocksize, dataOffset)
      modifies volume
      ensures Rotated(old(volume.store), volume.store, volume.blocksize, src, blkCount, dataOffset)
    {
      ghost var d0 := volume.store;
      MemmoveBlocks(volume, dataOffset, src, blkCount);
      ghost var d1 := volume.store;
      MemmoveBlocks(volume, src, src + blkCount, dataOffset - src);
      ghost var d2 := volume.store;
      volume.DiscardBlocks(dataOffset, blkCount);
      RotatedByMoves(d0, d1, d2, volume.store, volume.blocksize, src, blkCount, dataOffset);
    }

    /** The move of a file that has blocks and does not lie last. */
    method MoveOut(n: FileNode, blkCount: nat)
      requires Valid() && n in files && blkCount == StoredCount(n.Value(), volume.blocksize) > 0
      requires n.startIndex + blkCount <= dataOffset
      modifies volume, files
      ensures Valid() && Lists(files) == old(Lists(files))
      ensures Relocated(old(Snap()), Snap(), Pos(files, n))
    {
      hide Values, Lists, Ok, Kept, Relocated, MovedToEnd, StartMoved, StartAfterMove, Canonical, HoleSet, StoredCount,
        Contents, FileContents, Padded, Rotated, FreeIsZero, HolesInside, Disjoint, Below, AtEnd, Slack;
      ghost var s, i := Snap(), Pos(files, n);
      OkParts(s, i);
      var src := n.startIndex;
      RotateBlocks(src, blkCount);
      n.startIndex := dataOffset;
      ghost var mid := Snap();
      assert mid == State(s.bs, mid.disk, s.off, s.files[i := s.files[i].(start := s.off)]);
      StartsClear(mid, i, src, blkCount, s);
      UpdateStartsAfterMove(src, blkCount);
      MoveSteps(s, mid, Snap(), i, blkCount);
    }

    /** Moves the file's blocks to the end of the used region; no file's contents change. */
    method MoveToEnd(n: FileNode)
      requires Valid() && n in files
      modifies volume, files
      ensures Valid() && Lists(files) == old(Lists(files))
      ensures Relocated(old(Snap()), Snap(), Pos(files, n))
    {
      hide Values, Lists, Ok, Kept, Relocated, MovedToEnd, StartMoved, StartAfterMove, Canonical, HoleSet, StoredCount,
        Contents, FileContents, Padded, Rotated, FreeIsZero, HolesInside, Disjoint, Below, AtEnd, Slack;
      ghost var s, i := Snap(), Pos(files, n);
      OkParts(s, i);
      var phys, blkCount := FileBlockCount(n);
      if phys == 0 {
        n.startIndex := dataOffset;
        assert Snap() == s.(files := s.files[i := s.files[i].(start := s.off)]);
        RestartEmpty(s, Snap(), i);
        return;
      }
      if blkCount >= dataOffset - n.startIndex {
        StaysLast(s, i);
        return;
      }
      MoveOut(n, blkCount);
    }

    /* file_read.c */

    /** The hole that block `index` lies in, if any, and where the block would be stored but for that hole. */
    method SeekBlock(n: FileNode, index: nat) returns (k: nat, start: nat)
      requires Canonical(n.sparse)
      ensures k <= |n.sparse| && (k < |n.sparse| <==> index in HoleSet(n.sparse))
      ensures k < |n.sparse| ==>
                && n.sparse[k].Has(index)
                && start - (index - n.sparse[k].index) == n.startIndex + Rank(HoleSet(n.sparse), index)
      ensures k == |n.sparse| ==> start == n.startIndex + Rank(HoleSet(n.sparse), index)
    {
      hide Canonical, HoleSet, Rank;
      ghost var hs := n.sparse;
      start := n.startIndex + index;
      k := 0;
      while k < |n.sparse|
        invariant 0 <= k <= |hs|
        invariant forall j | 0 <= j < k :: !hs[j].Has(index)
        invariant start == n.startIndex + index - CountsBelow(hs[..k], index)
      {
        var it := n.sparse[k];
        CountsFit(hs, k, index);
        if index >= it.index && index - it.index < it.count {
          RankInHole(hs, k, index);
          return;
        }
        if it.index < index {
          start := start - it.count;
        }
        k := k + 1;
      }
      assert hs[..k] == hs;
      RankFound(hs, index);
    }

    method ReadFilePart(n: FileNode, index: nat, offset: nat, size: nat) returns (data: seq<byte>)
      requires Canonical(n.sparse) && offset + size <= volume.blocksize
      ensures data == FileBlock(volume.store, volume.blocksize, n.Value(), index)[offset..offset + size]
    {
      hide Canonical, HoleSet, Rank, Blk;
      var k, start := SeekBlock(n, index);
      if k < |n.sparse| {
        data := Zeros(size);
        assert data == Zeros(volume.blocksize)[offset..offset + size];
      } else if offset == 0 && size == volume.blocksize {
        data := volume.ReadBlock(start);
      } else {
        data := volume.ReadPartialBlock(start, offset, size);
      }
    }

    /** Reads any range of a file; what lies behind its end reads as zeros. */
    method FileRead(n: FileNode, offset: nat, size: nat) returns (data: seq<byte>)
      requires Canonical(n.sparse)
      ensures |data| == size && Shows(ContentView(ContentsOf(n)), offset, data)
    {
      hide Canonical, HoleSet, FileBlock, FileByte, Contents, AtByte, Shows, ContentView;
      ghost var v := ContentView(ContentsOf(n));
      data := [];
      ShowsNothing(v, offset);
      if size == 0 {
        return;
      }
      if offset >= n.size {
        data := Zeros(size);
        ShowsBehind(ContentsOf(n), offset, size);
        return;
      }
      var available, left := n.size - offset, size;
      if left > available {
        left := available;
      }
      var bs, rest := volume.blocksize, size - left;
      FirstBlock(bs, offset);
      var blkIndex: nat, blkOffset: nat := offset / bs, offset % bs;
      var blkSize: nat := bs - blkOffset;
      blkSize := if blkSize > left then left else blkSize;
      ghost var pos: nat, end := offset, offset + left;
      while left > 0
        invariant 0 <= blkOffset < bs && 0 <= left && pos == end - left == offset + |data|
        invariant blkSize == if bs - blkOffset > left then left else bs - blkOffset
        invariant left > 0 ==> AtByte(bs, blkIndex, blkOffset, pos)
        invariant Shows(v, offset, data)
      {
        var chunk := ReadFilePart(n, blkIndex, blkOffset, blkSize);
        FileShows(volume.store, bs, n.Value(), blkIndex, blkOffset, blkSize, pos);
        ShowFrontThenRest(v, offset, data, pos, chunk);
        NextBlock(bs, blkIndex, blkOffset, pos);
        left, data, pos := left - blkSize, data + chunk, pos + blkSize;
        blkIndex, blkOffset := blkIndex + 1, 0;
        blkSize := bs;
        blkSize := if blkSize > left then left else blkSize;
      }
      if rest > 0 {
        ShowsBehind(ContentsOf(n), end, rest);
        ShowFrontThenRest(v, offset, data, end, Zeros(rest));
        data := data + Zeros(rest);
      }
    }

    /* file_append.c */

    /**
     * The first hole that is not wholly before block `tailIndex - 1`, and where the block would be stored if there is
     * none.
     */
    method SeekTail(n: FileNode, tailIndex: nat) returns (k: nat, realIndex: nat)
      requires Canonical(n.sparse)
      ensures k <= |n.sparse| && (k < |n.sparse| ==> n.sparse[k].End() >= tailIndex)
      ensures forall j | 0 <= j < k :: n.sparse[j].End() < tailIndex
      ensures realIndex == n.startIndex + tailIndex - CountsBelow(n.sparse[..k], tailIndex)
    {
      hide Canonical, HoleSet;
      ghost var hs := n.sparse;
      realIndex := n.startIndex + tailIndex;
      k := 0;
      while k < |n.sparse| && n.sparse[k].count < tailIndex - n.sparse[k].index
        invariant 0 <= k <= |hs|
        invariant forall j | 0 <= j < k :: hs[j].End() < tailIndex
        invariant realIndex == n.startIndex + tailIndex - CountsBelow(hs[..k], tailIndex)
      {
        CountsFit(hs, k, tailIndex);
        realIndex := realIndex - n.sparse[k].count;
        k := k + 1;
      }
    }

    /** Writes the first free block: zeros, then the data. */
    method WriteFresh(tailSize: nat, data: Buffer)
      requires tailSize + data.Len() <= volume.blocksize && FreeIsZero(volume.store, volume.blocksize, dataOffset)
      modifies volume
      ensures BlockSet(old(volume.store), volume.store, volume.blocksize, dataOffset,
                       Zeros(tailSize) + data.Bytes() + Zeros(volume.blocksize - tailSize - data.Len()))
    {
      ghost var d0 := volume.store;
      volume.WritePartialBlock(dataOffset, Null(tailSize), 0);
      ghost var d1 := volume.store;
      volume.WritePartialBlock(dataOffset, data, tailSize);
      NewTailBlock(d0, d1, volume.store, volume.blocksize, dataOffset, tailSize, data);
    }

    /** The tail gets a block of its own at the end of the volume: hole `k` gives up its last block. */
    method AppendNewTail(n: FileNode, k: nat, tailSize: nat, data: Buffer)
      requires Valid() && n in files && tailSize == OffsetOf(n.size, volume.blocksize) > 0
      requires 0 < data.Len() && tailSize + data.Len() <= volume.blocksize && !data.ReadsZero()
      requires k < |n.sparse| && n.sparse[k].count > 0
      requires var q := BlockOf(n.size, volume.blocksize);
               if q in HoleSet(n.sparse) then n.sparse[k].End() == q + 1
               else n.sparse[k].End() == q && TailBehindHole(n.size, HoleSet(n.sparse), volume.blocksize)
      modifies this`dataOffset, volume, files
      ensures Shaped(files) && PartAppended(old(Snap()), Snap(), Pos(files, n), noSparse, data)
    {
      hide Values, Lists, Ok, Kept, Relocated, PartAppended, Canonical, HoleSet, StoredCount, Contents, FileContents,
        Padded, FreeIsZero, HolesInside, Disjoint, Below, AtEnd, Slack, BlockOf, OffsetOf, Rank, Blk, TailBehindHole,
        BlockCount, IsZero, Splice;
      ghost var s, i, hs := Snap(), Pos(files, n), n.sparse;
      MoveToEnd(n);
      ghost var r := Snap();
      RelocatedFile(s, r, i);
      WriteFresh(tailSize, data);
      dataOffset := dataOffset + 1;
      n.ShrinkHole(k);
      PartIntoNewTail(s, r, Snap(), i, noSparse, data, hs[k].End() - 1);
    }

    method WriteLastBlock(data: Buffer)
      requires 0 < data.Len() <= volume.blocksize
      modifies volume
      ensures BlockSet(old(volume.store), volume.store, volume.blocksize, dataOffset,
                       data.Bytes() + Zeros(volume.blocksize - data.Len()))
    {
      ghost var d0 := volume.store;
      if data.Len() == volume.blocksize {
        volume.WriteBlock(dataOffset, data);
        assert data.Bytes() + Zeros(0) == data.Bytes();
      } else {
        volume.WritePartialBlock(dataOffset, data, 0);
        ghost var d1 := volume.store;
        var diff := volume.blocksize - data.Len();
        volume.WritePartialBlock(dataOffset, Null(diff), data.Len());
        NewBlock(d0, d1, volume.store, volume.blocksize, dataOffset, data);
      }
    }

    /** Appends a block: the data, and zeros up to the end of the block. */
    method AppendBlock(n: FileNode, data: Buffer)
      requires Valid() && n in files && OffsetOf(n.size, volume.blocksize) == 0
      requires 0 < data.Len() <= volume.blocksize && (noSparse || !data.ReadsZero())
      modifies this`dataOffset, volume, files
      ensures Shaped(files) && PartAppended(old(Snap()), Snap(), Pos(files, n), noSparse, data)
    {
      hide Values, Lists, Ok, Kept, Relocated, PartAppended, Canonical, HoleSet, StoredCount, Contents, FileContents,
        Padded, FreeIsZero, HolesInside, Disjoint, Below, AtEnd, Slack, BlockOf, OffsetOf, Rank, Blk, TailBehindHole,
        BlockCount, IsZero, Splice;
      ghost var s, i := Snap(), Pos(files, n);
      MoveToEnd(n);
      ghost var r := Snap();
      RelocatedFile(s, r, i);
      WriteLastBlock(data);
      dataOffset := dataOffset + 1;
      PartAsBlock(s, r, Snap(), i, noSparse, data);
    }

    /** The body of the append loop, up to the counting. */
    method AppendOnePart(n: FileNode, tailIndex: nat, tailSize: nat, part: Buffer)
      requires Valid() && n in files
      requires tailIndex == BlockOf(n.size, volume.blocksize) && tailSize == OffsetOf(n.size, volume.blocksize)
      requires 0 < part.Len() && tailSize + part.Len() <= volume.blocksize
      modifies this`dataOffset, volume, files
      ensures Shaped(files) && PartAppended(old(Snap()), Snap(), Pos(files, n), noSparse, part)
    {
      hide Values, Lists, Ok, Kept, PartAppended, Canonical, HoleSet, StoredCount, Contents, FileContents, Padded,
        FreeIsZero, HolesInside, Disjoint, Below, AtEnd, Slack, BlockOf, OffsetOf, Rank, Blk, BlockCount, IsZero,
        Splice;
      ghost var s, i := Snap(), Pos(files, n);
      if tailSize > 0 {
        AppendToTail(n, tailIndex, tailSize, part);
      } else if !noSparse && part.ReadsZero() {
        n.MarkSparse(tailIndex);
        PartAsHole(s, Snap(), i, noSparse, part);
      } else {
        AppendBlock(n, part);
      }
    }

    method CountUp(n: FileNode, diff: nat)
      requires Shaped(files) && n in files
      modifies n`size
      ensures Shaped(files) && n.size == old(n.size) + diff
      ensures Snap() == Grown(old(Snap()), Pos(files, n), diff)
    {
      hide Values, Canonical, HoleSet;
      n.size := n.size + diff;
    }

    /** Appends data, or zeros, part by part: the tail block first, then block after block. */
    method FileAppend(n: FileNode, data: Buffer)
      requires Valid() && n in files
      modifies this`dataOffset, volume, files
      ensures Valid() && Kept(old(Snap()), Snap(), Pos(files, n))
      ensures ModelOf(Snap(), Pos(files, n)) ==
              Appended(old(ModelOf(Snap(), Pos(files, n))), volume.blocksize, noSparse, data)
    {
      hide Values, Lists, Ok, Kept, PartAppended, Canonical, HoleSet, StoredCount, Contents, FileContents, Padded,
        FreeIsZero, HolesInside, Disjoint, Below, AtEnd, Slack, BlockOf, OffsetOf, Rank, Blk, TailBehindHole,
        BlockCount, IsZero, Splice, Appended, AppendPart, ModelOf, Shaped;
      ghost var s, i := Snap(), Pos(files, n);
      DivMod(n.size, volume.blocksize);
      var tailIndex: nat, tailSize: nat, rest := n.size / volume.blocksize, n.size % volume.blocksize, data;
      KeptNothing(s, i);
      while rest.Len() > 0
        invariant Shaped(files) && Kept(s, Snap(), i)
        invariant Appended(ModelOf(s, i), s.bs, noSparse, data) == Appended(ModelOf(Snap(), i), s.bs, noSparse, rest)
        invariant rest.Len() > 0 ==> tailIndex == BlockOf(n.size, s.bs) && tailSize == OffsetOf(n.size, s.bs)
        decreases rest.Len()
      {
        ghost var r := Snap();
        KeptOk(s, r, i);
        var diff := volume.blocksize - tailSize;
        diff := if diff > rest.Len() then rest.Len() else diff;
        var part := rest.Take(diff);
        AppendOnePart(n, tailIndex, tailSize, part);
        ghost var t := Snap();
        CountUp(n, diff);
        AppendRound(s, r, t, Snap(), i, noSparse, rest, diff);
        tailIndex, tailSize, rest := tailIndex + 1, 0, rest.Drop(diff);
      }
      KeptOk(s, Snap(), i);
      AppendedNone(ModelOf(Snap(), i), s.bs, noSparse, rest);
    }

    /** Appends inside the tail block: in place if it is stored, else in a new block at the end of the volume. */
    method AppendToTail(n: FileNode, tailIndex: nat, tailSize: nat, data: Buffer)
      requires Valid() && n in files
      requires tailIndex == BlockOf(n.size, volume.blocksize) && tailSize == OffsetOf(n.size, volume.blocksize) > 0
      requires 0 < data.Len() && tailSize + data.Len() <= volume.blocksize
      modifies this`dataOffset, volume, files
      ensures Shaped(files) && PartAppended(old(Snap()), Snap(), Pos(files, n), noSparse, data)
    {
      hide Values, Lists, Ok, Kept, Relocated, PartAppended, Canonical, HoleSet, StoredCount, Contents, FileContents,
        Padded, FreeIsZero, HolesInside, Disjoint, Below, AtEnd, Slack, BlockOf, OffsetOf, Rank, Blk, TailBehindHole,
        BlockCount, IsZero;
      ghost var s, i, hs := Snap(), Pos(files, n), n.sparse;
      OkParts(s, i);
      var k, realIndex := SeekTail(n, tailIndex);
      if k < |n.sparse| {
        if data.ReadsZero() {
          PartIntoZeros(s, i, noSparse, data);
          return;
        }
        TailHole(hs, k, n.size, volume.blocksize);
        AppendNewTail(n, k, tailSize, data);
      } else {
        TailFound(hs, n.size, volume.blocksize);
        volume.WritePartialBlock(realIndex, data, tailSize);
        PartIntoTail(s, Snap(), i, noSparse, data);
      }
    }

    /* file_write.c */

    /** Puts in a zero block at `realIndex` for the sparse block `index` of the last file. */
    method InsertSparseBlock(n: FileNode, realIndex: nat, index: nat)
      requires Shaped(files) && n in files && realIndex <= dataOffset
      requires FreeIsZero(volume.store, volume.blocksize, dataOffset)
      modifies this`dataOffset, volume, n`sparse
      ensures Shaped(files) && dataOffset == old(dataOffset) + 1
      ensures Opened(old(volume.store), volume.store, volume.blocksize, realIndex)
      ensures Values(files) == old(Values(files)[Pos(files, n) := n.Value().(sparse := HoleSet(n.sparse) - {index})])
    {
      hide Values, Canonical, HoleSet, FreeIsZero, Opened, BlocksCopied, Blk;
      ghost var d0 := volume.store;
      MemmoveBlocks(volume, realIndex + 1, realIndex, dataOffset - realIndex);
      ghost var d1 := volume.store;
      dataOffset := dataOffset + 1;
      n.MarkNotSparse(index);
      volume.DiscardBlocks(realIndex, 1);
      OpenedByMove(d0, d1, volume.store, volume.blocksize, realIndex, old(dataOffset));
    }

    /** Takes out the block at `realIndex`, which is the stored block `index` of the last file. */
    method RemoveFileBlock(n: FileNode, realIndex: nat, index: nat)
      requires Shaped(files) && n in files && realIndex < dataOffset
      requires FreeIsZero(volume.store, volume.blocksize, dataOffset)
      modifies this`dataOffset, volume, n`sparse
      ensures Shaped(files) && dataOffset == old(dataOffset) - 1
      ensures Closed(old(volume.store), volume.store, volume.blocksize, realIndex, old(dataOffset))
      ensures Values(files) == old(Values(files)[Pos(files, n) := n.Value().(sparse := HoleSet(n.sparse) + {index})])
    {
      hide Values, Canonical, HoleSet, FreeIsZero, Closed, BlocksCopied, Blk;
      ghost var d0 := volume.store;
      var size := dataOffset - realIndex - 1;
      MemmoveBlocks(volume, realIndex, realIndex + 1, size);
      ghost var d1 := volume.store;
      dataOffset := dataOffset - 1;
      n.MarkSparse(index);
      volume.DiscardBlocks(dataOffset, 1);
      ClosedByMove(d0, d1, volume.store, volume.blocksize, realIndex, old(dataOffset));
    }

    /** Writes a stored block, as a whole or in part. */
    method WriteStored(start: nat, data: Buffer, offset: nat)
      requires offset + data.Len() <= volume.blocksize
      modifies volume
      ensures BlockSet(old(volume.store), volume.store, volume.blocksize, start,
                       Splice(Blk(old(volume.store), volume.blocksize, start), offset, data.Bytes()))
    {
      hide Blk;
      if offset == 0 && data.Len() == volume.blocksize {
        assert Splice(Blk(volume.store, volume.blocksize, start), offset, data.Bytes()) == data.Bytes();
        volume.WriteBlock(start, data);
      } else {
        volume.WritePartialBlock(start, data, offset);
      }
    }

    /** Data for a sparse block: the file moves to the end, hole `k` gives up the block, the block is written. */
    method WriteIntoHole(n: FileNode, index: nat, data: Buffer, offset: nat, k: nat, start: nat, ghost pos: nat)
      requires Valid() && n in files && PartFits(Snap(), Pos(files, n), pos, data) && !data.ReadsZero()
      requires index == BlockOf(pos, volume.blocksize) && offset == OffsetOf(pos, volume.blocksize)
      requires index in HoleSet(n.sparse) && k < |n.sparse| && n.sparse[k].Has(index) && n.startIndex <= start
      requires start - (index - n.sparse[k].index) == n.startIndex + Rank(HoleSet(n.sparse), index)
      modifies this`dataOffset, volume, files
      ensures Shaped(files) && Values(files)[Pos(files, n)].size == old(n.size)
      ensures PartWritten(old(Snap()), Snap(), Pos(files, n), noSparse, pos, data)
    {
      hide Values, Lists, Shaped, Ok, Kept, Relocated, PartWritten, Canonical, HoleSet, StoredCount, Contents,
        FileContents, Padded, FreeIsZero, HolesInside, Disjoint, Below, AtEnd, Slack, BlockOf, OffsetOf, Rank, Blk,
        BlockCount, IsZero, Splice, Opened, BlockSet, AtByte;
      ghost var s, i := Snap(), Pos(files, n);
      PartPlace(s, i, pos, data);
      var rel := start - n.startIndex;
      MoveToEnd(n);
      ghost var r := Snap();
      RelocatedPlace(s, r, i, index);
      var at := rel + n.startIndex - (index - n.sparse[k].index);
      InsertSparseBlock(n, at, index);
      ghost var u := Snap();
      WriteStored(at, data, offset);
      DataIntoHole(s, r, u, Snap(), i, noSparse, pos, data);
    }

    /** Zeros over all of a stored block: the file moves to the end, the block is taken out and made sparse. */
    method WriteHole(n: FileNode, index: nat, data: Buffer, start: nat, ghost pos: nat)
      requires Valid() && n in files && PartFits(Snap(), Pos(files, n), pos, data) && data.ReadsZero() && !noSparse
      requires index == BlockOf(pos, volume.blocksize) && index !in HoleSet(n.sparse)
      requires CoversBlock(n.size, volume.blocksize, index, OffsetOf(pos, volume.blocksize), data.Len())
      requires start == n.startIndex + Rank(HoleSet(n.sparse), index)
      modifies this`dataOffset, volume, files
      ensures Shaped(files) && Values(files)[Pos(files, n)].size == old(n.size)
      ensures PartWritten(old(Snap()), Snap(), Pos(files, n), noSparse, pos, data)
    {
      hide Values, Lists, Shaped, Ok, Kept, Relocated, PartWritten, Canonical, HoleSet, StoredCount, Contents,
        FileContents, Padded, FreeIsZero, HolesInside, Disjoint, Below, AtEnd, Slack, BlockOf, OffsetOf, Rank, Blk,
        BlockCount, IsZero, Splice, Closed, CoversBlock, AtByte;
      ghost var s, i := Snap(), Pos(files, n);
      PartPlace(s, i, pos, data);
      var rel := start - n.startIndex;
      MoveToEnd(n);
      ghost var r := Snap();
      RelocatedPlace(s, r, i, index);
      RemoveFileBlock(n, rel + n.startIndex, index);
      ZerosOverBlock(s, r, Snap(), i, noSparse, pos, data);
    }

    /** Writes the part of a range that lies in one block of the file. */
    method WriteFilePart(n: FileNode, index: nat, data: Buffer, offset: nat, ghost pos: nat)
      requires Valid() && n in files && PartFits(Snap(), Pos(files, n), pos, data)
      requires index == BlockOf(pos, volume.blocksize) && offset == OffsetOf(pos, volume.blocksize)
      modifies this`dataOffset, volume, files
      ensures Shaped(files) && n.size == old(n.size)
      ensures PartWritten(old(Snap()), Snap(), Pos(files, n), noSparse, pos, data)
    {
      hide Values, Lists, Ok, Kept, PartWritten, Canonical, HoleSet, StoredCount, Contents, FileContents, Padded,
        FreeIsZero, HolesInside, Disjoint, Below, AtEnd, Slack, BlockOf, OffsetOf, Rank, Blk, BlockCount, IsZero,
        Splice, BlockSet, AtByte;
      ghost var s, i := Snap(), Pos(files, n);
      var k, start := SeekBlock(n, index);
      if k < |n.sparse| {
        if data.ReadsZero() {
          ZerosIntoHole(s, i, noSparse, pos, data);
          return;
        }
        WriteIntoHole(n, index, data, offset, k, start, pos);
        return;
      }
      DivMod(n.size, volume.blocksize);
      var bs := volume.blocksize;
      if offset == 0 && data.Len() == bs {
        if !noSparse && data.ReadsZero() {
          WriteHole(n, index, data, start, pos);
          return;
        }
      } else if !noSparse && offset == 0 && index == n.size / bs && data.Len() == n.size % bs && data.ReadsZero() {
        WriteHole(n, index, data, start, pos);
        return;
      }
      WriteStored(start, data, offset);
      DataOverBlock(s, Snap(), i, noSparse, pos, data);
    }

    /** The body of the block loop, up to the counting. */
    method WriteNextPart(n: FileNode, index: nat, rest: Buffer, offset: nat, blkSize: nat, ghost pos: nat,
                         ghost s: State)
      requires Shaped(files) && n in files && |s.files| == |files| && s.bs == volume.blocksize
               && Kept(s, Snap(), Pos(files, n))
      requires rest.Len() > 0 && pos + rest.Len() <= n.size && blkSize == FirstPart(pos, volume.blocksize, rest)
      requires index == BlockOf(pos, volume.blocksize) && offset == OffsetOf(pos, volume.blocksize)
      modifies this`dataOffset, volume, files
      ensures Shaped(files) && n.size == old(n.size) && Kept(s, Snap(), Pos(files, n))
      ensures Written(old(ModelOf(Snap(), Pos(files, n))), s.bs, noSparse, pos, rest) ==
              Written(ModelOf(Snap(), Pos(files, n)), s.bs, noSparse, pos + blkSize, rest.Drop(blkSize))
      ensures rest.Len() > blkSize ==> index + 1 == BlockOf(pos + blkSize, s.bs) && OffsetOf(pos + blkSize, s.bs) == 0
    {
      hide Values, Lists, Shaped, Ok, Kept, PartWritten, Canonical, HoleSet, StoredCount, Contents, FileContents,
        Padded, FreeIsZero, HolesInside, Disjoint, Below, AtEnd, Slack, BlockOf, OffsetOf, Rank, Blk, BlockCount,
        IsZero, AtByte, Splice, Written, WritePart, ModelOf, CoversBlock;
      ghost var r, i := Snap(), Pos(files, n);
      KeptOk(s, r, i);
      WriteFilePart(n, index, rest.Take(blkSize), offset, pos);
      WriteRound(s, r, Snap(), i, noSparse, pos, rest, blkSize);
    }

    /** The block loop of a write: the range lies inside the file. */
    method WriteInside(n: FileNode, offset: nat, data: Buffer)
      requires Valid() && n in files && offset + data.Len() <= n.size
      modifies this`dataOffset, volume, files
      ensures Valid() && n.size == old(n.size) && Kept(old(Snap()), Snap(), Pos(files, n))
      ensures ModelOf(Snap(), Pos(files, n)) ==
              Written(old(ModelOf(Snap(), Pos(files, n))), volume.blocksize, noSparse, offset, data)
    {
      hide Values, Lists, Shaped, Ok, Kept, PartWritten, Canonical, HoleSet, StoredCount, Contents, FileContents,
        Padded, FreeIsZero, HolesInside, Disjoint, Below, AtEnd, Slack, BlockOf, OffsetOf, Rank, Blk, BlockCount,
        IsZero, AtByte, Splice, Written, WritePart, ModelOf, CoversBlock;
      ghost var s, i := Snap(), Pos(files, n);
      var bs, rest := volume.blocksize, data;
      FirstBlock(bs, offset);
      DivMod(offset, bs);
      var blkIndex: nat, blkOffset: nat := offset / bs, offset % bs;
      var blkSize: nat := bs - blkOffset;
      blkSize := if blkSize > rest.Len() then rest.Len() else blkSize;
      ghost var pos: nat := offset;
      KeptNothing(s, i);
      while rest.Len() > 0
        invariant Shaped(files) && Kept(s, Snap(), i) && n.size == s.files[i].size && pos + rest.Len() <= n.size
        invariant Written(ModelOf(s, i), bs, noSparse, offset, data) ==
                  Written(ModelOf(Snap(), i), bs, noSparse, pos, rest)
        invariant blkSize == (if bs - blkOffset > rest.Len() then rest.Len() else bs - blkOffset) && blkOffset < bs
        invariant rest.Len() > 0 ==> blkIndex == BlockOf(pos, bs) && blkOffset == OffsetOf(pos, bs)
        decreases rest.Len()
      {
        WriteNextPart(n, blkIndex, rest, blkOffset, blkSize, pos, s);
        rest, pos := rest.Drop(blkSize), pos + blkSize;
        blkIndex, blkOffset := blkIndex + 1, 0;
        blkSize := bs;
        blkSize := if blkSize > rest.Len() then rest.Len() else blkSize;
      }
      KeptOk(s, Snap(), i);
      WrittenNone(ModelOf(Snap(), i), bs, noSparse, pos, rest);
    }

    /** Fills up with zeros to `offset`, if that lies behind the end. */
    method FillUp(n: FileNode, offset: nat)
      requires Valid() && n in files
      modifies this`dataOffset, volume, files
      ensures Valid() && Kept(old(Snap()), Snap(), Pos(files, n))
      ensures ModelOf(Snap(), Pos(files, n)) ==
              Filled(old(ModelOf(Snap(), Pos(files, n))), volume.blocksize, noSparse, offset)
    {
      hide Values, Lists, Shaped, Ok, Kept, Canonical, HoleSet, StoredCount, Contents, FileContents, Padded, FreeIsZero,
        HolesInside, Disjoint, Below, AtEnd, Slack, BlockOf, OffsetOf, Rank, Blk, BlockCount, Appended, ModelOf;
      KeptNothing(Snap(), Pos(files, n));
      if offset > n.size {
        FileAppend(n, Null(offset - n.size));
      }
    }

    /** Appends what the range has behind the end of the file, and gives back the rest. */
    method AppendBehind(n: FileNode, data: Buffer, available: nat) returns (inside: Buffer)
      requires Valid() && n in files
      modifies this`dataOffset, volume, files
      ensures Valid() && Kept(old(Snap()), Snap(), Pos(files, n))
      ensures inside == data.Take(if data.Len() > available then available else data.Len())
      ensures ModelOf(Snap(), Pos(files, n)) ==
              if data.Len() > available
              then Appended(old(ModelOf(Snap(), Pos(files, n))), volume.blocksize, noSparse, data.Drop(available))
              else old(ModelOf(Snap(), Pos(files, n)))
    {
      hide Values, Lists, Shaped, Ok, Kept, Canonical, HoleSet, StoredCount, Contents, FileContents, Padded, FreeIsZero,
        HolesInside, Disjoint, Below, AtEnd, Slack, BlockOf, OffsetOf, Rank, Blk, BlockCount, Appended, ModelOf;
      KeptNothing(Snap(), Pos(files, n));
      assert data.Take(data.Len()) == data;
      inside := data;
      if data.Len() > available {
        FileAppend(n, data.Drop(available));
        inside := data.Take(available);
      }
    }

    /**
     * Writes any range of a file: a gap behind the end is filled with zeros, what reaches past the end is appended,
     * the rest is written block by block. A NULL buffer must not straddle the end of the file.
     */
    method FileWrite(n: FileNode, offset: nat, data: Buffer)
      requires Valid() && n in files
      requires data.Null? ==> offset >= n.size || offset + data.Len() <= n.size
      modifies this`dataOffset, volume, files
      ensures Valid() && Kept(old(Snap()), Snap(), Pos(files, n))
      ensures ModelOf(Snap(), Pos(files, n)) ==
              FileWritten(old(ModelOf(Snap(), Pos(files, n))), volume.blocksize, noSparse, offset, data)
    {
      hide Values, Lists, Shaped, Ok, Kept, Canonical, HoleSet, StoredCount, Contents, FileContents, Padded, FreeIsZero,
        HolesInside, Disjoint, Below, AtEnd, Slack, BlockOf, OffsetOf, Rank, Blk, BlockCount, IsZero, Splice, Written,
        Appended, Filled, ModelOf, FileWritten;
      ghost var s, i := Snap(), Pos(files, n);
      KeptNothing(s, i);
      if data.Len() == 0 {
        NothingWritten(ModelOf(s, i), s.bs, noSparse, offset, data);
        return;
      }
      FillUp(n, offset);
      ghost var r := Snap();
      KeptOk(s, r, i);
      var available := n.size - offset;
      var inside := AppendBehind(n, data, available);
      ghost var t := Snap();
      KeptAfter(s, r, t, i);
      KeptOk(s, t, i);
      WriteInside(n, offset, inside);
      KeptAfter(s, t, Snap(), i);
      WrittenInSteps(ModelOf(s, i), ModelOf(r, i), ModelOf(t, i), s.bs, noSparse, offset, data, inside);
    }

    /* file_truncate.c */

    /** The accounting part of the cut: every file with blocks that starts behind `n` starts `diff` earlier. */
    method UpdateStartsAfterCut(n: FileNode, diff: nat)
      requires Shaped(files) && n in files
      requires forall m | m in files && StoredCount(m.Value(), volume.blocksize) > 0 && m.startIndex > n.startIndex ::
                 m.startIndex >= diff
      modifies files
      ensures Shaped(files)
      ensures forall j | 0 <= j < |files| ::
                Values(files)[j] ==
                old(Values(files)[j].(start := StartAfterCut(Values(files)[j], volume.blocksize, n.startIndex, diff)))
    {
      hide Canonical, HoleSet, StoredCount;
      var k := 0;
      while k < |files|
        invariant 0 <= k <= |files| && Shaped(files) && n.startIndex == old(n.startIndex)
        invariant forall m | m in files :: m.size == old(m.size) && m.sparse == old(m.sparse)
        invariant forall j | 0 <= j < k ::
                    files[j].startIndex == old(StartAfterCut(files[j].Value(), volume.blocksize, n.startIndex, diff))
        invariant forall j | k <= j < |files| :: files[j].startIndex == old(files[j].startIndex)
      {
        var fit := files[k];
        var phys, _ := FileBlockCount(fit);
        if phys != 0 {
          if fit.startIndex > n.startIndex {
            fit.startIndex := fit.startIndex - diff;
          }
        }
        k := k + 1;
      }
    }

    /** The data part of the cut: the blocks from `at + diff` on move down to `at`. */
    method DropBlocks(at: nat, diff: nat)
      requires at + diff <= dataOffset && FreeIsZero(volume.store, volume.blocksize, dataOffset)
      modifies volume
      ensures Dropped(old(volume.store), volume.store, volume.blocksize, at, diff, dataOffset)
    {
      ghost var d0 := volume.store;
      MemmoveBlocks(volume, at, at + diff, dataOffset - (at + diff));
      ghost var d1 := volume.store;
      volume.DiscardBlocks(dataOffset - diff, diff);
      DroppedByMove(d0, d1, volume.store, volume.blocksize, at, diff, dataOffset);
    }

    /** Zeros over what the last block holds behind the end of the file, unless that is a hole. */
    method ClearTail(b: int, tailSize: nat, ghost tail: bool, ghost o: nat)
      requires tailSize == (if tail then o else 0) && (tail ==> 0 < o < volume.blocksize && b >= 0)
      modifies volume
      ensures TailCleared(old(volume.store), volume.store, volume.blocksize, tail, b, o)
    {
      if tailSize > 0 {
        var diff := volume.blocksize - tailSize;
        volume.WritePartialBlock(b, Null(diff), tailSize);
      }
    }

    /** Cuts the file itself: its holes and its size. */
    method CutFile(n: FileNode, size: nat) returns (oldCount: nat, newCount: nat, tailSize: nat)
      requires Shaped(files) && n in files
      modifies n`size, n`sparse
      ensures Shaped(files)
      ensures Values(files) == old(Values(files)[Pos(files, n) := Cut(n.Value(), volume.blocksize, size)])
      ensures oldCount == old(StoredCount(n.Value(), volume.blocksize))
      ensures newCount == old(StoredCount(Cut(n.Value(), volume.blocksize, size), volume.blocksize))
      ensures tailSize ==
              if old(TailStored(n.Value(), volume.blocksize, size)) then OffsetOf(size, volume.blocksize) else 0
    {
      hide Values, Canonical, HoleSet, StoredCount, BlockOf, OffsetOf;
      var oldSize, newSize;
      oldSize, oldCount := FileBlockCount(n);
      DivMod(size, volume.blocksize);
      var count := size / volume.blocksize;
      if size % volume.blocksize != 0 {
        count := count + 1;
      }
      n.TruncateSparse(count);
      n.size := size;
      assert n.Value() == old(Cut(n.Value(), volume.blocksize, size));
      newSize, newCount := FileBlockCount(n);
      tailSize := newSize % volume.blocksize;
    }

    /** Closes the gap that the blocks behind the cut leave, if there are any. */
    method CloseUp(n: FileNode, oldCount: nat, newCount: nat)
      requires Shaped(files) && n in files && newCount <= oldCount
      requires newCount < oldCount ==> n.startIndex + oldCount <= dataOffset
      requires FreeIsZero(volume.store, volume.blocksize, dataOffset)
      requires forall m | m in files && StoredCount(m.Value(), volume.blocksize) > 0 && m.startIndex > n.startIndex ::
                 m.startIndex >= oldCount - newCount
      modifies this`dataOffset, volume, files
      ensures Shaped(files) && dataOffset == old(dataOffset) - (oldCount - newCount)
      ensures Dropped(old(volume.store), volume.store, volume.blocksize, old(n.startIndex) + newCount,
                      oldCount - newCount, old(dataOffset))
      ensures forall j | 0 <= j < |files| ::
                Values(files)[j] ==
                old(Values(files)[j].(start := StartAfterCut(Values(files)[j], volume.blocksize, n.startIndex,
                                                             oldCount - newCount)))
    {
      hide Canonical, HoleSet, StoredCount, FreeIsZero, Dropped;
      if newCount < oldCount {
        var diff := oldCount - newCount;
        DropBlocks(n.startIndex + newCount, diff);
        dataOffset := dataOffset - diff;
        UpdateStartsAfterCut(n, diff);
      } else {
        DroppedNothing(volume.store, volume.blocksize, n.startIndex + newCount, dataOffset);
      }
    }

    /** The cut, up to the clearing of the tail. */
    method CutOut(n: FileNode, size: nat) returns (last: int, tailSize: nat)
      requires Valid() && n in files && size < n.size
      modifies this`dataOffset, volume, files
      ensures Shaped(files) && StartsCut(old(Snap()).files, Snap().files, volume.blocksize, Pos(files, n), size)
      ensures var f, g := old(n.Value()), Cut(old(n.Value()), volume.blocksize, size);
              var k0, k1 := StoredCount(f, volume.blocksize), StoredCount(g, volume.blocksize);
              && k1 <= k0 && dataOffset == old(dataOffset) - (k0 - k1) && last == f.start + k1 - 1
              && Dropped(old(volume.store), volume.store, volume.blocksize, f.start + k1, k0 - k1, old(dataOffset))
              && tailSize == (if TailStored(f, volume.blocksize, size) then OffsetOf(size, volume.blocksize) else 0)
              && (TailStored(f, volume.blocksize, size) ==> last >= 0 && OffsetOf(size, volume.blocksize) > 0)
    {
      hide Values, Lists, Ok, Kept, Canonical, HoleSet, StoredCount, Contents, FileContents, Padded, FreeIsZero,
        HolesInside, Disjoint, Below, AtEnd, Slack, BlockOf, OffsetOf, Rank, Blk, BlockCount, Cut, Dropped, TailCleared,
        TailStored;
      ghost var s, i := Snap(), Pos(files, n);
      CutClear(s, i, size);
      var oldCount, newCount;
      oldCount, newCount, tailSize := CutFile(n, size);
      CloseUp(n, oldCount, newCount);
      assert n.startIndex == Values(files)[i].start == s.files[i].start;
      last := n.startIndex + newCount - 1;
    }

    method FileShrink(n: FileNode, size: nat)
      requires Valid() && n in files && size < n.size
      modifies this`dataOffset, volume, files
      ensures Valid() && Kept(old(Snap()), Snap(), Pos(files, n))
      ensures ModelOf(Snap(), Pos(files, n)) ==
              Resized(old(ModelOf(Snap(), Pos(files, n))), volume.blocksize, noSparse, size)
    {
      hide Values, Lists, Shaped, Ok, Kept, Canonical, HoleSet, StoredCount, Contents, FileContents, Padded, FreeIsZero,
        HolesInside, Disjoint, Below, AtEnd, Slack, BlockOf, OffsetOf, Rank, Blk, BlockCount, Cut, Dropped, TailCleared,
        TailStored, StartsCut, ModelOf, Resized;
      ghost var s, i := Snap(), Pos(files, n);
      var last, tailSize := CutOut(n, size);
      ghost var d := volume.store;
      ClearTail(last, tailSize, TailStored(s.files[i], s.bs, size), OffsetOf(size, s.bs));
      CutSteps(s, d, Snap(), i, noSparse, size);
    }

    /** Sets the size of a file: what is cut off is freed, what is added reads as zeros. */
    method FileTruncate(n: FileNode, size: nat)
      requires Valid() && n in files
      modifies this`dataOffset, volume, files
      ensures Valid() && Kept(old(Snap()), Snap(), Pos(files, n))
      ensures ModelOf(Snap(), Pos(files, n)) ==
              Resized(old(ModelOf(Snap(), Pos(files, n))), volume.blocksize, noSparse, size)
    {
      hide Values, Lists, Shaped, Ok, Kept, Canonical, HoleSet, StoredCount, Contents, FileContents, Padded, FreeIsZero,
        HolesInside, Disjoint, Below, AtEnd, Slack, BlockOf, OffsetOf, Rank, Blk, BlockCount, Appended, ModelOf;
      KeptNothing(Snap(), Pos(files, n));
      if size > n.size {
        FileAppend(n, Null(size - n.size));
        return;
      }
      if size == n.size {
        return;
      }
      FileShrink(n, size);
    }

    /* add_gap.c */

    /**
     * The accounting part of the gap: every file that starts at `index` or behind starts `count` later, with blocks or
     * not.
     */
    method UpdateStartsAfterGap(index: nat, count: nat)
      requires Shaped(files)
      modifies files
      ensures Shaped(files)
      ensures forall j | 0 <= j < |files| ::
                Values(files)[j] ==
                old(Values(files)[j].(start := if Values(files)[j].start >= index then Values(files)[j].start + count
                                               else Values(files)[j].start))
    {
      hide Canonical, HoleSet;
      var k := 0;
      while k < |files|
        invariant 0 <= k <= |files| && Shaped(files)
        invariant forall m | m in files :: m.size == old(m.size) && m.sparse == old(m.sparse)
        invariant forall j | 0 <= j < k ::
                    files[j].startIndex ==
                    old(files[j].startIndex) + if old(files[j].startIndex) >= index then count else 0
        invariant forall j | k <= j < |files| :: files[j].startIndex == old(files[j].startIndex)
      {
        var fit := files[k];
        if fit.startIndex >= index {
          fit.startIndex := fit.startIndex + count;
        }
        k := k + 1;
      }
    }

    /** The work of a gap of whole blocks, wherever it is put. */
    method OpenGap(index: nat, count: nat)
      requires Shaped(files) && FreeIsZero(volume.store, volume.blocksize, dataOffset)
      modifies this`dataOffset, volume, files
      ensures Shaped(files) && Gapped(old(Snap()), Snap(), index, count)
    {
      hide Values, Canonical, HoleSet, FreeIsZero, GapOpened, BlocksCopied;
      ghost var d0, off := volume.store, dataOffset;
      if index < dataOffset {
        MemmoveBlocks(volume, index + count, index, dataOffset - index);
        UpdateStartsAfterGap(index, count);
        dataOffset := dataOffset + count;
      } else {
        dataOffset := index + count;
      }
      ghost var d1 := volume.store;
      volume.DiscardBlocks(index, count);
      GapByMove(d0, d1, volume.store, volume.blocksize, index, count, off);
    }

    /**
     * Makes room for `size` bytes at block `index`. If the place cuts no file in two, all contents stay, and the room
     * is zeroed and belongs to no file. Otherwise see `GapExact`.
     */
    method AddGap(index: nat, size: nat)
      requires Valid()
      modifies this`dataOffset, volume, files
      ensures Shaped(files) && |files| == |old(files)|
      ensures if size == 0 then Snap() == old(Snap())
              else Gapped(old(Snap()), Snap(), index, BlockCount(size, volume.blocksize))
      ensures old(NothingCut(Snap(), index)) ==>
                Valid() && forall j | 0 <= j < |files| :: FileContents(Snap(), j) == old(FileContents(Snap(), j))
    {
      hide Values, Ok, Canonical, HoleSet, Contents, FileContents, Gapped, FreeIsZero, NotInside, BlockOf, OffsetOf,
        StoredCount;
      if size == 0 {
        return;
      }
      ghost var s := Snap();
      OkFree(s);
      var bs := volume.blocksize;
      var whole: nat := size;
      if whole % bs != 0 {
        whole := whole + (bs - whole % bs);
      }
      RoundUp(size, whole, bs);
      var count := whole / bs;
      OpenGap(index, count);
      if NothingCut(s, index) {
        GapKeeps(s, Snap(), index, count);
      }
    }
  }

  /** Moving the blocks behind the cut down over it and discarding what is left over drops them. */
  lemma DroppedByMove(d0: Disk, d1: Disk, d2: Disk, bs: BlockSize, at: nat, n: nat, off: nat)
    requires at + n <= off && FreeIsZero(d0, bs, off) && BlocksCopied(d0, d1, bs, at, at + n, off - (at + n))
    requires forall b: nat :: Blk(d2, bs, b) == if off - n <= b < off - n + n then Zeros(bs) else Blk(d1, bs, b)
    ensures Dropped(d0, d2, bs, at, n, off)
  {
    hide Blk;
  }

  lemma DroppedNothing(d: Disk, bs: BlockSize, at: nat, off: nat)
    requires FreeIsZero(d, bs, off)
    ensures Dropped(d, d, bs, at, 0, off)
  {
    hide Blk;
  }

  /**
   * What the cut of file `i` finds: its blocks below the high-water mark, and no other file's start too low to go down.
   */
  lemma CutClear(s: State, i: nat, size: nat)
    requires Ok(s) && i < |s.files| && size <= s.files[i].size
    ensures FreeIsZero(s.disk, s.bs, s.off)
    ensures var f, g := s.files[i], Cut(s.files[i], s.bs, size);
            var k0, k1 := StoredCount(f, s.bs), StoredCount(g, s.bs);
            && k1 <= k0 && (k1 < k0 ==> f.start + k0 <= s.off)
            && (TailStored(f, s.bs, size) ==> f.start + k1 > 0 && OffsetOf(size, s.bs) > 0)
            && (forall j | 0 <= j < |s.files| && j != i &&
                           StoredCount(s.files[j], s.bs) > 0 && s.files[j].start > f.start ::
                 s.files[j].start >= k0 - k1)
  {
    CutStored(s.files[i], s.bs, size);
    hide Rank, BlockCount, BlockOf, OffsetOf, Cut;
    assert Below(s.files[i], s.bs, s.off);
    forall j | 0 <= j < |s.files| && j != i ensures Disjoint(s.files[j], s.files[i], s.bs) {
    }
  }

  lemma CutSteps(s: State, d: Disk, t: State, i: nat, noSparse: bool, size: nat)
    requires Ok(s) && i < |s.files| && size < s.files[i].size && t.bs == s.bs
    requires StoredCount(Cut(s.files[i], s.bs, size), s.bs) <= StoredCount(s.files[i], s.bs)
    requires t.off == s.off - (StoredCount(s.files[i], s.bs) - StoredCount(Cut(s.files[i], s.bs, size), s.bs))
    requires CutOnDisk(s.disk, d, t.disk, s.bs, s.files[i], size, s.off)
    requires StartsCut(s.files, t.files, s.bs, i, size)
    ensures Ok(t) && Kept(s, t, i)
    ensures ModelOf(t, i) == Resized(ModelOf(s, i), s.bs, noSparse, size)
  {
    hide Ok, Slack, Contents, CutOnDisk, StoredCount, BlockOf, OffsetOf, BlockCount;
    assert Truncated(s, d, t, i, size);
    TruncateKeeps(s, d, t, i, size);
  }

  /** File `i` is cut, and then the files behind it are counted down. */
  ghost predicate StartsCut(fs: seq<File>, gs: seq<File>, bs: BlockSize, i: nat, size: nat)
    requires i < |fs|
  {
    var us, k0, k1 := fs[i := Cut(fs[i], bs, size)], StoredCount(fs[i], bs), StoredCount(Cut(fs[i], bs, size), bs);
    && |gs| == |fs| && k1 <= k0
    && forall j | 0 <= j < |fs| :: gs[j] == us[j].(start := StartAfterCut(us[j], bs, fs[i].start, k0 - k1))
  }

  lemma OkFree(s: State)
    requires Ok(s)
    ensures FreeIsZero(s.disk, s.bs, s.off)
  {
  }

  lemma RoundUp(size: nat, whole: nat, bs: BlockSize)
    requires size > 0 && whole == if size % bs != 0 then size + (bs - size % bs) else size
    ensures whole / bs == BlockCount(size, bs)
  {
    hide BlockOf, OffsetOf;
    DivMod(size, bs);
    DivModIndex(size, bs);
    var q := size / bs;
    if size % bs != 0 {
      assert (q + 1) * bs == q * bs + bs;
      DivMod(whole, bs);
      ByteIndexUnique(q + 1, 0, bs, whole);
    }
  }

  lemma GapByMove(d0: Disk, d1: Disk, d2: Disk, bs: BlockSize, at: nat, n: nat, off: nat)
    requires FreeIsZero(d0, bs, off)
    requires if at < off then BlocksCopied(d0, d1, bs, at + n, at, off - at) else d1 == d0
    requires forall b: nat :: Blk(d2, bs, b) == if at <= b < at + n then Zeros(bs) else Blk(d1, bs, b)
    ensures GapOpened(d0, d2, bs, at, n)
  {
    hide Blk;
  }

  lemma NothingWritten(m: FileModel, bs: BlockSize, noSparse: bool, offset: nat, data: Buffer)
    requires data.Len() == 0
    ensures FileWritten(m, bs, noSparse, offset, data) == m
  {
  }

  lemma WrittenInSteps(m: FileModel, f: FileModel, g: FileModel, bs: BlockSize, noSparse: bool, offset: nat,
                       data: Buffer, inside: Buffer)
    requires data.Len() > 0 && f == Filled(m, bs, noSparse, offset)
    requires var available := |f.data| - offset;
             && inside == data.Take(if data.Len() > available then available else data.Len())
             && g == if data.Len() > available then Appended(f, bs, noSparse, data.Drop(available)) else f
    ensures offset + inside.Len() <= |g.data|
    ensures FileWritten(m, bs, noSparse, offset, data) == Written(g, bs, noSparse, offset, inside)
  {
    hide Filled, Appended, Written;
  }

  lemma KeptNothing(s: State, i: nat)
    requires Ok(s) && i < |s.files|
    ensures Kept(s, s, i)
  {
  }

  lemma KeptOk(s: State, t: State, i: nat)
    requires i < |s.files| && Kept(s, t, i)
    ensures Ok(t) && t.bs == s.bs && |t.files| == |s.files| && Slack(t) == Slack(s)
  {
  }

  /** One round of the append loop, with what is left to append. */
  lemma AppendRound(s: State, r: State, t: State, u: State, i: nat, noSparse: bool, rest: Buffer, n: nat)
    requires i < |s.files| && Kept(s, r, i) && |r.files| == |s.files| && r.bs == s.bs
    requires rest.Len() > 0 && n == FirstPart(r.files[i].size, r.bs, rest)
    requires PartAppended(r, t, i, noSparse, rest.Take(n)) && u == Grown(t, i, n)
    ensures Kept(s, u, i) && u.files[i].size == r.files[i].size + n
    ensures Appended(ModelOf(r, i), r.bs, noSparse, rest) == Appended(ModelOf(u, i), r.bs, noSparse, rest.Drop(n))
    ensures rest.Len() > n ==>
              BlockOf(u.files[i].size, r.bs) == BlockOf(r.files[i].size, r.bs) + 1 &&
              OffsetOf(u.files[i].size, r.bs) == 0
  {
    hide Kept, AppendPart, Contents, BlockOf, OffsetOf;
    KeptAfter(s, r, u, i);
    if rest.Len() > n {
      NextTail(r.files[i].size, n, r.bs);
    }
  }

  /** One round of the write loop, with what is left to write. */
  lemma WriteRound(s: State, r: State, u: State, i: nat, noSparse: bool, pos: nat, rest: Buffer, n: nat)
    requires i < |s.files| && Kept(s, r, i) && |r.files| == |s.files| && r.bs == s.bs
    requires rest.Len() > 0 && n == FirstPart(pos, r.bs, rest) && pos + rest.Len() <= r.files[i].size
    requires PartWritten(r, u, i, noSparse, pos, rest.Take(n))
    ensures Kept(s, u, i) && u.files[i].size == r.files[i].size
    ensures Written(ModelOf(r, i), r.bs, noSparse, pos, rest) ==
            Written(ModelOf(u, i), r.bs, noSparse, pos + n, rest.Drop(n))
    ensures rest.Len() > n ==> BlockOf(pos + n, r.bs) == BlockOf(pos, r.bs) + 1 && OffsetOf(pos + n, r.bs) == 0
  {
    hide Kept, WritePart, Contents, BlockOf, OffsetOf;
    KeptAfter(s, r, u, i);
    WritePartSize(r, u, i, noSparse, pos, rest.Take(n));
    if rest.Len() > n {
      NextTail(pos, n, r.bs);
    }
  }

  lemma WritePartSize(r: State, u: State, i: nat, noSparse: bool, pos: nat, part: Buffer)
    requires i < |r.files| && pos + part.Len() <= r.files[i].size && PartWritten(r, u, i, noSparse, pos, part)
    ensures |u.files| == |r.files| && u.files[i].size == r.files[i].size
  {
    assert |ModelOf(u, i).data| == |ModelOf(r, i).data|;
  }

  lemma NextTail(size: nat, n: nat, bs: BlockSize)
    requires OffsetOf(size, bs) + n == bs
    ensures BlockOf(size + n, bs) == BlockOf(size, bs) + 1 && OffsetOf(size + n, bs) == 0
  {
    hide BlockOf, OffsetOf;
    ByteIndex(size, bs);
    assert (BlockOf(size, bs) + 1) * bs == BlockOf(size, bs) * bs + bs;
    ByteIndexUnique(BlockOf(size, bs) + 1, 0, bs, size + n);
  }

  lemma NewBlock(d0: Disk, d1: Disk, d2: Disk, bs: BlockSize, b: nat, data: Buffer)
    requires data.Len() <= bs
    requires BlockSet(d0, d1, bs, b, Splice(Blk(d0, bs, b), 0, data.Bytes()))
    requires BlockSet(d1, d2, bs, b, Splice(Blk(d1, bs, b), data.Len(), Zeros(bs - data.Len())))
    ensures BlockSet(d0, d2, bs, b, data.Bytes() + Zeros(bs - data.Len()))
  {
    hide Blk;
    var y := Splice(Blk(d0, bs, b), 0, data.Bytes());
    assert Splice(y, data.Len(), Zeros(bs - data.Len())) == data.Bytes() + Zeros(bs - data.Len());
  }

  lemma RelocatedFile(s: State, r: State, i: nat)
    requires i < |s.files| && Relocated(s, r, i)
    ensures r.bs == s.bs && |r.files| == |s.files| && r.off == s.off && FreeIsZero(r.disk, r.bs, r.off) && Ok(r)
    ensures r.files[i].sparse == s.files[i].sparse && r.files[i].size == s.files[i].size
  {
  }

  /** A block that was free gets zeros, then the data: it holds just that. */
  lemma NewTailBlock(d0: Disk, d1: Disk, d2: Disk, bs: BlockSize, b: nat, o: nat, data: Buffer)
    requires o + data.Len() <= bs && FreeIsZero(d0, bs, b)
    requires BlockSet(d0, d1, bs, b, Splice(Blk(d0, bs, b), 0, Zeros(o)))
    requires BlockSet(d1, d2, bs, b, Splice(Blk(d1, bs, b), o, data.Bytes()))
    ensures BlockSet(d0, d2, bs, b, Zeros(o) + data.Bytes() + Zeros(bs - o - data.Len()))
  {
    hide Blk;
    var z := Splice(Blk(d0, bs, b), 0, Zeros(o));
    assert z == Zeros(bs);
    assert Splice(z, o, data.Bytes()) == Zeros(o) + data.Bytes() + Zeros(bs - o - data.Len());
  }

  /** Shifting the blocks from `at` on up by one and discarding what is left there puts in a zero block. */
  lemma OpenedByMove(d0: Disk, d1: Disk, d2: Disk, bs: BlockSize, at: nat, off: nat)
    requires at <= off && FreeIsZero(d0, bs, off) && BlocksCopied(d0, d1, bs, at + 1, at, off - at)
    requires forall b: nat :: Blk(d2, bs, b) == if at <= b < at + 1 then Zeros(bs) else Blk(d1, bs, b)
    ensures Opened(d0, d2, bs, at)
  {
    hide Blk;
  }

  lemma ClosedByMove(d0: Disk, d1: Disk, d2: Disk, bs: BlockSize, at: nat, off: nat)
    requires at < off && FreeIsZero(d0, bs, off) && BlocksCopied(d0, d1, bs, at, at + 1, off - at - 1)
    requires forall b: nat :: Blk(d2, bs, b) == if off - 1 <= b < off - 1 + 1 then Zeros(bs) else Blk(d1, bs, b)
    ensures Closed(d0, d2, bs, at, off)
  {
    hide Blk;
  }

  /** The place of a block among the blocks of the last file. */
  lemma PlaceOfBlock(s: State, i: nat, x: nat)
    requires Ok(s) && i < |s.files| && AtEnd(s, i) && x < BlockCount(s.files[i].size, s.bs)
    ensures var at := s.files[i].start + Rank(s.files[i].sparse, x);
            at <= s.off && (x !in s.files[i].sparse ==> at < s.off)
  {
    hide BlockCount, Rank;
    var f := s.files[i];
    RankMonotone(f.sparse, x, BlockCount(f.size, s.bs));
    if x !in f.sparse {
      RankStrict(f.sparse, x, BlockCount(f.size, s.bs));
    }
  }

  lemma RelocatedPlace(s: State, r: State, i: nat, x: nat)
    requires i < |s.files| && Relocated(s, r, i) && x < BlockCount(s.files[i].size, s.bs)
    ensures Ok(r) && r.bs == s.bs && |r.files| == |s.files| && FreeIsZero(r.disk, r.bs, r.off)
    ensures r.files[i].sparse == s.files[i].sparse && r.files[i].size == s.files[i].size
    ensures var at := r.files[i].start + Rank(s.files[i].sparse, x);
            at <= r.off && (x !in s.files[i].sparse ==> at < r.off)
  {
    hide BlockCount, Rank, StoredCount;
    PlaceOfBlock(r, i, x);
  }

  /** The first hole that reaches up to the tail block: it has the tail in it, or ends right before it. */
  lemma TailHole(hs: seq<Hole>, k: nat, size: nat, bs: BlockSize)
    requires Canonical(hs) && k < |hs| && OffsetOf(size, bs) > 0 && hs[k].End() >= BlockOf(size, bs)
    requires forall i | i in HoleSet(hs) :: i < BlockCount(size, bs)
    ensures var q := BlockOf(size, bs);
            && hs[k].count > 0
            && if q in HoleSet(hs) then hs[k].End() == q + 1
               else hs[k].End() == q && TailBehindHole(size, HoleSet(hs), bs)
  {
    hide BlockOf, OffsetOf, HoleSet;
    var h, q := hs[k], BlockOf(size, bs);
    InHole(hs, k, h.End() - 1);
    if h.End() == q + 1 {
      InHole(hs, k, q);
    } else {
      forall j | 0 <= j < |hs| ensures !hs[j].Has(q) {
        if k < j {
          assert h.End() < hs[j].index;
        } else if j < k {
          assert hs[j].End() < h.index;
        }
      }
      InNoHole(hs, q);
    }
  }

  /** No hole reaches up to the tail block: it is stored, and so is the one before. */
  lemma TailFound(hs: seq<Hole>, size: nat, bs: BlockSize)
    requires Canonical(hs) && forall k | 0 <= k < |hs| :: hs[k].End() < BlockOf(size, bs)
    ensures var q := BlockOf(size, bs);
            && q !in HoleSet(hs) && !TailBehindHole(size, HoleSet(hs), bs)
            && Rank(HoleSet(hs), q) == q - CountsBelow(hs[..|hs|], q)
  {
    assert hs[..|hs|] == hs;
    hide BlockOf, OffsetOf, HoleSet, Rank, CountsBelow;
    var q := BlockOf(size, bs);
    RankFound(hs, q);
    if q > 0 {
      InNoHole(hs, q - 1);
    }
  }

  lemma ShowsNothing(v: View, pos: nat)
    ensures Shows(v, pos, [])
  {
  }

  lemma ShowsBehind(c: seq<byte>, pos: nat, size: nat)
    requires |c| <= pos
    ensures Shows(ContentView(c), pos, Zeros(size))
  {
    var v, z := ContentView(c), Zeros(size);
    forall i | 0 <= i < size ensures z[i] == v(pos + i) {
    }
  }

  /** A part of a logical block that lies inside the file is what the file shows there. */
  lemma FileShows(d: Disk, bs: BlockSize, f: File, index: nat, offset: nat, size: nat, pos: nat)
    requires offset + size <= bs && AtByte(bs, index, offset, pos) && pos + size <= f.size
    ensures Shows(ContentView(Contents(d, bs, f)), pos, FileBlock(d, bs, f, index)[offset..offset + size])
  {
    hide FileBlock, BlockOf, OffsetOf, AtByte, Rank;
    var v, s := ContentView(Contents(d, bs, f)), FileBlock(d, bs, f, index)[offset..offset + size];
    forall i | 0 <= i < size
      ensures s[i] == v(pos + i)
    {
      ByteInBlock(bs, index, offset, size, pos, pos + i);
    }
  }

  /** Walking the holes in order finds the rank of a block that is in none of them. */
  lemma RankFound(hs: seq<Hole>, i: nat)
    requires Canonical(hs) && forall k | 0 <= k < |hs| :: !hs[k].Has(i)
    ensures Rank(HoleSet(hs), i) == i - CountsBelow(hs, i) && i !in HoleSet(hs)
  {
    hide HoleSet, Rank, CountsBelow;
    RankAt(hs, i);
    InNoHole(hs, i);
  }

  /** The sum so far never exceeds the block number: the offsets do not run below the file's start. */
  lemma {:induction false} CountsFit(hs: seq<Hole>, k: nat, i: nat)
    requires Canonical(hs) && k <= |hs| && forall j | 0 <= j < k :: !hs[j].Has(i)
    ensures CountsBelow(hs[..k], i) <= i
    ensures k < |hs| && hs[k].index <= i ==> CountsBelow(hs[..k], i) <= hs[k].index
    ensures k < |hs| ==> hs[..k + 1][..k] == hs[..k]
  {
    if k > 0 {
      CountsFit(hs, k - 1, i);
      assert hs[..k][..k - 1] == hs[..k - 1] && hs[..k][k - 1] == hs[k - 1];
    }
  }

  /** What the invariant says of one file. */
  lemma OkParts(s: State, i: nat)
    requires Ok(s) && i < |s.files|
    ensures FreeIsZero(s.disk, s.bs, s.off)
    ensures HolesInside(s.files[i], s.bs) && Below(s.files[i], s.bs, s.off) && Padded(s.disk, s.bs, s.files[i])
    ensures StoredCount(s.files[i], s.bs) > 0 ==> s.files[i].start + StoredCount(s.files[i], s.bs) <= s.off
  {
  }

  lemma StaysLast(s: State, i: nat)
    requires Ok(s) && i < |s.files| && s.files[i].start + StoredCount(s.files[i], s.bs) == s.off
    ensures Relocated(s, s, i)
  {
  }

  lemma MoveSteps(s: State, mid: State, t: State, i: nat, k: nat)
    requires Ok(s) && i < |s.files| && k == StoredCount(s.files[i], s.bs) > 0 && s.files[i].start + k <= s.off
    requires Rotated(s.disk, t.disk, s.bs, s.files[i].start, k, s.off) && t.bs == s.bs && t.off == s.off
    requires mid == State(s.bs, t.disk, s.off, s.files[i := s.files[i].(start := s.off)])
    requires |t.files| == |s.files| && forall j | 0 <= j < |s.files| ::
               t.files[j] == mid.files[j].(start := StartMoved(mid.files[j], s.bs, s.files[i].start, k))
    ensures Relocated(s, t, i) && Ok(t)
  {
    StartsMoved(s, mid, t, i, k);
    MoveKeeps(s, t, i);
  }

  lemma StartsClear(mid: State, i: nat, src: nat, k: nat, s: State)
    requires Ok(s) && i < |s.files| && mid.bs == s.bs && mid.files == s.files[i := s.files[i].(start := s.off)]
    requires src == s.files[i].start && k == StoredCount(s.files[i], s.bs) > 0
    ensures forall j | 0 <= j < |s.files| && StoredCount(mid.files[j], s.bs) > 0 && mid.files[j].start >= src ::
              mid.files[j].start >= k
  {
    hide Rank, BlockCount;
    assert Below(s.files[i], s.bs, s.off);
    forall j | 0 <= j < |s.files| && j != i ensures Disjoint(s.files[j], s.files[i], s.bs) {
    }
  }

  lemma StartsMoved(s: State, mid: State, t: State, i: nat, k: nat)
    requires Ok(s) && i < |s.files| && mid.bs == s.bs && mid.files == s.files[i := s.files[i].(start := s.off)]
    requires k == StoredCount(s.files[i], s.bs) > 0
    requires |t.files| == |s.files| && forall j | 0 <= j < |s.files| ::
               t.files[j] == mid.files[j].(start := StartMoved(mid.files[j], s.bs, s.files[i].start, k))
    ensures forall j | 0 <= j < |s.files| ::
              t.files[j] == s.files[j].(start := StartAfterMove(s.files[j], s.files[i], j == i, s.bs, s.off))
  {
    hide Rank, BlockCount;
    assert Below(s.files[i], s.bs, s.off);
    forall j | 0 <= j < |s.files|
      ensures t.files[j] == s.files[j].(start := StartAfterMove(s.files[j], s.files[i], j == i, s.bs, s.off))
    {
      assert j == i || Disjoint(s.files[j], s.files[i], s.bs);
    }
  }

  ghost function StartMoved(f: File, bs: BlockSize, src: nat, n: nat): nat {
    if StoredCount(f, bs) > 0 && f.start >= src && f.start >= n then f.start - n else f.start
  }

  lemma SparseBytesStep(hs: seq<Hole>, k: nat, bs: BlockSize, size: nat, start: nat, length: nat)
    requires Canonical(hs) && k < |hs| && start == hs[k].index * bs && length == hs[k].count * bs
    ensures BytesIn(HoleSet(hs[..k + 1]), bs, size) ==
            BytesIn(HoleSet(hs[..k]), bs, size) +
            if start >= size then 0 else if length > size - start then size - start else length
  {
    var front, h := hs[..k], hs[k];
    assert Canonical(hs[..k + 1]);
    assert h.End() * bs == start + length;
    BytesInHole(h, bs, size, start, start + length);
    HoleAfterFront(front, h);
    hide *;
    assert hs[..k + 1] == front + [h];
    BytesInUnion(HoleSet(front), Span(h), bs, size);
  }

  lemma NoHoles()
    ensures HoleSet([]) == {}
  {
  }

  lemma HoleAfterFront(front: seq<Hole>, h: Hole)
    requires Canonical(front + [h])
    ensures HoleSet(front + [h]) == HoleSet(front) + Span(h) && HoleSet(front) !! Span(h)
  {
    assert front + [h] == front + [h] + [];
    assert HoleSet([]) == {};
    CanonicalFits(front, h, []);
    HoleSetParts(front, h, []);
    forall i | i in Span(h) ensures i !in HoleSet(front) {
      BelowAvoids(front, h.index, i);
    }
  }

  /** Where a file without blocks starts means nothing. */
  lemma RestartEmpty(s: State, t: State, i: nat)
    requires Ok(s) && i < |s.files| && StoredCount(s.files[i], s.bs) == 0
    requires t == s.(files := s.files[i := s.files[i].(start := s.off)])
    ensures Relocated(s, t, i) && Ok(t)
  {
    hide BlockOf, OffsetOf, BlockCount, Blk, Rank, FileBlock, Contents, Padded, HolesInside, Used;
    forall j | 0 <= j < |s.files| ensures SameStored(s, t, j) && Below(t.files[j], s.bs, t.off) {
      assert HolesInside(s.files[j], s.bs) && Below(s.files[j], s.bs, s.off);
    }
    forall x, y | 0 <= x < |s.files| && 0 <= y < |s.files| && x != y
      ensures Disjoint(t.files[x], t.files[y], s.bs)
    {
      assert Disjoint(s.files[x], s.files[y], s.bs);
    }
    Rearranged(s, t);
  }

  /** Copying the blocks out to the end, closing up behind them and discarding what is left over is a rotation. */
  lemma RotatedByMoves(d0: Disk, d1: Disk, d2: Disk, d3: Disk, bs: BlockSize, at: nat, k: nat, off: nat)
    requires at + k <= off && FreeIsZero(d0, bs, off)
    requires BlocksCopied(d0, d1, bs, off, at, k) && BlocksCopied(d1, d2, bs, at, at + k, off - at)
    requires forall b: nat :: Blk(d3, bs, b) == if off <= b < off + k then Zeros(bs) else Blk(d2, bs, b)
    ensures Rotated(d0, d3, bs, at, k, off)
  {
    hide Blk;
  }
}
