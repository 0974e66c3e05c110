/** The FAT32 table, written through a window that slides over it. */
module Fat {
  import opened Bytes
  import opened Volumes

  const WINDOW: nat := 4096
  const HALF: nat := 2048
  const FAT_START: nat := 32 * SECTOR_SIZE
  const CLUSTER_OFFSET: nat := 2
  const ENTRY_MASK: nat := 0x1000_0000
  const END_OF_CHAIN: nat := 0x0FFF_FFFF

  /** A file or directory occupies `count` clusters from `index` on. */
  datatype Chain = Chain(index: nat, count: nat)

  /** A 32 bit number, lowest byte first. */
  function EntryBytes(v: nat): (s: seq<byte>)
    ensures |s| == 4
  {
    [v % 0x100, v / 0x100 % 0x100, v / 0x1_0000 % 0x100, v / 0x100_0000 % 0x100]
  }

  /** What the table entry of cluster `index + i` says. */
  function NextEntry(c: Chain, i: nat): nat {
    if i + 1 < c.count then (c.index + i + 1) % ENTRY_MASK else END_OF_CHAIN
  }

  /* The table, built directly. */

  ghost function Blank(fatSize: nat): (t: seq<byte>)
    requires fatSize >= 8
    ensures |t| == fatSize
  {
    [0xF0, 0xFF, 0xFF, 0x0F, 0xFF, 0xFF, 0xFF, 0x0F] + Zeros(fatSize - 8)
  }

  /** The first `n` entries of a chain, put where they belong. */
  ghost function WithEntries(t: seq<byte>, c: Chain, n: nat): (r: seq<byte>)
    ensures |r| == |t|
  {
    if n == 0 then t
    else
      var s, at := WithEntries(t, c, n - 1), 4 * (c.index + n - 1);
      if at + 4 <= |t| then Splice(s, at, EntryBytes(NextEntry(c, n - 1))) else s
  }

  ghost function WithChains(t: seq<byte>, cs: seq<Chain>): (r: seq<byte>)
    ensures |r| == |t|
    decreases cs
  {
    if cs == [] then t else WithChains(WithEntries(t, cs[0], cs[0].count), cs[1..])
  }

  ghost function Table(fatSize: nat, cs: seq<Chain>): (t: seq<byte>)
    requires fatSize >= 8
    ensures |t| == fatSize
  {
    WithChains(Blank(fatSize), cs)
  }

  /* Where the window is. */

  /** Where the window starts once the entry at byte `p` is the last one written. */
  ghost function WindowStart(fatSize: nat, p: nat): nat {
    if fatSize <= WINDOW || p <= HALF then 0 else (p - 1) / HALF * HALF
  }

  /** The chains come in order, fit the table, and each starts at a place that one slide of the window can reach. */
  ghost predicate ChainsFit(fatSize: nat, last: nat, cs: seq<Chain>)
    decreases cs
  {
    cs == [] ||
    if cs[0].count == 0 then ChainsFit(fatSize, last, cs[1..])
    else && last < cs[0].index && 4 * (cs[0].index + cs[0].count) <= fatSize
         && 4 * cs[0].index <= WindowStart(fatSize, 4 * last) + WINDOW
         && ChainsFit(fatSize, cs[0].index + cs[0].count - 1, cs[1..])
  }

  /** The entry written last, once all chains are. */
  ghost function LastEntry(last: nat, cs: seq<Chain>): nat
    decreases cs
  {
    if cs == [] then last
    else LastEntry(if cs[0].count == 0 then last else cs[0].index + cs[0].count - 1, cs[1..])
  }

  /**
   * The first `n1` bytes of the first copy and `n2` bytes of the second hold the table; the rest is zeros, or as
   * before.
   */
  ghost predicate CopiesOnDisk(v0: View, v1: View, t: seq<byte>, n1: nat, n2: nat) {
    forall p: nat {:trigger v1(p)} ::
      v1(p) == if FAT_START <= p < FAT_START + |t| then (if p - FAT_START < n1 then t[p - FAT_START] else 0)
               else if FAT_START + |t| <= p < FAT_START + |t| + |t| && p - FAT_START - |t| < n2
               then t[p - FAT_START - |t|]
               else v0(p)
  }

  /** The window shows the table from `offset` on. */
  ghost predicate Slides(window: seq<byte>, t: seq<byte>, offset: nat) {
    |window| >= WINDOW && forall i | 0 <= i < WINDOW :: window[i] == if offset + i < |t| then t[offset + i] else 0
  }

  /** Nothing is written from byte `end` on. */
  ghost predicate ZeroBehind(t: seq<byte>, end: nat) {
    forall i | end <= i < |t| :: t[i] == 0
  }

  lemma StoredInBoth(v0: View, v1: View, v2: View, v3: View, t: seq<byte>, n: nat, s: seq<byte>)
    requires CopiesOnDisk(v0, v1, t, n, n) && n + |s| <= |t| && s == t[n..n + |s|]
    requires Stored(v1, v2, FAT_START + n, s) && Stored(v2, v3, FAT_START + n + |t|, s)
    ensures CopiesOnDisk(v0, v3, t, n + |s|, n + |s|)
  {
    forall p: nat {:trigger v3(p)}
      ensures v3(p) == if FAT_START <= p < FAT_START + |t|
                       then (if p - FAT_START < n + |s| then t[p - FAT_START] else 0)
                       else if FAT_START + |t| <= p < FAT_START + |t| + |t| && p - FAT_START - |t| < n + |s|
                       then t[p - FAT_START - |t|] else v0(p)
    {
      assert v2(p) == v2(p) && v1(p) == v1(p);
    }
  }

  /** Writes both copies of a part of the table. */
  method WriteBoth(vol: Volume, fatSize: nat, offset: nat, data: seq<byte>, ghost t: seq<byte>, ghost v0: View)
    requires |t| == fatSize && offset + |data| <= fatSize && data == t[offset..offset + |data|]
    requires CopiesOnDisk(v0, vol.View(), t, offset, offset)
    modifies vol
    ensures CopiesOnDisk(v0, vol.View(), t, offset + |data|, offset + |data|)
  {
    hide CopiesOnDisk, Stored, DiskView;
    ghost var v1 := vol.View();
    VolumeWrite(vol, FAT_START + offset, Data(data));
    ghost var v2 := vol.View();
    VolumeWrite(vol, FAT_START + offset + fatSize, Data(data));
    StoredInBoth(v0, v1, v2, vol.View(), t, offset, data);
  }

  method SlideWindow(vol: Volume, fatSize: nat, window: array<byte>, windowOffset: nat, nextWrOffset: nat,
                     ghost t: seq<byte>, ghost v0: View)
    returns (offset: nat, next: nat)
    requires |t| == fatSize && window.Length >= WINDOW
    requires Slides(window[..], t, windowOffset) && CopiesOnDisk(v0, vol.View(), t, windowOffset, windowOffset)
    requires nextWrOffset <= WINDOW && windowOffset + nextWrOffset <= fatSize
             && ZeroBehind(t, windowOffset + nextWrOffset)
    modifies vol, window
    ensures Slides(window[..], t, offset) && CopiesOnDisk(v0, vol.View(), t, offset, offset)
    ensures offset + next == windowOffset + nextWrOffset
    ensures offset == windowOffset + if fatSize > WINDOW && nextWrOffset > HALF then HALF else 0
  {
    hide CopiesOnDisk, DiskView;
    if fatSize <= WINDOW || nextWrOffset <= HALF {
      return windowOffset, nextWrOffset;
    }
    var diff := WINDOW / 2;
    assert window[..diff] == t[windowOffset..windowOffset + diff];
    WriteBoth(vol, fatSize, windowOffset, window[..diff], t, v0);
    ghost var before := window[..];
    offset, next := windowOffset + diff, nextWrOffset - diff;
    forall i | 0 <= i < next {
      window[i] := window[i + diff];
    }
    forall i | next <= i < WINDOW {
      window[i] := 0;
    }
    assert forall i | 0 <= i < WINDOW :: window[..][i] == if offset + i < |t| then t[offset + i] else 0 by {
      assert forall i | 0 <= i < next :: window[..][i] == before[i + diff];
    }
  }

  method FlushWindow(vol: Volume, fatSize: nat, window: array<byte>, windowOffset: nat, ghost t: seq<byte>,
                     ghost v0: View)
    requires |t| == fatSize && window.Length >= WINDOW && windowOffset <= fatSize
    requires Slides(window[..], t, windowOffset) && CopiesOnDisk(v0, vol.View(), t, windowOffset, windowOffset)
    requires ZeroBehind(t, windowOffset + WINDOW)
    modifies vol
    ensures CopiesOnDisk(v0, vol.View(), t, fatSize,
                   if fatSize - windowOffset > WINDOW then windowOffset + WINDOW else fatSize)
  {
    hide CopiesOnDisk, DiskView;
    var size := fatSize - windowOffset;
    size := if size > WINDOW then WINDOW else size;
    assert window[..size] == t[windowOffset..windowOffset + size];
    WriteBoth(vol, fatSize, windowOffset, window[..size], t, v0);
    RestIsZero(v0, vol.View(), t, windowOffset + size);
  }

  lemma RestIsZero(v0: View, v1: View, t: seq<byte>, n: nat)
    requires CopiesOnDisk(v0, v1, t, n, n) && ZeroBehind(t, n)
    ensures CopiesOnDisk(v0, v1, t, |t|, n)
  {
  }

  lemma OnDiskAgain(v0: View, v1: View, t: seq<byte>, t1: seq<byte>, n: nat)
    requires CopiesOnDisk(v0, v1, t, n, n) && |t1| == |t| && forall i | 0 <= i < n && i < |t| :: t1[i] == t[i]
    ensures CopiesOnDisk(v0, v1, t1, n, n)
  {
  }

  /** One slide is enough to have the window where the next entry needs it. */
  lemma SlideReaches(fatSize: nat, last: nat, p: nat)
    requires 4 * last < p <= WindowStart(fatSize, 4 * last) + WINDOW
    ensures var w := WindowStart(fatSize, 4 * last);
            w < p && WindowStart(fatSize, p) == w + if fatSize > WINDOW && p - w > HALF then HALF else 0
  {
    var w := WindowStart(fatSize, 4 * last);
    if fatSize > WINDOW {
      var k := (p - 1) / HALF;
      assert k * HALF <= p - 1 < k * HALF + HALF;
      if 4 * last > HALF {
        var j := (4 * last - 1) / HALF;
        assert j * HALF <= 4 * last - 1 < j * HALF + HALF;
      }
    }
  }

  /** The place of the entry before entry `i` of a chain. */
  ghost function EntryBefore(last: nat, c: Chain, i: nat): nat {
    if i == 0 then last else c.index + i - 1
  }

  /** What holds while a chain is written, the first `i` entries being done. */
  ghost predicate Writing(vol: Volume, window: array<byte>, offset: nat, t: seq<byte>, v0: View, last: nat)
    reads vol, window
  {
    && window.Length >= WINDOW && offset == WindowStart(|t|, 4 * last)
    && Slides(window[..], t, offset) && CopiesOnDisk(v0, vol.View(), t, offset, offset) && ZeroBehind(t, 4 * last + 4)
  }

  /** Puts the four bytes of an entry into the window. */
  method PutEntry(vol: Volume, window: array<byte>, offset: nat, fatOffset: nat, next: nat, ghost t: seq<byte>,
                  ghost v0: View, ghost at: nat)
    requires window.Length >= WINDOW && fatOffset + 4 <= WINDOW && at == offset + fatOffset && at + 4 <= |t|
    requires Slides(window[..], t, offset) && CopiesOnDisk(v0, vol.View(), t, offset, offset) && ZeroBehind(t, at)
    modifies window
    ensures var t1 := Splice(t, at, EntryBytes(next));
            Slides(window[..], t1, offset) && CopiesOnDisk(v0, vol.View(), t1, offset, offset) && ZeroBehind(t1, at + 4)
  {
    hide CopiesOnDisk, DiskView;
    ghost var before := window[..];
    window[fatOffset] := next % 0x100;
    window[fatOffset + 1] := next / 0x100 % 0x100;
    window[fatOffset + 2] := next / 0x1_0000 % 0x100;
    window[fatOffset + 3] := next / 0x100_0000 % 0x100;
    assert window[..] == Splice(before, fatOffset, EntryBytes(next));
    OnDiskAgain(v0, vol.View(), t, Splice(t, at, EntryBytes(next)), offset);
  }

  method WriteClusterChain32(vol: Volume, fatSize: nat, window: array<byte>, windowOffset: nat, index: nat, count: nat,
                             ghost t: seq<byte>, ghost v0: View, ghost last: nat)
    returns (offset: nat)
    requires |t| == fatSize && Writing(vol, window, windowOffset, t, v0, last)
    requires count > 0 ==> last < index && 4 * (index + count) <= fatSize && 4 * index <= windowOffset + WINDOW
    modifies vol, window
    ensures Writing(vol, window, offset, WithEntries(t, Chain(index, count), count), v0,
                    EntryBefore(last, Chain(index, count), count))
  {
    hide CopiesOnDisk, DiskView, Slides, ZeroBehind, EntryBytes, NextEntry, WindowStart;
    ghost var c, ti := Chain(index, count), t;
    offset := windowOffset;
    // the source's offset wraps around here for an empty chain, which never uses it
    var fatOffset: int := index * 4 - windowOffset;
    var i := 0;
    while i < count
      invariant 0 <= i <= count && ti == WithEntries(t, c, i)
      invariant Writing(vol, window, offset, ti, v0, EntryBefore(last, c, i))
      invariant count > 0 ==> offset + fatOffset == 4 * (index + i) && fatOffset <= WINDOW
    {
      ghost var e := EntryBefore(last, c, i);
      SlideReaches(fatSize, e, 4 * (index + i));
      ZeroFurther(ti, 4 * e + 4, offset + fatOffset);
      offset, fatOffset := SlideWindow(vol, fatSize, window, offset, fatOffset, ti, v0);
      var next := if i + 1 < count then index + i + 1 else 0xFFFF_FFFF;
      next := next % ENTRY_MASK;
      EntryFits(fatSize, 4 * (index + i));
      PutEntry(vol, window, offset, fatOffset, next, ti, v0, 4 * (index + i));
      NextSame(c, i, next);
      ti := Splice(ti, 4 * (index + i), EntryBytes(next));
      fatOffset, i := fatOffset + 4, i + 1;
    }
  }

  lemma NextSame(c: Chain, i: nat, next: nat)
    requires next == (if i + 1 < c.count then c.index + i + 1 else 0xFFFF_FFFF) % ENTRY_MASK
    ensures next == NextEntry(c, i)
  {
  }

  lemma ZeroFurther(t: seq<byte>, a: nat, b: nat)
    requires ZeroBehind(t, a) && a <= b
    ensures ZeroBehind(t, b)
  {
  }

  lemma EntryFits(fatSize: nat, p: nat)
    requires p % 4 == 0 && p + 4 <= fatSize
    ensures WindowStart(fatSize, p) <= p && p - WindowStart(fatSize, p) + 4 <= WINDOW
  {
    if fatSize > WINDOW && p > HALF {
      var k := (p - 1) / HALF;
      assert k * HALF <= p - 1 < k * HALF + HALF;
    }
  }

  /** Where a node of the tree lies: a directory by byte offset, a file by cluster. */
  datatype Extent = Extent(start: nat, size: nat)

  function ClustersOf(size: nat, clusterSize: BlockSize): nat {
    size / clusterSize + if size % clusterSize != 0 then 1 else 0
  }

  /** As few clusters as hold that many bytes. */
  lemma ClustersHold(size: nat, clusterSize: BlockSize)
    ensures size <= ClustersOf(size, clusterSize) * clusterSize < size + clusterSize
  {
    var q, r := size / clusterSize, size % clusterSize;
    assert size == q * clusterSize + r && 0 <= r < clusterSize;
    assert (q + 1) * clusterSize == q * clusterSize + clusterSize;
  }

  /** An empty directory has one cluster, an empty file none. */
  function DirChain(e: Extent, clusterSize: BlockSize): Chain {
    Chain(e.start / clusterSize + CLUSTER_OFFSET, if e.size == 0 then 1 else ClustersOf(e.size, clusterSize))
  }

  function FileChain(e: Extent, clusterSize: BlockSize): Chain {
    Chain(e.start + CLUSTER_OFFSET, ClustersOf(e.size, clusterSize))
  }

  /** The chain of a file starts at its cluster and has the fewest clusters that hold all of its bytes. */
  lemma FileChainHolds(e: Extent, clusterSize: BlockSize)
    ensures var c := FileChain(e, clusterSize);
            e.size <= c.count * clusterSize < e.size + clusterSize && c.index == e.start + CLUSTER_OFFSET
  {
    ClustersHold(e.size, clusterSize);
  }

  /** That of a directory starts at the cluster its first byte is in; it is the fewest that do, but at least one. */
  lemma DirChainHolds(e: Extent, clusterSize: BlockSize)
    ensures var c := DirChain(e, clusterSize);
            && c.count > 0 && e.size <= c.count * clusterSize
            && (c.count > 1 ==> (c.count - 1) * clusterSize < e.size)
            && c.index >= CLUSTER_OFFSET
            && (c.index - CLUSTER_OFFSET) * clusterSize <= e.start < (c.index - CLUSTER_OFFSET + 1) * clusterSize
  {
    hide ClustersOf;
    ClustersHold(e.size, clusterSize);
    var q, n := e.start / clusterSize, ClustersOf(e.size, clusterSize);
    assert e.start == q * clusterSize + e.start % clusterSize;
    assert (q + 1) * clusterSize == q * clusterSize + clusterSize;
    assert n > 0 ==> n * clusterSize == (n - 1) * clusterSize + clusterSize;
  }

  function Chains(dirs: seq<Extent>, files: seq<Extent>, clusterSize: BlockSize): (cs: seq<Chain>)
    ensures |cs| == |dirs| + |files|
  {
    seq(|dirs|, i requires 0 <= i < |dirs| => DirChain(dirs[i], clusterSize)) +
    seq(|files|, i requires 0 <= i < |files| => FileChain(files[i], clusterSize))
  }

  /** What the window has covered of the table at the end. */
  ghost function Covered(fatSize: nat, last: nat): nat {
    var w := WindowStart(fatSize, 4 * last);
    if w + WINDOW < fatSize then w + WINDOW else fatSize
  }

  /** What is left to be written, the first chains being done. */
  ghost predicate Remaining(t0: seq<byte>, cs: seq<Chain>, t: seq<byte>, last: nat, rest: seq<Chain>) {
    && |t| == |t0| && 4 * last + 4 <= |t|
    && WithChains(t, rest) == WithChains(t0, cs) && ChainsFit(|t|, last, rest)
    && LastEntry(last, rest) == LastEntry(1, cs)
  }

  lemma NextChain(t0: seq<byte>, cs: seq<Chain>, t: seq<byte>, last: nat, rest: seq<Chain>)
    requires Remaining(t0, cs, t, last, rest) && rest != []
    ensures Remaining(t0, cs, WithEntries(t, rest[0], rest[0].count), EntryBefore(last, rest[0], rest[0].count),
                      rest[1..])
    ensures rest[0].count > 0 ==>
              last < rest[0].index && 4 * (rest[0].index + rest[0].count) <= |t| &&
              4 * rest[0].index <= WindowStart(|t|, 4 * last) + WINDOW
  {
    hide WindowStart, WithEntries, WithChains, ChainsFit, LastEntry;
    UnfoldTable(t, rest);
    UnfoldFit(|t|, last, rest);
  }

  lemma UnfoldTable(t: seq<byte>, cs: seq<Chain>)
    requires cs != []
    ensures WithChains(t, cs) == WithChains(WithEntries(t, cs[0], cs[0].count), cs[1..])
  {
    hide WithEntries;
  }

  lemma UnfoldFit(fatSize: nat, last: nat, cs: seq<Chain>)
    requires ChainsFit(fatSize, last, cs) && cs != []
    ensures var c := cs[0];
            && ChainsFit(fatSize, EntryBefore(last, c, c.count), cs[1..])
            && LastEntry(last, cs) == LastEntry(EntryBefore(last, c, c.count), cs[1..])
            && (c.count > 0 ==> last < c.index && 4 * (c.index + c.count) <= fatSize &&
                                4 * c.index <= WindowStart(fatSize, 4 * last) + WINDOW)
  {
    hide WindowStart;
  }

  method WriteChain(vol: Volume, fatSize: nat, window: array<byte>, windowOffset: nat, c: Chain, ghost v0: View,
                    ghost t0: seq<byte>, ghost cs: seq<Chain>, ghost t: seq<byte>, ghost last: nat,
                    ghost rest: seq<Chain>)
    returns (offset: nat, ghost t1: seq<byte>, ghost last1: nat)
    requires |t0| == fatSize && Remaining(t0, cs, t, last, rest) && rest != [] && rest[0] == c
    requires Writing(vol, window, windowOffset, t, v0, last)
    modifies vol, window
    ensures Remaining(t0, cs, t1, last1, rest[1..]) && Writing(vol, window, offset, t1, v0, last1)
  {
    hide WithChains, ChainsFit, LastEntry, WithEntries, Slides, CopiesOnDisk, ZeroBehind, WindowStart;
    NextChain(t0, cs, t, last, rest);
    offset := WriteClusterChain32(vol, fatSize, window, windowOffset, c.index, c.count, t, v0, last);
    t1, last1 := WithEntries(t, c, c.count), EntryBefore(last, c, c.count);
  }

  /** The table, as it is before any chain is written, is in the window, and zeros are in the first copy. */
  method StartTable(vol: Volume, fatSize: nat, ghost v0: View) returns (window: array<byte>)
    requires fatSize >= 8 && v0 == vol.View()
    modifies vol
    ensures fresh(window) && Writing(vol, window, 0, Blank(fatSize), v0, 1)
  {
    VolumeWrite(vol, FAT_START, Null(fatSize));
    window := new byte[if fatSize < WINDOW then WINDOW else fatSize](_ => 0);
    window[0], window[1], window[2], window[3] := 0xF0, 0xFF, 0xFF, 0x0F;
    window[4], window[5], window[6], window[7] := 0xFF, 0xFF, 0xFF, 0x0F;
  }

  /**
   * Writes both copies of the table. The first one is cleared before; the second gets what the window covers, and has
   * to be clear behind that.
   */
  method BuildFats(vol: Volume, fatSize: nat, secsPerCluster: nat, dirs: seq<Extent>, files: seq<Extent>)
    requires fatSize >= 8 && secsPerCluster > 0
    requires ChainsFit(fatSize, 1, Chains(dirs, files, secsPerCluster * SECTOR_SIZE))
    modifies vol
    ensures var cs := Chains(dirs, files, secsPerCluster * SECTOR_SIZE);
            CopiesOnDisk(old(vol.View()), vol.View(), Table(fatSize, cs), fatSize, Covered(fatSize, LastEntry(1, cs)))
  {
    hide WithChains, ChainsFit, LastEntry, WithEntries, Slides, CopiesOnDisk, ZeroBehind, DiskView, WindowStart, Blank,
      Chains, DirChain, FileChain, Remaining;
    var clusterSize: BlockSize := secsPerCluster * SECTOR_SIZE;
    ghost var v0, t0, cs := vol.View(), Blank(fatSize), Chains(dirs, files, clusterSize);
    var window := StartTable(vol, fatSize, v0);
    var offset: nat := 0;
    ghost var t: seq<byte>, last: nat := t0, 1;
    FirstChain(t0, cs);
    var k := 0;
    while k < |dirs|
      invariant 0 <= k <= |dirs| && Remaining(t0, cs, t, last, cs[k..]) && Writing(vol, window, offset, t, v0, last)
    {
      ChainAt(dirs, files, clusterSize, k);
      offset, t, last := WriteChain(vol, fatSize, window, offset, DirChain(dirs[k], clusterSize), v0, t0, cs, t, last,
                                    cs[k..]);
      k := k + 1;
    }
    k := 0;
    while k < |files|
      invariant 0 <= k <= |files| && Remaining(t0, cs, t, last, cs[|dirs| + k..])
                && Writing(vol, window, offset, t, v0, last)
    {
      ChainAt(dirs, files, clusterSize, |dirs| + k);
      offset, t, last := WriteChain(vol, fatSize, window, offset, FileChain(files[k], clusterSize), v0, t0, cs, t, last,
                                    cs[|dirs| + k..]);
      k := k + 1;
    }
    AllChains(t0, cs, t, last, cs[|cs|..]);
    ZeroFurther(t, 4 * last + 4, offset + WINDOW);
    FlushWindow(vol, fatSize, window, offset, t, v0);
  }

  lemma FirstChain(t0: seq<byte>, cs: seq<Chain>)
    requires |t0| >= 8 && ChainsFit(|t0|, 1, cs)
    ensures Remaining(t0, cs, t0, 1, cs[0..])
  {
    assert cs[0..] == cs;
  }

  lemma ChainAt(dirs: seq<Extent>, files: seq<Extent>, clusterSize: BlockSize, k: nat)
    requires k < |dirs| + |files|
    ensures var cs := Chains(dirs, files, clusterSize);
            && cs[k..] != [] && cs[k..][1..] == cs[k + 1..]
            && cs[k..][0] == if k < |dirs| then DirChain(dirs[k], clusterSize)
                             else FileChain(files[k - |dirs|], clusterSize)
  {
  }

  lemma AllChains(t0: seq<byte>, cs: seq<Chain>, t: seq<byte>, last: nat, rest: seq<Chain>)
    requires Remaining(t0, cs, t, last, rest) && rest == []
    ensures t == WithChains(t0, cs) && last == LastEntry(1, cs)
    ensures WindowStart(|t|, 4 * last) <= |t| && 4 * last + 4 <= WindowStart(|t|, 4 * last) + WINDOW
  {
    EntryFits(|t|, 4 * last);
  }

  /* What the table says. */

  /** The table entry of cluster `k`. */
  ghost function EntryAt(t: seq<byte>, k: nat): nat
    requires 4 * k + 4 <= |t|
  {
    t[4 * k] as int + t[4 * k + 1] as int * 0x100 + t[4 * k + 2] as int * 0x1_0000 + t[4 * k + 3] as int * 0x100_0000
  }

  lemma EntryReadsBack(t: seq<byte>, k: nat, v: nat)
    requires 4 * k + 4 <= |t| && v < 0x1_0000_0000
    requires t[4 * k..4 * k + 4] == EntryBytes(v)
    ensures EntryAt(t, k) == v
  {
    var e := t[4 * k..4 * k + 4];
    assert e[0] == t[4 * k] && e[1] == t[4 * k + 1] && e[2] == t[4 * k + 2] && e[3] == t[4 * k + 3];
    assert v / 0x100 / 0x100 == v / 0x1_0000 && v / 0x1_0000 / 0x100 == v / 0x100_0000;
  }

  /** A chain's own entries, and all others as they were. */
  lemma {:induction false} ChainEntries(t: seq<byte>, c: Chain, n: nat)
    requires n <= c.count && 4 * (c.index + n) <= |t|
    ensures var r := WithEntries(t, c, n);
            && (forall i | 0 <= i < n :: r[4 * (c.index + i)..4 * (c.index + i) + 4] == EntryBytes(NextEntry(c, i)))
            && (forall p | 0 <= p < |t| && !(4 * c.index <= p < 4 * (c.index + n)) :: r[p] == t[p])
  {
    hide EntryBytes, NextEntry;
    if n > 0 {
      ChainEntries(t, c, n - 1);
      var s, r, at := WithEntries(t, c, n - 1), WithEntries(t, c, n), 4 * (c.index + n - 1);
      assert r == Splice(s, at, EntryBytes(NextEntry(c, n - 1)));
      assert r[at..at + 4] == EntryBytes(NextEntry(c, n - 1));
      forall i | 0 <= i < n - 1 ensures r[4 * (c.index + i)..4 * (c.index + i) + 4] == EntryBytes(NextEntry(c, i)) {
        assert r[4 * (c.index + i)..4 * (c.index + i) + 4] == s[4 * (c.index + i)..4 * (c.index + i) + 4];
      }
    }
  }

  ghost predicate InChain(c: Chain, k: nat) {
    c.index <= k < c.index + c.count
  }

  /** A byte whose entry belongs to none of the chains is not touched. */
  lemma {:induction false} OutsideChains(t: seq<byte>, last: nat, cs: seq<Chain>, p: nat)
    requires p < |t| && ChainsFit(|t|, last, cs) && forall j | 0 <= j < |cs| :: !InChain(cs[j], p / 4)
    ensures WithChains(t, cs)[p] == t[p]
    decreases cs
  {
    hide WindowStart, WithEntries;
    if cs != [] {
      var c := cs[0];
      UnfoldFit(|t|, last, cs);
      assert !InChain(c, p / 4);
      if c.count > 0 {
        ChainEntries(t, c, c.count);
      } else {
        NoEntries(t, c);
      }
      OutsideChains(WithEntries(t, c, c.count), EntryBefore(last, c, c.count), cs[1..], p);
    }
  }

  lemma NoEntries(t: seq<byte>, c: Chain)
    requires c.count == 0
    ensures WithEntries(t, c, c.count) == t
  {
  }

  /** The chains behind start behind. */
  lemma {:induction false} ChainsBehind(fatSize: nat, last: nat, cs: seq<Chain>, j: nat)
    requires ChainsFit(fatSize, last, cs) && j < |cs| && cs[j].count > 0
    ensures last < cs[j].index && 4 * (cs[j].index + cs[j].count) <= fatSize
    decreases cs
  {
    hide WindowStart;
    UnfoldFit(fatSize, last, cs);
    if j > 0 {
      ChainsBehind(fatSize, EntryBefore(last, cs[0], cs[0].count), cs[1..], j - 1);
    }
  }

  lemma {:induction false} ChainInTable(t: seq<byte>, last: nat, cs: seq<Chain>, j: nat, i: nat)
    requires ChainsFit(|t|, last, cs) && j < |cs| && i < cs[j].count
    ensures 4 * (cs[j].index + i) + 4 <= |t|
    ensures WithChains(t, cs)[4 * (cs[j].index + i)..4 * (cs[j].index + i) + 4] == EntryBytes(NextEntry(cs[j], i))
    decreases cs
  {
    hide WindowStart, WithEntries, EntryBytes, NextEntry;
    var c, k := cs[0], cs[j].index + i;
    UnfoldFit(|t|, last, cs);
    ChainsBehind(|t|, last, cs, j);
    var s, e := WithEntries(t, c, c.count), EntryBefore(last, c, c.count);
    if j > 0 {
      ChainInTable(s, e, cs[1..], j - 1, i);
    } else {
      ChainEntries(t, c, c.count);
      forall p | 4 * k <= p < 4 * k + 4 ensures WithChains(s, cs[1..])[p] == s[p] {
        forall m | 0 <= m < |cs[1..]| ensures !InChain(cs[1..][m], p / 4) {
          if cs[1..][m].count > 0 {
            ChainsBehind(|t|, e, cs[1..], m);
          }
        }
        OutsideChains(s, e, cs[1..], p);
      }
      assert WithChains(t, cs)[4 * k..4 * k + 4] == s[4 * k..4 * k + 4];
    }
  }

  /**
   * Following the entries from the start of a chain gives its clusters one after the other, then the end of the chain.
   */
  lemma ChainReadsBack(fatSize: nat, cs: seq<Chain>, j: nat, i: nat)
    requires 8 <= fatSize <= 4 * END_OF_CHAIN && ChainsFit(fatSize, 1, cs) && j < |cs| && i < cs[j].count
    ensures 4 * (cs[j].index + i) + 4 <= fatSize
    ensures EntryAt(Table(fatSize, cs), cs[j].index + i) ==
            if i + 1 < cs[j].count then cs[j].index + i + 1 else END_OF_CHAIN
    ensures cs[j].index + i + 1 < cs[j].index + cs[j].count ==> cs[j].index + i + 1 < END_OF_CHAIN
  {
    hide WithChains, EntryBytes, EntryAt, Blank, ChainsFit;
    ChainInTable(Blank(fatSize), 1, cs, j, i);
    ChainsBehind(fatSize, 1, cs, j);
    EntryReadsBack(Table(fatSize, cs), cs[j].index + i, NextEntry(cs[j], i));
  }

  /** A cluster of no chain is free, and the two entries in front keep their fixed values. */
  lemma OthersAreFree(fatSize: nat, cs: seq<Chain>, k: nat)
    requires fatSize >= 8 && ChainsFit(fatSize, 1, cs) && 4 * k + 4 <= fatSize
    requires forall j | 0 <= j < |cs| :: !InChain(cs[j], k)
    ensures EntryAt(Table(fatSize, cs), k) == if k == 0 then 0x0FFF_FFF0 else if k == 1 then 0x0FFF_FFFF else 0
  {
    hide WithChains, ChainsFit;
    var t := Blank(fatSize);
    forall p | 4 * k <= p < 4 * k + 4 ensures WithChains(t, cs)[p] == t[p] {
      OutsideChains(t, 1, cs, p);
    }
  }

  /** Both copies are the table exactly if the second one was clear where the window did not come. */
  lemma CopiesAgree(v0: View, v1: View, t: seq<byte>, n: nat)
    requires CopiesOnDisk(v0, v1, t, |t|, n) && ZeroBehind(t, n)
    ensures Shows(v1, FAT_START, t)
    ensures Shows(v1, FAT_START + |t|, t) <==>
            forall p: nat | FAT_START + |t| + n <= p < FAT_START + |t| + |t| :: v0(p) == 0
  {
    var second := FAT_START + |t|;
    forall i | 0 <= i < |t| ensures t[i] == v1(FAT_START + i) {
    }
    if Shows(v1, second, t) {
      forall p: nat | second + n <= p < second + |t| ensures v0(p) == 0 {
        assert t[p - second] == v1(second + (p - second));
        assert v1(p) == v0(p);
      }
    }
    if forall p: nat | second + n <= p < second + |t| :: v0(p) == 0 {
      forall i | 0 <= i < |t| ensures t[i] == v1(second + i) {
        assert i >= n ==> v0(second + i) == 0;
      }
    }
  }

  /**
   * When a file system is built, everything up to the end of both copies is cleared first, and in between only the
   * reserved area in front is written. So the copies agree.
   */
  lemma BuiltCopiesAgree(v: View, w: View, v0: View, v1: View, t: seq<byte>, n: nat)
    requires Stored(v, w, 0, Zeros(FAT_START + 2 * |t|)) && forall p: nat | FAT_START <= p :: v0(p) == w(p)
    requires CopiesOnDisk(v0, v1, t, |t|, n) && ZeroBehind(t, n)
    ensures Shows(v1, FAT_START, t) && Shows(v1, FAT_START + |t|, t)
  {
    hide CopiesOnDisk, ZeroBehind;
    CopiesAgree(v0, v1, t, n);
    forall p: nat | FAT_START + |t| + n <= p < FAT_START + |t| + |t| ensures v0(p) == 0 {
      assert w(p) == Zeros(FAT_START + 2 * |t|)[p];
    }
  }

  /** Behind what the window covered, the table has only zeros. */
  lemma TableEnds(fatSize: nat, cs: seq<Chain>)
    requires fatSize >= 8 && ChainsFit(fatSize, 1, cs)
    ensures ZeroBehind(Table(fatSize, cs), Covered(fatSize, LastEntry(1, cs)))
  {
    hide WithChains, ChainsFit, LastEntry, WindowStart;
    var t := Blank(fatSize);
    var last := LastEntry(1, cs);
    LastIsLast(fatSize, 1, cs);
    EntryFits(fatSize, 4 * last);
    forall p | Covered(fatSize, last) <= p < fatSize ensures WithChains(t, cs)[p] == 0 {
      forall j | 0 <= j < |cs| ensures !InChain(cs[j], p / 4) {
        NotBehindLast(fatSize, 1, cs, j);
      }
      OutsideChains(t, 1, cs, p);
    }
  }

  lemma {:induction false} LastIsLast(fatSize: nat, last: nat, cs: seq<Chain>)
    requires ChainsFit(fatSize, last, cs) && 4 * last + 4 <= fatSize
    ensures last <= LastEntry(last, cs) && 4 * LastEntry(last, cs) + 4 <= fatSize
    decreases cs
  {
    hide WindowStart;
    if cs != [] {
      UnfoldFit(fatSize, last, cs);
      LastIsLast(fatSize, EntryBefore(last, cs[0], cs[0].count), cs[1..]);
    }
  }

  lemma {:induction false} NotBehindLast(fatSize: nat, last: nat, cs: seq<Chain>, j: nat)
    requires ChainsFit(fatSize, last, cs) && j < |cs| && 4 * last + 4 <= fatSize
    ensures cs[j].count == 0 || cs[j].index + cs[j].count - 1 <= LastEntry(last, cs)
    decreases cs
  {
    hide WindowStart;
    UnfoldFit(fatSize, last, cs);
    var e := EntryBefore(last, cs[0], cs[0].count);
    if j == 0 {
      LastIsLast(fatSize, e, cs[1..]);
    } else {
      NotBehindLast(fatSize, e, cs[1..], j - 1);
    }
  }
}
