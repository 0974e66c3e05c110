/** Where the FAT32 file system puts directories and files, and which clusters that gives them. */
module FatPlaces {
  import opened Bytes
  import opened Volumes
  import opened Ranks
  import opened FileNodes
  import opened Layout
  import opened Moves
  import opened Ownership
  import opened Fat
  import opened Sorting

  const PREFERRED: nat := 4096
  const MIN_SECTORS: nat := 66000

  /* The size of the clusters. */

  /** As many sectors for a cluster as leave enough clusters, up to eight; and a table with an entry for each. */
  method ComputeFsParameters(diskSize: nat) returns (secsPerCluster: nat, fatSize: nat)
    ensures ClusterSectors(diskSize / SECTOR_SIZE, secsPerCluster)
    ensures TableFor(diskSize / SECTOR_SIZE / secsPerCluster, fatSize)
  {
    var sectors := diskSize / SECTOR_SIZE;
    secsPerCluster := 1;
    var clusters, i := sectors, 1;
    while i <= PREFERRED / SECTOR_SIZE
      invariant 1 <= i <= 9 && clusters == sectors / secsPerCluster
      invariant secsPerCluster == if i == 1 then 1 else i - 1
      invariant i > 1 ==> (i - 1) * MIN_SECTORS <= sectors
    {
      var count := sectors / i;
      FitsBlocks(sectors, i, MIN_SECTORS);
      if count < MIN_SECTORS {
        break;
      }
      secsPerCluster, clusters, i := i, count, i + 1;
    }
    fatSize := TableSize(clusters);
  }

  /** Whole sectors of entries, 128 in each. */
  method TableSize(clusters: nat) returns (fatSize: nat)
    ensures TableFor(clusters, fatSize)
  {
    var secsPerFat := clusters / (SECTOR_SIZE / 4);
    if clusters % (SECTOR_SIZE / 4) != 0 {
      secsPerFat := secsPerFat + 1;
    }
    fatSize := secsPerFat * SECTOR_SIZE;
  }

  /**
   * Whole sectors, as few as there can be for an entry for each cluster. None are added for the two reserved entries.
   */
  ghost predicate TableFor(clusters: nat, fatSize: nat) {
    fatSize % SECTOR_SIZE == 0 && 4 * clusters <= fatSize < 4 * clusters + SECTOR_SIZE
  }

  ghost predicate ClusterSectors(sectors: nat, secs: nat) {
    && 1 <= secs <= 8
    && (secs == 1 || secs * MIN_SECTORS <= sectors)
    && (secs == 8 || sectors < (secs + 1) * MIN_SECTORS)
  }

  /** Which volumes get clusters that a block of the tree is a whole number of. */
  lemma WholeClusters(sectors: nat, secs: nat)
    requires ClusterSectors(sectors, secs)
    ensures 8 % secs == 0 <==>
            !(3 * MIN_SECTORS <= sectors < 4 * MIN_SECTORS) && !(5 * MIN_SECTORS <= sectors < 8 * MIN_SECTORS)
  {
    match secs {
      case 1 | 2 | 3 | 4 | 5 | 6 | 7 | 8 =>
    }
  }

  /* Extents in a row, in blocks of the tree. */

  /** The first block behind the extents, if they follow each other from block `from` on. */
  ghost function RowEnd(es: seq<Extent>, from: nat): (end: nat)
    ensures end >= from
  {
    if es == [] then from else RowEnd(es[..|es| - 1], from) + BlockCount(es[|es| - 1].size, PREFERRED)
  }

  /** Each extent that is not empty starts where those before it end. */
  ghost predicate InRow(es: seq<Extent>, from: nat) {
    forall i: nat | i < |es| && es[i].size > 0 :: es[i].start == RowEnd(es[..i], from)
  }

  lemma {:induction false} RowGrows(es: seq<Extent>, from: nat, i: nat)
    requires i <= |es|
    ensures RowEnd(es[..i], from) <= RowEnd(es, from)
    decreases |es|
  {
    hide BlockCount;
    if i == |es| {
      assert es[..i] == es;
    } else {
      var front := es[..|es| - 1];
      assert front[..i] == es[..i];
      RowGrows(front, from, i);
    }
  }

  lemma RowStep(es: seq<Extent>, from: nat, i: nat)
    requires i < |es|
    ensures RowEnd(es[..i + 1], from) == RowEnd(es[..i], from) + BlockCount(es[i].size, PREFERRED)
    ensures RowEnd(es[..i + 1], from) <= RowEnd(es, from)
  {
    hide BlockCount;
    assert es[..i + 1][..i] == es[..i];
    RowGrows(es, from, i + 1);
  }

  /** An extent behind a row makes a longer row. */
  lemma RowLonger(es: seq<Extent>, from: nat, e: Extent)
    requires InRow(es, from) && (e.size > 0 ==> e.start == RowEnd(es, from))
    ensures InRow(es + [e], from) && RowEnd(es + [e], from) == RowEnd(es, from) + BlockCount(e.size, PREFERRED)
  {
    hide BlockCount;
    var r := es + [e];
    assert r[..|es|] == es;
    forall i: nat | i < |r| && r[i].size > 0 ensures r[i].start == RowEnd(r[..i], from) {
      assert r[..i] == es[..i];
    }
  }

  /** Two rows, one right behind the other, are a row. */
  lemma {:induction false} RowConcat(a: seq<Extent>, b: seq<Extent>, from: nat)
    requires InRow(a, from) && InRow(b, RowEnd(a, from))
    ensures InRow(a + b, from) && RowEnd(a + b, from) == RowEnd(b, RowEnd(a, from))
    decreases b
  {
    hide BlockCount, InRow;
    if b == [] {
      assert a + b == a;
    } else {
      var front, e := b[..|b| - 1], b[|b| - 1];
      RowFront(b, RowEnd(a, from));
      RowConcat(a, front, from);
      RowLonger(a + front, from, e);
      assert a + b == a + front + [e];
    }
  }

  lemma RowFront(es: seq<Extent>, from: nat)
    requires InRow(es, from) && es != []
    ensures InRow(es[..|es| - 1], from)
    ensures es[|es| - 1].size > 0 ==> es[|es| - 1].start == RowEnd(es[..|es| - 1], from)
  {
    hide BlockCount, RowEnd;
    var front := es[..|es| - 1];
    forall i: nat | i < |front| && front[i].size > 0 ensures front[i].start == RowEnd(front[..i], from) {
      assert front[..i] == es[..i];
    }
  }

  /* The directories. */

  /** What a directory takes up in blocks of the tree: an empty root is given one, too. */
  ghost function DirPlace(d: Extent): Extent {
    Extent(d.start / PREFERRED, if d.size == 0 then 1 else d.size)
  }

  ghost function DirPlaces(ds: seq<Extent>): (r: seq<Extent>)
    ensures |r| == |ds| && forall i | 0 <= i < |ds| :: r[i] == DirPlace(ds[i])
  {
    seq(|ds|, i requires 0 <= i < |ds| => DirPlace(ds[i]))
  }

  /**
   * The directories lie in a row from the front on, the root first, each at a multiple of the block size. Only a root
   * without children takes no bytes.
   */
  method PlaceDirs(sizes: seq<nat>) returns (dirs: seq<Extent>, total: nat)
    requires sizes == [0] || (sizes != [] && forall i | 0 <= i < |sizes| :: sizes[i] > 0)
    ensures |dirs| == |sizes| && forall i | 0 <= i < |sizes| ::
              dirs[i].size == sizes[i] && dirs[i].start % PREFERRED == 0
    ensures InRow(DirPlaces(dirs), 0) && BlockCount(total, PREFERRED) == RowEnd(DirPlaces(dirs), 0)
  {
    hide BlockOf, OffsetOf, BlockCount, InRow, RowEnd, DirPlace;
    EmptyRow();
    if sizes[0] == 0 {
      dirs, total := [Extent(0, 0)], 1;
      EmptyRoot();
      return;
    }
    dirs, total := [], 0;
    var offset, i := 0, 0;
    assert DirPlaces(dirs) == [];
    while i < |sizes|
      invariant 0 <= i == |dirs| <= |sizes|
      invariant forall j | 0 <= j < i :: dirs[j].size == sizes[j] && dirs[j].start % PREFERRED == 0
      invariant InRow(DirPlaces(dirs), 0) && offset == total == PREFERRED * RowEnd(DirPlaces(dirs), 0)
    {
      var d := Extent(offset, sizes[i]);
      CountBlocks(sizes[i]);
      DirAdded(dirs, d);
      var blocks := sizes[i] / PREFERRED;
      if sizes[i] % PREFERRED != 0 {
        blocks := blocks + 1;
      }
      offset := offset + sizes[i];
      if offset % PREFERRED != 0 {
        offset := offset + (PREFERRED - offset % PREFERRED);
      }
      dirs, total, i := dirs + [d], total + blocks * PREFERRED, i + 1;
    }
    CountBlocks(total);
  }

  lemma EmptyRow()
    ensures InRow([], 0) && RowEnd([], 0) == 0
  {
  }

  lemma EmptyRoot()
    ensures var ds := [Extent(0, 0)]; InRow(DirPlaces(ds), 0) && RowEnd(DirPlaces(ds), 0) == BlockCount(1, PREFERRED)
  {
    hide InRow, RowEnd, BlockCount;
    EmptyRow();
    RowLonger([], 0, Extent(0, 1));
    assert DirPlaces([Extent(0, 0)]) == [] + [Extent(0, 1)];
  }

  lemma DirAdded(ds: seq<Extent>, d: Extent)
    requires InRow(DirPlaces(ds), 0) && d.size > 0 && d.start == PREFERRED * RowEnd(DirPlaces(ds), 0)
    ensures InRow(DirPlaces(ds + [d]), 0)
    ensures RowEnd(DirPlaces(ds + [d]), 0) == RowEnd(DirPlaces(ds), 0) + BlockCount(d.size, PREFERRED)
  {
    hide InRow, RowEnd, BlockCount;
    RowLonger(DirPlaces(ds), 0, DirPlace(d));
    assert DirPlaces(ds + [d]) == DirPlaces(ds) + [DirPlace(d)];
  }

  lemma CountBlocks(size: nat)
    ensures BlockCount(size, PREFERRED) == size / PREFERRED + if size % PREFERRED != 0 then 1 else 0
  {
    hide BlockOf, OffsetOf;
    DivMod(size, PREFERRED);
  }

  /* From blocks to clusters. */

  /** The files, with their first blocks turned into clusters. */
  ghost function Adjusted(es: seq<Extent>, secs: nat): (r: seq<Extent>)
    requires secs > 0
    ensures |r| == |es| && forall i | 0 <= i < |es| :: r[i] == Extent(es[i].start * 8 / secs, es[i].size)
  {
    seq(|es|, i requires 0 <= i < |es| => Extent(es[i].start * 8 / secs, es[i].size))
  }

  /** The cluster of a file is the one that holds the first sector of its first block. */
  lemma AdjustedHolds(es: seq<Extent>, secs: nat, i: nat)
    requires secs > 0 && i < |es|
    ensures var c := Adjusted(es, secs)[i].start; c * secs <= 8 * es[i].start < (c + 1) * secs
    ensures Adjusted(es, secs)[i].size == es[i].size
  {
    var s := es[i].start * 8;
    assert s == s / secs * secs + s % secs && (s / secs + 1) * secs == s / secs * secs + secs;
  }

  /** The chain of an extent, where clusters have `secs` sectors. */
  function PlaceChain(e: Extent, secs: nat): Chain
    requires secs > 0
  {
    Chain(e.start * 8 / secs + CLUSTER_OFFSET, ClustersOf(e.size, secs * SECTOR_SIZE))
  }

  ghost function PlaceChains(es: seq<Extent>, secs: nat): (r: seq<Chain>)
    requires secs > 0
    ensures |r| == |es| && forall i | 0 <= i < |es| :: r[i] == PlaceChain(es[i], secs)
  {
    seq(|es|, i requires 0 <= i < |es| => PlaceChain(es[i], secs))
  }

  lemma DirCluster(d: Extent, secs: nat)
    requires 1 <= secs <= 8 && d.start % PREFERRED == 0
    ensures DirChain(d, secs * SECTOR_SIZE) == PlaceChain(DirPlace(d), secs)
  {
    var k := d.start / PREFERRED;
    assert d.start == 4096 * k;
    match secs {
      case 1 | 2 | 3 | 4 | 5 | 6 | 7 | 8 =>
    }
  }

  /** The chains of directories and files are those of their extents, taken together. */
  lemma ChainsOfPlaces(dirs: seq<Extent>, files: seq<Extent>, secs: nat)
    requires 1 <= secs <= 8 && forall i | 0 <= i < |dirs| :: dirs[i].start % PREFERRED == 0
    ensures Chains(dirs, Adjusted(files, secs), secs * SECTOR_SIZE) == PlaceChains(DirPlaces(dirs) + files, secs)
  {
    hide DirChain, PlaceChain, DirPlace;
    var all := DirPlaces(dirs) + files;
    var cs := Chains(dirs, Adjusted(files, secs), secs * SECTOR_SIZE);
    forall i | 0 <= i < |all| ensures cs[i] == PlaceChains(all, secs)[i] {
      if i < |dirs| {
        DirCluster(dirs[i], secs);
      } else {
        FileCluster(files[i - |dirs|], secs);
      }
    }
  }

  lemma FileCluster(e: Extent, secs: nat)
    requires secs > 0
    ensures FileChain(Extent(e.start * 8 / secs, e.size), secs * SECTOR_SIZE) == PlaceChain(e, secs)
  {
  }

  /* Chains that one slide of the window can reach. */

  /** A chain that starts at most half a window behind the last entry is within reach. */
  lemma CloseReaches(fatSize: nat, last: nat, c: Chain)
    requires last < c.index <= last + HALF / 4 && 4 * (c.index + c.count) <= fatSize
    ensures 4 * c.index <= WindowStart(fatSize, 4 * last) + WINDOW
  {
  }

  ghost predicate Close(fatSize: nat, last: nat, cs: seq<Chain>)
    decreases cs
  {
    cs == [] ||
    if cs[0].count == 0 then Close(fatSize, last, cs[1..])
    else && last < cs[0].index <= last + HALF / 4 && 4 * (cs[0].index + cs[0].count) <= fatSize
         && Close(fatSize, cs[0].index + cs[0].count - 1, cs[1..])
  }

  /** Chains in order, each at most 512 clusters behind the last one written, fit. */
  lemma {:induction false} CloseFits(fatSize: nat, last: nat, cs: seq<Chain>)
    requires Close(fatSize, last, cs)
    ensures ChainsFit(fatSize, last, cs)
    decreases cs
  {
    hide WindowStart;
    if cs != [] {
      if cs[0].count == 0 {
        CloseFits(fatSize, last, cs[1..]);
      } else {
        CloseReaches(fatSize, last, cs[0]);
        CloseFits(fatSize, cs[0].index + cs[0].count - 1, cs[1..]);
      }
    }
  }

  lemma StartCluster(start: nat, secs: nat)
    requires secs in {1, 2, 4, 8}
    ensures start * 8 / secs == 8 / secs * start
  {
    match secs {
      case 1 | 2 | 4 | 8 =>
    }
  }

  lemma NoBytes(size: nat, secs: nat)
    requires 1 <= secs <= 8
    ensures ClustersOf(size, secs * SECTOR_SIZE) == 0 <==> size == 0
    ensures size == 0 ==> BlockCount(size, PREFERRED) == 0
  {
    match secs {
      case 1 | 2 | 3 | 4 | 5 | 6 | 7 | 8 =>
    }
  }

  /* When the chains of a row fit. */

  /** The first cluster of the data area behind the last extent that is not empty. */
  ghost function ClustersUsed(es: seq<Extent>, secs: nat): nat
    requires secs > 0
  {
    if es == [] then 0
    else
      var e := es[|es| - 1];
      if e.size == 0 then ClustersUsed(es[..|es| - 1], secs)
      else PlaceEnd(e, secs)
  }

  /** The first cluster behind those that an extent needs. */
  function PlaceEnd(e: Extent, secs: nat): nat
    requires secs > 0
  {
    e.start * 8 / secs + ClustersOf(e.size, secs * SECTOR_SIZE)
  }

  /** What an extent needs of clusters of one, two, four or eight sectors is among those of its blocks. */
  lemma OneWithin(e: Extent, secs: nat)
    requires secs in {1, 2, 4, 8} && e.size > 0
    ensures PlaceEnd(e, secs) <= 8 / secs * (e.start + BlockCount(e.size, PREFERRED))
    ensures secs == 8 ==> PlaceEnd(e, secs) == e.start + BlockCount(e.size, PREFERRED)
  {
    hide BlockOf, OffsetOf, BlockCount;
    CountBlocks(e.size);
    match secs {
      case 1 | 2 | 4 | 8 =>
    }
  }

  /** No first cluster, rounded down, is one of the extents before. */
  ghost predicate NoOverlap(es: seq<Extent>, secs: nat)
    requires secs > 0
  {
    forall i: nat | i < |es| && es[i].size > 0 :: ClustersUsed(es[..i], secs) <= es[i].start * 8 / secs
  }

  lemma UsedStep(es: seq<Extent>, secs: nat, k: nat)
    requires secs > 0 && k < |es|
    ensures ClustersUsed(es[..k + 1], secs) ==
            if es[k].size == 0 then ClustersUsed(es[..k], secs) else PlaceEnd(es[k], secs)
  {
    hide PlaceEnd;
    assert es[..k + 1][..k] == es[..k];
  }

  /** An extent leaves less than eight clusters unused before the next block of the tree. */
  lemma OneReaches(e: Extent, secs: nat)
    requires 1 <= secs <= 8 && e.size > 0
    ensures 8 * (e.start + BlockCount(e.size, PREFERRED)) <= secs * PlaceEnd(e, secs) + secs + 6
  {
    hide BlockOf, OffsetOf, BlockCount;
    CountBlocks(e.size);
    match secs {
      case 1 | 2 | 3 | 4 | 5 | 6 | 7 | 8 =>
    }
  }

  lemma {:induction false} UsedReaches(es: seq<Extent>, secs: nat, k: nat)
    requires InRow(es, 0) && 1 <= secs <= 8 && k <= |es|
    ensures 8 * RowEnd(es[..k], 0) <= secs * ClustersUsed(es[..k], secs) + secs + 6
  {
    hide BlockCount, PlaceEnd, ClustersUsed;
    assert es[..0] == [];
    NothingUsed(secs);
    if k > 0 {
      UsedReaches(es, secs, k - 1);
      RowStep(es, 0, k - 1);
      UsedStep(es, secs, k - 1);
      NoBytes(es[k - 1].size, secs);
      if es[k - 1].size > 0 {
        OneReaches(es[k - 1], secs);
      }
    }
  }

  /** The chain of extent `i` starts behind those before and ends inside the table. */
  ghost predicate PlaceFits(es: seq<Extent>, secs: nat, fatSize: nat, i: nat)
    requires secs > 0 && i < |es|
  {
    var c := PlaceChain(es[i], secs);
    ClustersUsed(es[..i], secs) + CLUSTER_OFFSET <= c.index && 4 * (c.index + c.count) <= fatSize
  }

  lemma NextReach(es: seq<Extent>, secs: nat, fatSize: nat, k: nat)
    requires InRow(es, 0) && 1 <= secs <= 8 && k < |es| && es[k].size > 0 && PlaceFits(es, secs, fatSize, k)
    ensures 4 * PlaceChain(es[k], secs).index <= WindowStart(fatSize, 4 * (ClustersUsed(es[..k], secs) + 1)) + WINDOW
  {
    hide RowEnd, ClustersUsed, ClustersOf, WindowStart;
    var last := ClustersUsed(es[..k], secs) + 1;
    UsedReaches(es, secs, k);
    NotFar(es[k].start, ClustersUsed(es[..k], secs), secs);
    CloseReaches(fatSize, last, PlaceChain(es[k], secs));
  }

  lemma NotFar(start: nat, used: nat, secs: nat)
    requires 1 <= secs <= 8 && 8 * start <= secs * used + secs + 6
    ensures start * 8 / secs <= used + 7
  {
    match secs {
      case 1 | 2 | 3 | 4 | 5 | 6 | 7 | 8 =>
    }
  }

  lemma {:induction false} RestExact(es: seq<Extent>, secs: nat, fatSize: nat, k: nat)
    requires InRow(es, 0) && 1 <= secs <= 8 && k <= |es|
    ensures ChainsFit(fatSize, ClustersUsed(es[..k], secs) + 1, PlaceChains(es, secs)[k..]) <==>
            forall i: nat | k <= i < |es| && es[i].size > 0 :: PlaceFits(es, secs, fatSize, i)
    decreases |es| - k
  {
    hide InRow, RowEnd, PlaceFits, ClustersUsed, ClustersOf, WindowStart, PlaceChain;
    var cs := PlaceChains(es, secs);
    if k < |es| {
      RestExact(es, secs, fatSize, k + 1);
      assert cs[k..][0] == cs[k] && cs[k..][1..] == cs[k + 1..];
      NextExact(es, secs, fatSize, k, cs[k..]);
    }
  }

  lemma NextExact(es: seq<Extent>, secs: nat, fatSize: nat, k: nat, cs: seq<Chain>)
    requires InRow(es, 0) && 1 <= secs <= 8 && k < |es| && cs != [] && cs[0] == PlaceChain(es[k], secs)
    ensures ChainsFit(fatSize, ClustersUsed(es[..k], secs) + 1, cs) <==>
            && (es[k].size > 0 ==> PlaceFits(es, secs, fatSize, k))
            && ChainsFit(fatSize, ClustersUsed(es[..k + 1], secs) + 1, cs[1..])
  {
    hide InRow, RowEnd, ClustersUsed, ClustersOf, WindowStart;
    UsedStep(es, secs, k);
    NoBytes(es[k].size, secs);
    if es[k].size > 0 && PlaceFits(es, secs, fatSize, k) {
      NextReach(es, secs, fatSize, k);
    }
  }

  /** What is used up to some extent is where that one ends, or an earlier one. */
  lemma {:induction false} UsedIsAnEnd(es: seq<Extent>, secs: nat, k: nat)
    requires secs > 0 && k <= |es|
    ensures ClustersUsed(es[..k], secs) == 0 ||
            exists i: nat | i < k && es[i].size > 0 :: ClustersUsed(es[..k], secs) == PlaceEnd(es[i], secs)
  {
    hide PlaceEnd, ClustersUsed;
    if k == 0 {
      assert es[..k] == [];
      NothingUsed(secs);
    } else {
      UsedStep(es, secs, k - 1);
      UsedIsAnEnd(es, secs, k - 1);
    }
  }

  lemma NothingUsed(secs: nat)
    requires secs > 0
    ensures ClustersUsed([], secs) == 0
  {
  }

  lemma {:induction false} UsedGrows(es: seq<Extent>, secs: nat, i: nat, k: nat)
    requires secs > 0 && NoOverlap(es, secs) && i <= k <= |es|
    ensures ClustersUsed(es[..i], secs) <= ClustersUsed(es[..k], secs)
    decreases k - i
  {
    hide ClustersOf, ClustersUsed;
    if i < k {
      UsedGrows(es, secs, i, k - 1);
      UsedStep(es, secs, k - 1);
    }
  }

  ghost predicate AllFit(es: seq<Extent>, secs: nat, fatSize: nat)
    requires secs > 0
  {
    forall i: nat | i < |es| && es[i].size > 0 :: PlaceFits(es, secs, fatSize, i)
  }

  lemma LastFits(es: seq<Extent>, secs: nat, fatSize: nat)
    requires secs > 0 && fatSize >= 8 && AllFit(es, secs, fatSize)
    ensures NoOverlap(es, secs) && 4 * (ClustersUsed(es, secs) + CLUSTER_OFFSET) <= fatSize
  {
    hide ClustersOf, ClustersUsed, PlaceFits, PlaceEnd;
    forall i: nat | i < |es| && es[i].size > 0
      ensures ClustersUsed(es[..i], secs) <= es[i].start * 8 / secs
      ensures 4 * (PlaceEnd(es[i], secs) + CLUSTER_OFFSET) <= fatSize
    {
      FitMeans(es, secs, fatSize, i);
    }
    assert es[..|es|] == es;
    UsedIsAnEnd(es, secs, |es|);
  }

  lemma FitMeans(es: seq<Extent>, secs: nat, fatSize: nat, i: nat)
    requires secs > 0 && i < |es|
    ensures PlaceFits(es, secs, fatSize, i) <==>
            && ClustersUsed(es[..i], secs) <= es[i].start * 8 / secs
            && 4 * (PlaceEnd(es[i], secs) + CLUSTER_OFFSET) <= fatSize
  {
    hide ClustersOf, ClustersUsed;
  }

  lemma LastDecides(es: seq<Extent>, secs: nat, fatSize: nat)
    requires secs > 0 && NoOverlap(es, secs) && 4 * (ClustersUsed(es, secs) + CLUSTER_OFFSET) <= fatSize
    ensures AllFit(es, secs, fatSize)
  {
    hide ClustersOf, ClustersUsed, PlaceFits, PlaceEnd;
    assert es[..|es|] == es;
    forall i: nat | i < |es| && es[i].size > 0 ensures PlaceFits(es, secs, fatSize, i) {
      UsedStep(es, secs, i);
      UsedGrows(es, secs, i + 1, |es|);
      FitMeans(es, secs, fatSize, i);
    }
  }

  /**
   * The chains of extents in a row fit exactly if no first cluster is rounded down into the extent before, and the
   * table has an entry for each cluster up to the last one that is used, the two reserved ones counted.
   */
  lemma RowExact(es: seq<Extent>, secs: nat, fatSize: nat)
    requires InRow(es, 0) && 1 <= secs <= 8 && fatSize >= 8
    ensures ChainsFit(fatSize, 1, PlaceChains(es, secs)) <==>
            NoOverlap(es, secs) && 4 * (ClustersUsed(es, secs) + CLUSTER_OFFSET) <= fatSize
  {
    hide InRow, ChainsFit, PlaceFits, ClustersUsed, NoOverlap, PlaceChain;
    assert es[..0] == [] && PlaceChains(es, secs)[0..] == PlaceChains(es, secs);
    NothingUsed(secs);
    RestExact(es, secs, fatSize, 0);
    if AllFit(es, secs, fatSize) {
      LastFits(es, secs, fatSize);
    }
    if NoOverlap(es, secs) && 4 * (ClustersUsed(es, secs) + CLUSTER_OFFSET) <= fatSize {
      LastDecides(es, secs, fatSize);
    }
  }

  /**
   * If blocks are whole clusters, no extent uses more clusters than its blocks are, and all of them for eight sectors.
   */
  lemma {:induction false} UsedWithin(es: seq<Extent>, secs: nat, k: nat)
    requires InRow(es, 0) && secs in {1, 2, 4, 8} && k <= |es|
    ensures ClustersUsed(es[..k], secs) <= 8 / secs * RowEnd(es[..k], 0)
    ensures secs == 8 ==> ClustersUsed(es[..k], secs) == RowEnd(es[..k], 0)
  {
    hide BlockCount, PlaceEnd, ClustersUsed, RowEnd;
    assert es[..0] == [];
    NothingUsed(secs);
    EmptyRow();
    if k > 0 {
      UsedWithin(es, secs, k - 1);
      RowStep(es, 0, k - 1);
      UsedStep(es, secs, k - 1);
      NoBytes(es[k - 1].size, secs);
      if es[k - 1].size > 0 {
        OneWithin(es[k - 1], secs);
      }
    }
  }

  lemma WholeNoOverlap(es: seq<Extent>, secs: nat)
    requires InRow(es, 0) && secs in {1, 2, 4, 8}
    ensures NoOverlap(es, secs) && ClustersUsed(es, secs) <= 8 / secs * RowEnd(es, 0)
    ensures secs == 8 ==> ClustersUsed(es, secs) == RowEnd(es, 0)
  {
    hide RowEnd, ClustersUsed;
    forall i: nat | i < |es| && es[i].size > 0 ensures ClustersUsed(es[..i], secs) <= es[i].start * 8 / secs {
      UsedWithin(es, secs, i);
      StartCluster(es[i].start, secs);
    }
    assert es[..|es|] == es;
    UsedWithin(es, secs, |es|);
  }

  /** So they always fit if blocks are whole clusters and all blocks of the row have their entries. */
  lemma RowFits(es: seq<Extent>, secs: nat, fatSize: nat)
    requires InRow(es, 0) && secs in {1, 2, 4, 8} && 4 * (8 / secs * RowEnd(es, 0) + CLUSTER_OFFSET) <= fatSize
    ensures ChainsFit(fatSize, 1, PlaceChains(es, secs))
  {
    hide InRow, RowEnd, ChainsFit, ClustersUsed, NoOverlap;
    WholeNoOverlap(es, secs);
    RowExact(es, secs, fatSize);
  }

  /**
   * For other cluster sizes the first clusters are rounded down: of two full blocks the second one runs into the first.
   */
  lemma RoundedOverlap(secs: nat, fatSize: nat)
    requires 1 <= secs <= 8 && 8 % secs != 0
    ensures var es := [Extent(0, PREFERRED), Extent(1, PREFERRED)];
            InRow(es, 0) && !ChainsFit(fatSize, 1, PlaceChains(es, secs))
  {
    var es := [Extent(0, PREFERRED), Extent(1, PREFERRED)];
    CountBlocks(PREFERRED);
    assert es[..0] == [] && es[..1] == [Extent(0, PREFERRED)];
    assert es[..1][..0] == [];
    var cs := PlaceChains(es, secs);
    match secs {
      case 3 | 5 | 6 | 7 =>
        assert cs[0].index == 2 && cs[1].index <= cs[0].index + cs[0].count - 1 && cs[1].count > 0;
    }
  }

  /** All rows whose clusters have entries in the table have chains that fit exactly if blocks are whole clusters. */
  lemma PlacementExact(secs: nat)
    requires 1 <= secs <= 8
    ensures 8 % secs == 0 <==>
            forall es: seq<Extent>, fatSize: nat |
              InRow(es, 0) && fatSize >= 8 && 4 * (ClustersUsed(es, secs) + CLUSTER_OFFSET) <= fatSize ::
                ChainsFit(fatSize, 1, PlaceChains(es, secs))
  {
    hide InRow, RowEnd, ChainsFit, PlaceChains, ClustersUsed, NoOverlap;
    if 8 % secs == 0 {
      DivisorsOfEight(secs);
      forall es: seq<Extent>, fatSize: nat |
        InRow(es, 0) && fatSize >= 8 && 4 * (ClustersUsed(es, secs) + CLUSTER_OFFSET) <= fatSize
        ensures ChainsFit(fatSize, 1, PlaceChains(es, secs))
      {
        WholeNoOverlap(es, secs);
        RowExact(es, secs, fatSize);
      }
    } else {
      var es := [Extent(0, PREFERRED), Extent(1, PREFERRED)];
      RoundedOverlap(secs, 4 * (ClustersUsed(es, secs) + CLUSTER_OFFSET));
    }
  }

  /* The table that the size of the volume gives. */

  /** How many entries the sectors of the table have. */
  function TableEntries(clusters: nat): nat {
    (clusters + 127) / 128 * 128
  }

  lemma EntriesOfTable(clusters: nat, fatSize: nat)
    requires TableFor(clusters, fatSize)
    ensures fatSize == 4 * TableEntries(clusters)
  {
  }

  /**
   * Where a row lies inside the clusters of its volume, the table that goes with the volume is too short exactly if the
   * row uses the last cluster, or the one before it, of a multiple of 128, or the last of one less.
   */
  lemma TableShort(clusters: nat, used: nat)
    requires used <= clusters
    ensures used + CLUSTER_OFFSET > TableEntries(clusters) <==>
            (clusters % 128 == 0 && used + 1 >= clusters) || (clusters % 128 == 127 && used == clusters)
  {
  }

  /** When the chains of a row fit the table that goes with the volume. */
  lemma VolumeExact(es: seq<Extent>, sectors: nat, secs: nat, fatSize: nat)
    requires InRow(es, 0) && sectors >= MIN_SECTORS && ClusterSectors(sectors, secs)
             && TableFor(sectors / secs, fatSize)
    ensures ChainsFit(fatSize, 1, PlaceChains(es, secs)) <==>
            NoOverlap(es, secs) && ClustersUsed(es, secs) + CLUSTER_OFFSET <= TableEntries(sectors / secs)
    ensures 8 % secs == 0 ==> NoOverlap(es, secs)
    ensures secs == 8 ==> ClustersUsed(es, secs) == RowEnd(es, 0)
  {
    hide InRow, RowEnd, ChainsFit, PlaceChains, ClustersUsed, NoOverlap;
    EntriesOfTable(sectors / secs, fatSize);
    SomeClusters(sectors, secs);
    RowExact(es, secs, fatSize);
    if 8 % secs == 0 {
      DivisorsOfEight(secs);
      WholeNoOverlap(es, secs);
    }
  }

  lemma SomeClusters(sectors: nat, secs: nat)
    requires sectors >= MIN_SECTORS && ClusterSectors(sectors, secs)
    ensures sectors / secs >= MIN_SECTORS
  {
    FitsBlocks(sectors, secs, MIN_SECTORS);
  }

  /** A volume that is full of 66048 blocks: its table has no room for the last two of them. */
  lemma FullVolume()
    ensures exists es: seq<Extent>, sectors: nat, fatSize: nat ::
              && InRow(es, 0) && 8 * RowEnd(es, 0) == sectors
              && ClusterSectors(sectors, 8) && TableFor(sectors / 8, fatSize)
              && !ChainsFit(fatSize, 1, PlaceChains(es, 8))
  {
    var n := 66048;
    var es := [Extent(0, PREFERRED * n)];
    assert es[..0] == [];
    CountBlocks(PREFERRED * n);
    assert InRow(es, 0) && RowEnd(es, 0) == n;
    assert ClusterSectors(8 * n, 8) && TableFor(8 * n / 8, 4 * n);
    hide InRow, RowEnd, ChainsFit, PlaceChains, ClustersUsed, NoOverlap;
    VolumeExact(es, 8 * n, 8, 4 * n);
    assert TableEntries(8 * n / 8) == n;
  }

  /* The files of a tree behind a gap for the directories. */

  /**
   * In the tree of a file system for which a gap was made in front, each block behind it has an owner, and no other.
   */
  lemma OwnedBehindGap(s: State, n: nat)
    requires Ok(s) && Slack(s) == n && forall b: nat | b < n :: !Owned(s.files, s.bs, b)
    ensures n <= s.off && forall b: nat :: Owned(s.files, s.bs, b) <==> n <= b < s.off
  {
    hide StoredCount, Owned, Interval, OwnedBlocks, Disjoint, Padded, HolesInside, Below, FreeIsZero;
    var o := OwnedBlocks(s.files, s.bs);
    OwnedSize(s.files, s.bs);
    assert s.off - Used(s.files, s.bs) == n;
    var all := Interval(n, s.off - n);
    IntervalSize(n, s.off - n);
    forall b | b in o ensures b in all {
      OwnedBelow(s, b);
    }
    SubsetSize(o, all);
    assert forall b: nat :: b in all <==> n <= b < s.off;
  }

  ghost function ExtentsOf(fs: seq<File>): (r: seq<Extent>)
    ensures |r| == |fs| && forall i | 0 <= i < |fs| :: r[i] == Extent(fs[i].start, fs[i].size)
  {
    seq(|fs|, i requires 0 <= i < |fs| => Extent(fs[i].start, fs[i].size))
  }

  /** Files without holes that lie apart, own all blocks of a range, and are sorted by their first block. */
  ghost predicate Filling(fs: seq<File>, from: nat, to: nat) {
    && Apart(fs, PREFERRED) && (forall i | 0 <= i < |fs| :: fs[i].sparse == {})
    && (forall b: nat :: Owned(fs, PREFERRED, b) <==> from <= b < to)
    && forall i, j | 0 <= i < j < |fs| :: fs[i].start <= fs[j].start
  }

  lemma AllStored(f: File)
    requires f.sparse == {}
    ensures StoredCount(f, PREFERRED) == BlockCount(f.size, PREFERRED)
    ensures f.size > 0 ==> StoredCount(f, PREFERRED) > 0
  {
    hide BlockCount;
    CountBlocks(f.size);
    RankNone(BlockCount(f.size, PREFERRED));
  }

  /** What the first `k` files own is a row of blocks. */
  ghost predicate FrontOwns(fs: seq<File>, from: nat, k: nat)
    requires k <= |fs|
  {
    forall b: nat :: Owned(fs[..k], PREFERRED, b) <==> from <= b < RowEnd(ExtentsOf(fs)[..k], from)
  }

  lemma NextInRow(fs: seq<File>, from: nat, to: nat, k: nat)
    requires Filling(fs, from, to) && k < |fs| && FrontOwns(fs, from, k) && fs[k].size > 0
    ensures fs[k].start == RowEnd(ExtentsOf(fs)[..k], from)
  {
    hide StoredCount, BlockCount, RowEnd, ExtentsOf;
    var f, e := fs[k], RowEnd(ExtentsOf(fs)[..k], from);
    AllStored(f);
    assert Owns(f, PREFERRED, f.start) && Owned(fs, PREFERRED, f.start);
    forall i | 0 <= i < k ensures !Owns(fs[..k][i], PREFERRED, f.start) {
      assert Disjoint(fs[i], f, PREFERRED);
    }
    assert !Owned(fs[..k], PREFERRED, f.start);
    assert !Owned(fs[..k], PREFERRED, e);
    forall i | 0 <= i < |fs| ensures Owns(fs[i], PREFERRED, e) ==> f.start <= e {
      assert i < k ==> !Owns(fs[..k][i], PREFERRED, e);
      assert i > k ==> f.start <= fs[i].start;
    }
    assert Owned(fs, PREFERRED, e) <==> from <= e < to;
  }

  lemma OneMoreOwns(fs: seq<File>, from: nat, k: nat)
    requires k < |fs| && FrontOwns(fs, from, k) && fs[k].sparse == {}
    requires fs[k].size > 0 ==> fs[k].start == RowEnd(ExtentsOf(fs)[..k], from)
    ensures FrontOwns(fs, from, k + 1)
  {
    hide StoredCount, BlockCount, RowEnd, ExtentsOf;
    var f, e := fs[k], RowEnd(ExtentsOf(fs)[..k], from);
    AllStored(f);
    RowStep(ExtentsOf(fs), from, k);
    assert ExtentsOf(fs)[k].size == f.size;
    var a, b := fs[..k], fs[..k + 1];
    forall x: nat ensures Owned(b, PREFERRED, x) <==> Owned(a, PREFERRED, x) || Owns(f, PREFERRED, x) {
      if Owned(a, PREFERRED, x) {
        var i :| 0 <= i < k && Owns(a[i], PREFERRED, x);
        assert Owns(b[i], PREFERRED, x);
      }
      if Owns(f, PREFERRED, x) {
        assert Owns(b[k], PREFERRED, x);
      }
      if Owned(b, PREFERRED, x) {
        var i :| 0 <= i < k + 1 && Owns(b[i], PREFERRED, x);
        assert i < k ==> Owns(a[i], PREFERRED, x);
      }
    }
    SizeZero(f.size);
  }

  lemma SizeZero(size: nat)
    ensures size == 0 <==> BlockCount(size, PREFERRED) == 0
  {
    CountBlocks(size);
  }

  /** Sorted by their first block, the files of such a tree lie in a row. */
  lemma {:induction false} FrontInRow(fs: seq<File>, from: nat, to: nat, k: nat)
    requires Filling(fs, from, to) && k <= |fs|
    ensures InRow(ExtentsOf(fs)[..k], from) && FrontOwns(fs, from, k)
  {
    hide StoredCount, BlockCount, Filling, FrontOwns;
    var es := ExtentsOf(fs);
    if k == 0 {
      NoneOwns(fs, from);
    } else {
      FrontInRow(fs, from, to, k - 1);
      assert es[..k] == es[..k - 1] + [es[k - 1]];
      if fs[k - 1].size > 0 {
        NextInRow(fs, from, to, k - 1);
      }
      RowLonger(es[..k - 1], from, es[k - 1]);
      NoHolesIn(fs, from, to, k - 1);
      OneMoreOwns(fs, from, k - 1);
    }
  }

  lemma NoneOwns(fs: seq<File>, from: nat)
    ensures FrontOwns(fs, from, 0)
  {
  }

  lemma NoHolesIn(fs: seq<File>, from: nat, to: nat, k: nat)
    requires Filling(fs, from, to) && k < |fs|
    ensures fs[k].sparse == {}
  {
  }

  lemma FilesInRow(fs: seq<File>, from: nat, to: nat)
    requires Filling(fs, from, to) && from <= to
    ensures InRow(ExtentsOf(fs), from) && RowEnd(ExtentsOf(fs), from) == to
  {
    hide StoredCount, BlockCount, InRow;
    FrontInRow(fs, from, to, |fs|);
    assert ExtentsOf(fs)[..|fs|] == ExtentsOf(fs) && fs[..|fs|] == fs;
    var e := RowEnd(ExtentsOf(fs), from);
    assert Owned(fs, PREFERRED, e) <==> from <= e < to;
    assert Owned(fs, PREFERRED, to) <==> from <= to < e;
  }

  /** Another order of the files does not matter for who owns what. */
  lemma {:induction false} Reordered(fs: seq<File>, gs: seq<File>)
    requires multiset(fs) == multiset(gs) && Apart(fs, PREFERRED)
    ensures Apart(gs, PREFERRED) && forall b: nat :: Owned(gs, PREFERRED, b) <==> Owned(fs, PREFERRED, b)
  {
    hide StoredCount, Disjoint;
    forall b: nat ensures Owned(gs, PREFERRED, b) <==> Owned(fs, PREFERRED, b) {
      if Owned(gs, PREFERRED, b) {
        var i :| 0 <= i < |gs| && Owns(gs[i], PREFERRED, b);
        assert gs[i] in multiset(fs);
      }
      if Owned(fs, PREFERRED, b) {
        var i :| 0 <= i < |fs| && Owns(fs[i], PREFERRED, b);
        assert fs[i] in multiset(gs);
      }
    }
    ApartReordered(fs, gs);
  }

  lemma {:induction false} ApartReordered(fs: seq<File>, gs: seq<File>)
    requires multiset(fs) == multiset(gs) && Apart(fs, PREFERRED)
    ensures Apart(gs, PREFERRED)
    decreases |gs|
  {
    hide StoredCount, Disjoint;
    if gs != [] {
      var j := PermutedHead(gs, fs);
      var rest := fs[..j] + fs[j + 1..];
      forall x, y | 0 <= x < |rest| && 0 <= y < |rest| && x != y ensures Disjoint(rest[x], rest[y], PREFERRED) {
        assert Disjoint(fs[if x < j then x else x + 1], fs[if y < j then y else y + 1], PREFERRED);
      }
      ApartReordered(rest, gs[1..]);
      forall y | 0 < y < |gs| ensures Disjoint(gs[0], gs[y], PREFERRED) && Disjoint(gs[y], gs[0], PREFERRED) {
        assert gs[1..][y - 1] in multiset(rest);
        var z :| 0 <= z < |rest| && rest[z] == gs[y];
        var i := if z < j then z else z + 1;
        assert Disjoint(fs[i], fs[j], PREFERRED) && Disjoint(fs[j], fs[i], PREFERRED);
      }
      forall x, y | 0 <= x < |gs| && 0 <= y < |gs| && x != y ensures Disjoint(gs[x], gs[y], PREFERRED) {
        assert x > 0 && y > 0 ==> Disjoint(gs[1..][x - 1], gs[1..][y - 1], PREFERRED);
      }
    }
  }

  lemma TreeFilling(s: State, t: State, n: nat, fs: seq<File>)
    requires Ok(s) && s.bs == PREFERRED && Slack(s) == 0 && (forall i | 0 <= i < |s.files| :: s.files[i].sparse == {})
    requires Gapped(s, t, 0, n)
    requires multiset(fs) == multiset(t.files) && forall i, j | 0 <= i < j < |fs| :: fs[i].start <= fs[j].start
    ensures n <= t.off && Filling(fs, n, t.off)
  {
    hide StoredCount, Padded, HolesInside, Below, FreeIsZero, GapOpened, Contents, Used;
    GapKeeps(s, t, 0, n);
    assert Apart(t.files, PREFERRED);
    forall b: nat | b < n ensures !Owned(t.files, PREFERRED, b) {
      forall i | 0 <= i < |t.files| ensures !Owns(t.files[i], PREFERRED, b) {
      }
    }
    OwnedBehindGap(t, n);
    Reordered(t.files, fs);
    forall i | 0 <= i < |fs| ensures fs[i].sparse == {} {
      assert fs[i] in multiset(t.files);
    }
  }

  /**
   * The directories in a gap in front, and the files of a tree without holes or lost blocks behind it, sorted by their
   * first block, are a row up to the high-water mark.
   */
  lemma TreeInRow(s: State, t: State, n: nat, dirs: seq<Extent>, fs: seq<File>)
    requires Ok(s) && s.bs == PREFERRED && Slack(s) == 0 && (forall i | 0 <= i < |s.files| :: s.files[i].sparse == {})
    requires InRow(DirPlaces(dirs), 0) && RowEnd(DirPlaces(dirs), 0) == n
    requires Gapped(s, t, 0, n)
    requires multiset(fs) == multiset(t.files) && forall i, j | 0 <= i < j < |fs| :: fs[i].start <= fs[j].start
    ensures InRow(TreeRow(dirs, fs), 0) && RowEnd(TreeRow(dirs, fs), 0) == t.off
  {
    hide Ok, Slack, Gapped, InRow, RowEnd, Filling, DirPlace;
    TreeFilling(s, t, n, fs);
    FilesInRow(fs, n, t.off);
    RowConcat(DirPlaces(dirs), ExtentsOf(fs), 0);
  }

  ghost function TreeRow(dirs: seq<Extent>, fs: seq<File>): seq<Extent> {
    DirPlaces(dirs) + ExtentsOf(fs)
  }

  /**
   * For such a tree, on a volume of some number of sectors: when the chains fit the table that the volume gets. With
   * eight sectors in a cluster that is decided by the high-water mark alone.
   */
  lemma TreeExact(s: State, t: State, n: nat, dirs: seq<Extent>, fs: seq<File>, sectors: nat, secs: nat, fatSize: nat)
    requires Ok(s) && s.bs == PREFERRED && Slack(s) == 0 && (forall i | 0 <= i < |s.files| :: s.files[i].sparse == {})
    requires InRow(DirPlaces(dirs), 0) && RowEnd(DirPlaces(dirs), 0) == n
    requires forall i | 0 <= i < |dirs| :: dirs[i].start % PREFERRED == 0
    requires Gapped(s, t, 0, n)
    requires multiset(fs) == multiset(t.files) && forall i, j | 0 <= i < j < |fs| :: fs[i].start <= fs[j].start
    requires sectors >= MIN_SECTORS && ClusterSectors(sectors, secs) && TableFor(sectors / secs, fatSize)
    ensures var row := TreeRow(dirs, fs);
            && (ChainsFit(fatSize, 1, Chains(dirs, Adjusted(ExtentsOf(fs), secs), secs * SECTOR_SIZE)) <==>
                  NoOverlap(row, secs) && ClustersUsed(row, secs) + CLUSTER_OFFSET <= TableEntries(sectors / secs))
            && (8 % secs == 0 ==> NoOverlap(row, secs))
            && (secs == 8 ==> ClustersUsed(row, secs) == t.off)
  {
    hide Ok, Slack, Gapped, InRow, RowEnd, ChainsFit, Chains, PlaceChain, ClustersUsed, NoOverlap, TableFor,
      ClusterSectors, TableEntries;
    TreeInRow(s, t, n, dirs, fs);
    VolumeExact(TreeRow(dirs, fs), sectors, secs, fatSize);
    SecsBound(sectors, secs);
    ChainsOfPlaces(dirs, ExtentsOf(fs), secs);
  }

  lemma SecsBound(sectors: nat, secs: nat)
    requires ClusterSectors(sectors, secs)
    ensures 1 <= secs <= 8
  {
  }

  lemma DivisorsOfEight(secs: nat)
    requires 1 <= secs <= 8 && 8 % secs == 0
    ensures secs in {1, 2, 4, 8}
  {
  }
}
