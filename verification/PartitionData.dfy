/** What becomes of the data of the partitions when one of them changes its size. */
module PartitionData {
  import opened Bytes
  import opened Volumes
  import opened Mbr

  /** Every block of every partition, as far as the partition still has it, is at its new place what it was. */
  ghost predicate DataKept(ps: seq<Part>, qs: seq<Part>, d0: Disk, d1: Disk)
    requires |qs| == |ps|
  {
    forall j: nat | j < |ps| :: PartKept(ps[j], qs[j], d0, d1)
  }

  ghost predicate PartKept(p: Part, q: Part, d0: Disk, d1: Disk) {
    forall r: nat | r < p.count && r < q.count :: BlockKept(p, q, d0, d1, r)
  }

  ghost predicate BlockKept(p: Part, q: Part, d0: Disk, d1: Disk, r: nat) {
    Blk(d1, SECTOR_SIZE, q.index + r) == Blk(d0, SECTOR_SIZE, p.index + r)
  }

  ghost predicate IsClear(d: Disk, b: nat) {
    Blk(d, SECTOR_SIZE, b) == Zeros(SECTOR_SIZE)
  }

  ghost predicate ClearAt(p: Part, d: Disk, r: nat) {
    IsClear(d, p.index + r)
  }

  /** No partition gets larger, and none changes its slot. */
  ghost predicate Narrowed(ps: seq<Part>, qs: seq<Part>) {
    && Layout(ps) && Layout(qs) && |qs| == |ps|
    && forall j: nat | j < |ps| :: qs[j].count <= ps[j].count
  }

  /** The blocks that are given back have been clear. */
  ghost predicate FreedClear(ps: seq<Part>, qs: seq<Part>, d: Disk)
    requires |qs| == |ps|
  {
    forall j: nat, r: nat | j < |ps| && qs[j].count <= r < ps[j].count :: ClearAt(ps[j], d, r)
  }

  /** The first slot whose partition gives blocks back. */
  ghost function FirstGiver(ps: seq<Part>, qs: seq<Part>, i: nat): (k: nat)
    requires |qs| == |ps| && i <= |ps|
    ensures i <= k <= |ps|
    ensures forall j: nat | i <= j < k :: qs[j].count >= ps[j].count
    ensures k < |ps| ==> qs[k].count < ps[k].count
    decreases |ps| - i
  {
    if i == |ps| || qs[i].count < ps[i].count then i else FirstGiver(ps, qs, i + 1)
  }

  /**
   * The shrinks change nothing that is kept: nobody gives anything back; or each block that comes to lie lower holds
   * what is there already, and the one that comes to lie last is clear.
   */
  ghost predicate ShrinkRepeats(ps: seq<Part>, qs: seq<Part>, d: Disk)
    requires Narrowed(ps, qs)
  {
    FirstGiver(ps, qs, 0) == |ps| || forall j: nat | j < |ps| :: PartRepeats(ps[j], qs[j], End(qs), d)
  }

  ghost predicate PartRepeats(p: Part, q: Part, end: nat, d: Disk) {
    forall r: nat | r < q.count :: BlockRepeats(p, q, end, d, r)
  }

  ghost predicate BlockRepeats(p: Part, q: Part, end: nat, d: Disk, r: nat) {
    if q.index + r + 1 == end then IsClear(d, p.index + r) else BlockKept(p, q, d, d, r)
  }

  /**
   * If what is given back has been clear, that comes to this: nobody gives anything back; or only the last partition
   * does, and the last block it keeps is clear; or all behind the first that does is clear.
   */
  ghost predicate ShrinkHarmless(ps: seq<Part>, qs: seq<Part>, d: Disk)
    requires Narrowed(ps, qs)
  {
    var k := FirstGiver(ps, qs, 0);
    if k == |ps| then true
    else if k == |ps| - 1 then LastKeptClear(ps[k], qs[k], d)
    else forall b: nat | ps[k].index + ps[k].count <= b < End(ps) :: IsClear(d, b)
  }

  ghost predicate LastKeptClear(p: Part, q: Part, d: Disk) {
    q.count > 0 ==> IsClear(d, p.index + q.count - 1)
  }

  /* Where the partitions lie after the shrinks. */

  /** A partition lies lower by what those before it have given back. */
  lemma {:induction false} LowerBy(ps: seq<Part>, qs: seq<Part>, j: nat)
    requires Narrowed(ps, qs) && j < |ps|
    ensures qs[j].index <= ps[j].index
    ensures qs[j].index < ps[j].index <==> FirstGiver(ps, qs, 0) < j
  {
    hide Sized;
    if j > 0 {
      LowerBy(ps, qs, j - 1);
      assert Adjacent(ps, j - 1) && Adjacent(qs, j - 1);
    }
  }

  lemma EndLower(ps: seq<Part>, qs: seq<Part>)
    requires Narrowed(ps, qs)
    ensures End(qs) <= End(ps) && (End(qs) < End(ps) <==> FirstGiver(ps, qs, 0) < |ps|)
  {
    hide Sized;
    if ps != [] {
      LowerBy(ps, qs, |ps| - 1);
    }
  }

  /** Every block of the used region belongs to a partition. */
  lemma {:induction false} Locate(ps: seq<Part>, b: nat, i: nat) returns (j: nat)
    requires Layout(ps) && i < |ps| && ps[i].index <= b < End(ps)
    ensures i <= j < |ps| && ps[j].index <= b < ps[j].index + ps[j].count
    decreases |ps| - i
  {
    hide Sized;
    if b < ps[i].index + ps[i].count {
      j := i;
    } else {
      assert Adjacent(ps, i);
      j := Locate(ps, b, i + 1);
    }
  }

  /** What lies before the first one that gives, and what that one keeps, stays in place. */
  lemma GiverStays(ps: seq<Part>, qs: seq<Part>, j: nat)
    requires Narrowed(ps, qs) && FirstGiver(ps, qs, 0) < |ps|
    ensures var k := FirstGiver(ps, qs, 0);
            && (j <= k ==> qs[j].index == ps[j].index && ps[j].index + qs[j].count <= ps[k].index + qs[k].count)
            && (k < j < |ps| ==> ps[k].index + qs[k].count <= qs[j].index < ps[j].index)
            && (k + 1 < |ps| ==> ps[k].index + qs[k].count < End(qs))
            && (k + 1 == |ps| ==> ps[k].index + qs[k].count == End(qs))
            && ps[k].count > qs[k].count > 0
  {
    var k := FirstGiver(ps, qs, 0);
    SlotFacts(ps, k);
    SlotFacts(qs, k);
    LowerBy(ps, qs, k);
    if j < k {
      LowerBy(ps, qs, j);
      SlotOrder(qs, j, k);
    } else if k < j < |ps| {
      LowerBy(ps, qs, j);
      SlotOrder(qs, k, j);
    }
    if k + 1 < |ps| {
      SlotOrder(qs, k, |qs| - 1);
      SlotFacts(qs, |qs| - 1);
    }
  }

  lemma NothingGiven(ps: seq<Part>, qs: seq<Part>, d0: Disk, d1: Disk)
    requires Narrowed(ps, qs) && ShrunkDisk(ps, qs, d0, d1) && FirstGiver(ps, qs, 0) == |ps|
    ensures DataKept(ps, qs, d0, d1)
  {
    hide Layout, Blk, End;
    EndLower(ps, qs);
    forall j: nat | j < |ps| ensures PartKept(ps[j], qs[j], d0, d1) {
      LowerBy(ps, qs, j);
    }
  }

  /** Slots up to the first one that gives keep their data, but for the last block of the last partition. */
  lemma FrontKept(ps: seq<Part>, qs: seq<Part>, d0: Disk, d1: Disk, j: nat, r: nat)
    requires Narrowed(ps, qs) && ShrunkDisk(ps, qs, d0, d1) && FirstGiver(ps, qs, 0) < |ps|
    requires j <= FirstGiver(ps, qs, 0) && r < qs[j].count && r < ps[j].count
    ensures ps[j].index + r + 1 < End(qs) ==> BlockKept(ps[j], qs[j], d0, d1, r)
    ensures ps[j].index + r + 1 == End(qs) ==> (BlockKept(ps[j], qs[j], d0, d1, r) <==> ClearAt(ps[j], d0, r))
    ensures ps[j].index + r + 1 <= End(qs)
  {
    hide Layout, Blk, End;
    EndLower(ps, qs);
    GiverStays(ps, qs, j);
  }

  lemma LastExact(ps: seq<Part>, qs: seq<Part>, d0: Disk, d1: Disk)
    requires Narrowed(ps, qs) && ShrunkDisk(ps, qs, d0, d1) && FirstGiver(ps, qs, 0) == |ps| - 1
    ensures DataKept(ps, qs, d0, d1) <==> LastKeptClear(ps[|ps| - 1], qs[|ps| - 1], d0)
  {
    hide Layout, Blk, End, ShrunkDisk, IsClear;
    var k := |ps| - 1;
    var p, q := ps[k], qs[k];
    GiverStays(ps, qs, k);
    FrontKept(ps, qs, d0, d1, k, q.count - 1);
    if LastKeptClear(p, q, d0) {
      forall j: nat | j < |ps| ensures PartKept(ps[j], qs[j], d0, d1) {
        forall r: nat | r < ps[j].count && r < qs[j].count ensures BlockKept(ps[j], qs[j], d0, d1, r) {
          GiverStays(ps, qs, j);
          FrontKept(ps, qs, d0, d1, j, r);
          LastOnly(ps, qs, j, r);
        }
      }
    }
    if DataKept(ps, qs, d0, d1) {
      assert PartKept(p, q, d0, d1);
      assert BlockKept(p, q, d0, d1, q.count - 1);
    }
  }

  lemma LastOnly(ps: seq<Part>, qs: seq<Part>, j: nat, r: nat)
    requires Narrowed(ps, qs) && FirstGiver(ps, qs, 0) == |ps| - 1 && j < |ps| && r < qs[j].count && r < ps[j].count
    ensures ps[j].index + r + 1 == End(qs) ==> j == |ps| - 1 && r == qs[j].count - 1
  {
    hide Sized;
    var k := |ps| - 1;
    GiverStays(ps, qs, j);
    GiverStays(ps, qs, k);
    if j < k {
      SlotOrder(ps, j, k);
    }
  }

  /** If the data is kept, what is behind repeats what is before it, down to what was freed: it is all clear. */
  lemma {:induction false} ClearDescent(ps: seq<Part>, qs: seq<Part>, d0: Disk, d1: Disk, b: nat)
    requires Narrowed(ps, qs) && ShrunkDisk(ps, qs, d0, d1) && FirstGiver(ps, qs, 0) < |ps|
    requires FreedClear(ps, qs, d0) && DataKept(ps, qs, d0, d1)
    requires var k := FirstGiver(ps, qs, 0); ps[k].index + qs[k].count <= b < End(ps)
    ensures IsClear(d0, b)
    decreases b
  {
    hide Layout, Blk, End, ShrunkDisk;
    var k := FirstGiver(ps, qs, 0);
    var j := Locate(ps, b, k);
    var r := b - ps[j].index;
    if r >= qs[j].count {
      assert ClearAt(ps[j], d0, r);
    } else {
      GiverStays(ps, qs, j);
      assert PartKept(ps[j], qs[j], d0, d1);
      assert BlockKept(ps[j], qs[j], d0, d1, r);
      var y := qs[j].index + r;
      ClearDescent(ps, qs, d0, d1, y);
      StillClear(ps, qs, d0, d1, y);
    }
  }

  lemma StillClear(ps: seq<Part>, qs: seq<Part>, d0: Disk, d1: Disk, b: nat)
    requires ShrunkDisk(ps, qs, d0, d1) && IsClear(d0, b)
    ensures IsClear(d1, b)
  {
    hide Blk, End;
  }

  lemma BehindExact(ps: seq<Part>, qs: seq<Part>, d0: Disk, d1: Disk)
    requires Narrowed(ps, qs) && ShrunkDisk(ps, qs, d0, d1) && FreedClear(ps, qs, d0)
    requires FirstGiver(ps, qs, 0) < |ps| - 1
    ensures var k := FirstGiver(ps, qs, 0);
            DataKept(ps, qs, d0, d1) <==> forall b: nat | ps[k].index + ps[k].count <= b < End(ps) :: IsClear(d0, b)
  {
    hide Layout, Blk, End, ShrunkDisk, IsClear;
    var k := FirstGiver(ps, qs, 0);
    GiverStays(ps, qs, k);
    if DataKept(ps, qs, d0, d1) {
      forall b: nat | ps[k].index + ps[k].count <= b < End(ps) ensures IsClear(d0, b) {
        ClearDescent(ps, qs, d0, d1, b);
      }
    }
    if forall b: nat | ps[k].index + ps[k].count <= b < End(ps) :: IsClear(d0, b) {
      forall j: nat | j < |ps| ensures PartKept(ps[j], qs[j], d0, d1) {
        forall r: nat | r < ps[j].count && r < qs[j].count ensures BlockKept(ps[j], qs[j], d0, d1, r) {
          GiverStays(ps, qs, j);
          if j <= k {
            FrontKept(ps, qs, d0, d1, j, r);
          } else {
            BehindKept(ps, qs, d0, d1, j, r);
          }
        }
      }
    }
  }

  lemma BehindKept(ps: seq<Part>, qs: seq<Part>, d0: Disk, d1: Disk, j: nat, r: nat)
    requires Narrowed(ps, qs) && ShrunkDisk(ps, qs, d0, d1) && FreedClear(ps, qs, d0)
    requires FirstGiver(ps, qs, 0) < j < |ps| && r < ps[j].count && r < qs[j].count
    requires var k := FirstGiver(ps, qs, 0);
             forall b: nat | ps[k].index + ps[k].count <= b < End(ps) :: IsClear(d0, b)
    ensures BlockKept(ps[j], qs[j], d0, d1, r)
  {
    hide Layout, Blk, End, ShrunkDisk;
    var k := FirstGiver(ps, qs, 0);
    GiverStays(ps, qs, j);
    SlotFacts(ps, j);
    BehindStart(ps, k);
    assert IsClear(d0, ps[j].index + r);
    var y := qs[j].index + r;
    if y < ps[k].index + ps[k].count {
      assert ClearAt(ps[k], d0, y - ps[k].index);
    } else {
      assert IsClear(d0, y);
    }
    StillClear(ps, qs, d0, d1, y);
  }

  lemma RepeatsOrNot(ps: seq<Part>, qs: seq<Part>, d0: Disk, d1: Disk, j: nat, r: nat)
    requires Narrowed(ps, qs) && ShrunkDisk(ps, qs, d0, d1) && FirstGiver(ps, qs, 0) < |ps|
    requires j < |ps| && r < qs[j].count
    ensures BlockKept(ps[j], qs[j], d0, d1, r) <==> BlockRepeats(ps[j], qs[j], End(qs), d0, r)
  {
    hide Layout, Blk, End;
    EndLower(ps, qs);
    SlotFacts(qs, j);
  }

  /** Shrinking keeps the data of all partitions exactly if what is to move down is there already. */
  lemma ShrinkKeepsExact(ps: seq<Part>, qs: seq<Part>, d0: Disk, d1: Disk)
    requires Narrowed(ps, qs) && ShrunkDisk(ps, qs, d0, d1)
    ensures DataKept(ps, qs, d0, d1) <==> ShrinkRepeats(ps, qs, d0)
  {
    hide Layout, Blk, End, ShrunkDisk, IsClear, BlockKept, BlockRepeats;
    if FirstGiver(ps, qs, 0) == |ps| {
      NothingGiven(ps, qs, d0, d1);
    } else {
      forall j: nat | j < |ps|
        ensures PartKept(ps[j], qs[j], d0, d1) <==> PartRepeats(ps[j], qs[j], End(qs), d0)
      {
        forall r: nat | r < qs[j].count
          ensures BlockKept(ps[j], qs[j], d0, d1, r) <==> BlockRepeats(ps[j], qs[j], End(qs), d0, r)
        {
          RepeatsOrNot(ps, qs, d0, d1, j, r);
        }
      }
    }
  }

  /** Where what is freed has been clear, that means that all behind is clear, or the last block that is kept. */
  lemma ShrinkClearExact(ps: seq<Part>, qs: seq<Part>, d0: Disk, d1: Disk)
    requires Narrowed(ps, qs) && ShrunkDisk(ps, qs, d0, d1) && FreedClear(ps, qs, d0)
    ensures DataKept(ps, qs, d0, d1) <==> ShrinkHarmless(ps, qs, d0)
  {
    hide Layout, Blk, End, ShrunkDisk, IsClear, DataKept, FreedClear, LastKeptClear;
    var k := FirstGiver(ps, qs, 0);
    if k == |ps| {
      NothingGiven(ps, qs, d0, d1);
    } else if k == |ps| - 1 {
      LastExact(ps, qs, d0, d1);
    } else {
      BehindExact(ps, qs, d0, d1);
    }
  }

  /* One shrink, a growth, and a commit. */

  lemma OneGiver(ps: seq<Part>, k: nat, c: nat)
    requires Layout(ps) && k < |ps| && Sized(ps[k].(count := c)) && c < ps[k].count
    ensures var qs := Moved(ps, k, c);
            && Narrowed(ps, qs) && FirstGiver(ps, qs, 0) == k && qs[k] == ps[k].(count := c)
            && (forall j: nat | j < |ps| && j != k :: qs[j].count == ps[j].count)
            && End(qs) == End(ps) - ps[k].count + c
  {
    hide Layout, Sized, Moved, End;
    MovedLayout(ps, k, c);
    forall j: nat | j < |ps| ensures Moved(ps, k, c)[j].count == if j == k then c else ps[j].count {
      MovedAt(ps, k, c, j);
    }
    MovedAt(ps, k, c, k);
  }

  /**
   * A partition that gives blocks back keeps the data of all exactly if it is the last and the last block that it keeps
   * is clear, or it is not, each block behind it but the last of all holds what lies as far before it as is given back,
   * and the last of all is clear.
   */
  lemma ShrinkOneExact(ps: seq<Part>, k: nat, c: nat, d0: Disk, d1: Disk)
    requires Layout(ps) && k < |ps| && Sized(ps[k].(count := c)) && c < ps[k].count && GaveBack(ps, k, c, d0, d1)
    ensures DataKept(ps, Moved(ps, k, c), d0, d1) <==>
            if k == |ps| - 1 then IsClear(d0, ps[k].index + c - 1)
            else IsClear(d0, End(ps) - 1) && RepeatsBehind(ps, k, ps[k].count - c, d0)
  {
    hide Layout, Moved, End, Blk, IsClear, DataKept, RepeatsBehind, ShrinkRepeats;
    OneGiver(ps, k, c);
    if k == |ps| - 1 {
      LastExact(ps, Moved(ps, k, c), d0, d1);
    } else {
      ShrinkKeepsExact(ps, Moved(ps, k, c), d0, d1);
      OneRepeats(ps, k, c, d0);
    }
  }

  ghost predicate RepeatsBehind(ps: seq<Part>, k: nat, n: nat, d: Disk)
    requires k < |ps| && n <= ps[k].count
  {
    forall b: nat | ps[k].index + ps[k].count <= b < End(ps) - 1 :: SameBelow(d, b, n)
  }

  ghost predicate SameBelow(d: Disk, b: nat, n: nat) {
    n <= b && Blk(d, SECTOR_SIZE, b - n) == Blk(d, SECTOR_SIZE, b)
  }

  lemma OneRepeats(ps: seq<Part>, k: nat, c: nat, d: Disk)
    requires Layout(ps) && k < |ps| - 1 && Sized(ps[k].(count := c)) && c < ps[k].count
    requires Narrowed(ps, Moved(ps, k, c))
    ensures ShrinkRepeats(ps, Moved(ps, k, c), d) <==>
            IsClear(d, End(ps) - 1) && RepeatsBehind(ps, k, ps[k].count - c, d)
  {
    hide Layout, Moved, End, Blk, IsClear;
    var qs, n := Moved(ps, k, c), ps[k].count - c;
    OneGiver(ps, k, c);
    SlotFacts(ps, |ps| - 1);
    BehindStart(ps, k);
    if ShrinkRepeats(ps, qs, d) {
      forall b: nat | ps[k].index + ps[k].count <= b < End(ps)
        ensures if b + 1 == End(ps) then IsClear(d, b) else SameBelow(d, b, n)
      {
        OneAt(ps, k, c, d, b);
      }
      assert ps[k].index + ps[k].count <= End(ps) - 1;
    }
    if IsClear(d, End(ps) - 1) && RepeatsBehind(ps, k, n, d) {
      forall j: nat | j < |ps| ensures PartRepeats(ps[j], qs[j], End(qs), d) {
        forall r: nat | r < qs[j].count ensures BlockRepeats(ps[j], qs[j], End(qs), d, r) {
          OneBlock(ps, k, c, d, j, r);
        }
      }
    }
  }

  lemma OneAt(ps: seq<Part>, k: nat, c: nat, d: Disk, b: nat)
    requires Layout(ps) && k < |ps| - 1 && Sized(ps[k].(count := c)) && c < ps[k].count
    requires Narrowed(ps, Moved(ps, k, c)) && ShrinkRepeats(ps, Moved(ps, k, c), d)
    requires ps[k].index + ps[k].count <= b < End(ps)
    ensures if b + 1 == End(ps) then IsClear(d, b) else SameBelow(d, b, ps[k].count - c)
  {
    hide Layout, Moved, End, Blk, IsClear;
    var qs := Moved(ps, k, c);
    OneGiver(ps, k, c);
    assert Adjacent(ps, k) by {
      NextIsAdjacent(ps, k);
    }
    var j := Locate(ps, b, k + 1);
    MovedAt(ps, k, c, j);
    assert PartRepeats(ps[j], qs[j], End(qs), d);
    assert BlockRepeats(ps[j], qs[j], End(qs), d, b - ps[j].index);
  }

  lemma NextIsAdjacent(ps: seq<Part>, k: nat)
    requires Layout(ps) && k + 1 < |ps|
    ensures Adjacent(ps, k)
  {
  }

  lemma OneBlock(ps: seq<Part>, k: nat, c: nat, d: Disk, j: nat, r: nat)
    requires Layout(ps) && k < |ps| - 1 && Sized(ps[k].(count := c)) && c < ps[k].count
    requires j < |ps| && r < Moved(ps, k, c)[j].count
    requires IsClear(d, End(ps) - 1) && RepeatsBehind(ps, k, ps[k].count - c, d)
    ensures BlockRepeats(ps[j], Moved(ps, k, c)[j], End(Moved(ps, k, c)), d, r)
  {
    hide Layout, Moved, End, Blk, IsClear;
    var qs, n := Moved(ps, k, c), ps[k].count - c;
    OneGiver(ps, k, c);
    MovedAt(ps, k, c, j);
    SlotFacts(ps, j);
    SlotFacts(ps, |ps| - 1);
    SlotOrder(ps, k, |ps| - 1);
    if k < j {
      SlotOrder(ps, k, j);
      assert ps[j].index + r + 1 < End(ps) ==> SameBelow(d, ps[j].index + r, n);
    } else if j < k {
      SlotOrder(ps, j, k);
    }
  }

  /**
   * A partition that gives blocks back, clear ones, keeps the data of all exactly if it is not the last and all behind
   * it is clear, or it is the last and the last block that it keeps is clear.
   */
  lemma ShrinkOneClear(ps: seq<Part>, k: nat, c: nat, d0: Disk, d1: Disk)
    requires Layout(ps) && k < |ps| && Sized(ps[k].(count := c)) && c < ps[k].count && GaveBack(ps, k, c, d0, d1)
    requires forall r: nat | c <= r < ps[k].count :: ClearAt(ps[k], d0, r)
    ensures DataKept(ps, Moved(ps, k, c), d0, d1) <==>
            if k == |ps| - 1 then IsClear(d0, ps[k].index + c - 1)
            else forall b: nat | ps[k].index + ps[k].count <= b < End(ps) :: IsClear(d0, b)
  {
    hide Layout, Moved, End, Blk, IsClear, DataKept;
    OneGiver(ps, k, c);
    ShrinkClearExact(ps, Moved(ps, k, c), d0, d1);
  }

  /** Behind what a partition uses, its blocks are clear, as its creation has left them. */
  ghost predicate UnusedClear(ps: seq<Part>, d: Disk) {
    forall j: nat, r: nat | j < |ps| && ps[j].used <= r < ps[j].count :: ClearAt(ps[j], d, r)
  }

  lemma FitNarrows(ps: seq<Part>, i: nat)
    requires Layout(ps) && UsedFits(ps)
    ensures Narrowed(ps, FitFrom(ps, i))
    ensures forall j: nat | j < |ps| && FitFrom(ps, i)[j].count < ps[j].count :: ps[j].used <= FitFrom(ps, i)[j].count
    ensures forall j: nat | j < i && j < |ps| :: FitFrom(ps, i)[j] == ps[j]
  {
    var qs := FitFrom(ps, i);
    FitExact(ps, i);
    hide FitFrom, Fitted;
    forall j: nat | j < |ps|
      ensures qs[j].count <= ps[j].count && (qs[j].count < ps[j].count ==> ps[j].used <= qs[j].count)
    {
      SlotFacts(ps, j);
      FittedSize(ps[j]);
    }
  }

  /** Only unused blocks are given back. */
  lemma UnusedFreed(ps: seq<Part>, i: nat, d: Disk)
    requires Layout(ps) && UsedFits(ps) && UnusedClear(ps, d)
    ensures Narrowed(ps, FitFrom(ps, i)) && FreedClear(ps, FitFrom(ps, i), d)
  {
    hide FitFrom, Layout, UsedFits, ClearAt;
    FitNarrows(ps, i);
  }

  /** The partitions from slot `i` on giving back what they do not use: what decides whether all data is kept. */
  lemma FitKeepsExact(ps: seq<Part>, i: nat, d0: Disk, d1: Disk)
    requires Layout(ps) && UsedFits(ps) && ShrunkDisk(ps, FitFrom(ps, i), d0, d1)
    ensures Narrowed(ps, FitFrom(ps, i))
    ensures DataKept(ps, FitFrom(ps, i), d0, d1) <==> ShrinkRepeats(ps, FitFrom(ps, i), d0)
    ensures FreedClear(ps, FitFrom(ps, i), d0) ==>
              (ShrinkRepeats(ps, FitFrom(ps, i), d0) <==> ShrinkHarmless(ps, FitFrom(ps, i), d0))
  {
    hide *;
    FitNarrows(ps, i);
    ShrinkKeepsExact(ps, FitFrom(ps, i), d0, d1);
    if FreedClear(ps, FitFrom(ps, i), d0) {
      ShrinkClearExact(ps, FitFrom(ps, i), d0, d1);
    }
  }

  lemma RoomPlace(qs: seq<Part>, k: nat, n: nat, j: nat)
    requires Layout(qs) && k < |qs| && j < |qs|
    ensures var m, at := Moved(qs, k, qs[k].count + n)[j], qs[k].index + qs[k].count;
            && m.count == (if j == k then qs[k].count + n else qs[j].count)
            && m.index == (if j <= k then qs[j].index else qs[j].index + n)
            && (if j <= k then qs[j].index + qs[j].count <= at
                else at <= qs[j].index && qs[j].index + qs[j].count <= End(qs))
  {
    hide Layout, Moved, End, Sized;
    MovedAt(qs, k, qs[k].count + n, j);
    SlotFacts(qs, j);
    if j < k {
      SlotOrder(qs, j, k);
    } else if k < j {
      SlotOrder(qs, k, j);
    }
  }

  lemma RoomAt(qs: seq<Part>, k: nat, n: nat, d: Disk, d1: Disk, b: nat)
    requires k < |qs| && RoomDisk(qs, k, n, d, d1)
    ensures var at := qs[k].index + qs[k].count;
            && (b < at ==> Blk(d1, SECTOR_SIZE, b) == Blk(d, SECTOR_SIZE, b))
            && (at <= b < End(qs) ==> Blk(d1, SECTOR_SIZE, b + n) == Blk(d, SECTOR_SIZE, b))
  {
    hide Blk, End;
    assert Blk(d1, SECTOR_SIZE, b + n) == Blk(d1, SECTOR_SIZE, b + n);
  }

  /** Making room behind a partition moves each block of each partition to its new place. */
  lemma RoomBlock(qs: seq<Part>, k: nat, n: nat, d: Disk, d1: Disk, j: nat, r: nat)
    requires Layout(qs) && k < |qs| && j < |qs| && RoomDisk(qs, k, n, d, d1) && r < qs[j].count
    ensures Moved(qs, k, qs[k].count + n)[j].count == if j == k then qs[k].count + n else qs[j].count
    ensures BlockKept(qs[j], Moved(qs, k, qs[k].count + n)[j], d, d1, r)
  {
    hide Layout, Blk, Moved, End, Sized, RoomDisk;
    RoomPlace(qs, k, n, j);
    RoomAt(qs, k, n, d, d1, qs[j].index + r);
  }

  /** Making room keeps as much of the data as there was before, and of what was given back only clear blocks. */
  lemma RoomKeeps(p: Part, qs: seq<Part>, k: nat, n: nat, d0: Disk, d: Disk, d1: Disk, j: nat)
    requires Layout(qs) && k < |qs| && j < |qs| && RoomDisk(qs, k, n, d, d1)
    ensures PartKept(p, Moved(qs, k, qs[k].count + n)[j], d0, d1) <==>
            PartKept(p, qs[j], d0, d) && (j == k ==> RegainedClear(p, qs[k].count, n, d0))
  {
    hide Layout, Moved, RoomDisk, BlockKept, IsClear;
    var m := Moved(qs, k, qs[k].count + n)[j];
    SlotFacts(qs, j);
    RoomBlock(qs, k, n, d, d1, j, 0);
    forall r: nat | r < p.count && r < qs[j].count
      ensures BlockKept(p, m, d0, d1, r) <==> BlockKept(p, qs[j], d0, d, r)
    {
      RoomBlock(qs, k, n, d, d1, j, r);
      KeptAlong(p, qs[j], m, d0, d, d1, r);
    }
    forall r: nat | qs[j].count <= r < p.count && r < m.count
      ensures BlockKept(p, m, d0, d1, r) <==> ClearAt(p, d0, r)
    {
      MovedAt(qs, k, qs[k].count + n, j);
      RoomIsClear(qs, k, n, d, d1);
      assert ClearAt(qs[k], d1, r);
      BothClear(p, m, d0, d1, r);
    }
  }

  /** Of the blocks from `c` on, the first `n` have been clear, as far as the partition had them. */
  ghost predicate RegainedClear(p: Part, c: nat, n: nat, d: Disk) {
    forall r: nat | c <= r < p.count && r < c + n :: ClearAt(p, d, r)
  }

  lemma BothClear(p: Part, q: Part, d0: Disk, d1: Disk, r: nat)
    requires IsClear(d1, q.index + r)
    ensures BlockKept(p, q, d0, d1, r) <==> IsClear(d0, p.index + r)
  {
  }

  lemma KeptAlong(p: Part, q: Part, m: Part, d0: Disk, d: Disk, d1: Disk, r: nat)
    requires BlockKept(q, m, d, d1, r)
    ensures BlockKept(p, m, d0, d1, r) <==> BlockKept(p, q, d0, d, r)
  {
  }

  lemma RoomKeepsAll(ps: seq<Part>, qs: seq<Part>, k: nat, n: nat, d0: Disk, d: Disk, d1: Disk)
    requires Narrowed(ps, qs) && k < |qs| && RoomDisk(qs, k, n, d, d1)
    ensures DataKept(ps, Moved(qs, k, qs[k].count + n), d0, d1) <==>
            DataKept(ps, qs, d0, d) && RegainedClear(ps[k], qs[k].count, n, d0)
  {
    hide Layout, Moved, PartKept, RoomDisk, RegainedClear;
    var m := Moved(qs, k, qs[k].count + n);
    forall j: nat | j < |ps|
      ensures PartKept(ps[j], m[j], d0, d1) <==>
              PartKept(ps[j], qs[j], d0, d) && (j == k ==> RegainedClear(ps[k], qs[k].count, n, d0))
    {
      RoomKeeps(ps[j], qs, k, n, d0, d, d1, j);
    }
  }

  /**
   * A growth keeps the data of all partitions exactly if the shrinks behind it do. The data up to the partition that
   * grows it always keeps, and what is added reads as zeros.
   */
  lemma GrowKeepsExact(ps: seq<Part>, k: nat, n: nat, d0: Disk, d1: Disk)
    requires Layout(ps) && UsedFits(ps) && k < |ps| && GrownDisk(ps, k, n, d0, d1)
    ensures Narrowed(ps, FitFrom(ps, k + 1))
    ensures var r := Moved(FitFrom(ps, k + 1), k, ps[k].count + n);
            && (DataKept(ps, r, d0, d1) <==> ShrinkRepeats(ps, FitFrom(ps, k + 1), d0))
            && (forall j: nat | j <= k :: PartKept(ps[j], r[j], d0, d1))
            && (forall b: nat | ps[k].count <= b < ps[k].count + n :: ClearAt(ps[k], d1, b))
  {
    hide Layout, UsedFits, FitFrom, Moved, DataKept, ShrinkRepeats, PartKept, ShrunkDisk, RoomDisk, Narrowed;
    var qs := FitFrom(ps, k + 1);
    FitNarrows(ps, k + 1);
    var d: Disk :| ShrunkDisk(ps, qs, d0, d) && RoomDisk(qs, k, n, d, d1);
    ShrinkKeepsExact(ps, qs, d0, d);
    RoomKeepsAll(ps, qs, k, n, d0, d, d1);
    forall j: nat | j <= k ensures PartKept(ps[j], Moved(qs, k, ps[k].count + n)[j], d0, d1) {
      UpToKept(ps, qs, k, d0, d, j);
      RoomKeeps(ps[j], qs, k, n, d0, d, d1, j);
    }
    RoomIsClear(qs, k, n, d, d1);
    assert qs[k] == ps[k];
  }

  /** If nobody behind has anything to give back, a growth keeps all data, whatever unused blocks hold. */
  lemma GrowKeepsData(ps: seq<Part>, k: nat, n: nat, d0: Disk, d1: Disk)
    requires Layout(ps) && UsedFits(ps) && k < |ps| && GrownDisk(ps, k, n, d0, d1)
    requires forall j | k < j < |ps| :: Fitted(ps[j]) == ps[j].count
    ensures DataKept(ps, Moved(ps, k, ps[k].count + n), d0, d1)
    ensures forall b: nat | ps[k].count <= b < ps[k].count + n :: ClearAt(ps[k], d1, b)
  {
    hide Layout, UsedFits, FitFrom, Moved, DataKept, PartKept, GrownDisk, ClearAt, Fitted;
    FitNothing(ps, k + 1);
    GrowKeepsExact(ps, k, n, d0, d1);
  }

  /** Where what is given back has been clear, a growth keeps all data exactly if the shrinks behind it do no harm. */
  lemma GrowClearExact(ps: seq<Part>, k: nat, n: nat, d0: Disk, d1: Disk)
    requires Layout(ps) && UsedFits(ps) && k < |ps| && GrownDisk(ps, k, n, d0, d1)
    requires FreedClear(ps, FitFrom(ps, k + 1), d0)
    ensures Narrowed(ps, FitFrom(ps, k + 1))
    ensures DataKept(ps, Moved(FitFrom(ps, k + 1), k, ps[k].count + n), d0, d1) <==>
            ShrinkHarmless(ps, FitFrom(ps, k + 1), d0)
  {
    hide Layout, UsedFits, FitFrom, Moved, DataKept, ShrinkRepeats, ShrinkHarmless, PartKept, ShrunkDisk, RoomDisk,
      Narrowed, FreedClear, ClearAt;
    GrowKeepsExact(ps, k, n, d0, d1);
    var d: Disk :| ShrunkDisk(ps, FitFrom(ps, k + 1), d0, d);
    FitKeepsExact(ps, k + 1, d0, d);
  }

  lemma RoomIsClear(qs: seq<Part>, k: nat, n: nat, d: Disk, d1: Disk)
    requires k < |qs| && RoomDisk(qs, k, n, d, d1)
    ensures forall b: nat | qs[k].count <= b < qs[k].count + n :: ClearAt(qs[k], d1, b)
  {
    hide Blk, End;
  }

  lemma UpToKept(ps: seq<Part>, qs: seq<Part>, k: nat, d0: Disk, d: Disk, j: nat)
    requires Narrowed(ps, qs) && ShrunkDisk(ps, qs, d0, d) && j <= k < |ps|
    requires forall i: nat | i <= k :: qs[i] == ps[i]
    ensures PartKept(ps[j], qs[j], d0, d)
  {
    hide Layout, Blk, End, ShrunkDisk;
    if FirstGiver(ps, qs, 0) == |ps| {
      NothingGiven(ps, qs, d0, d);
    } else {
      forall r: nat | r < ps[j].count && r < qs[j].count ensures BlockKept(ps[j], qs[j], d0, d, r) {
        GiverStays(ps, qs, j);
        NotTheLast(ps, qs, j);
        FrontKept(ps, qs, d0, d, j, r);
      }
    }
  }

  lemma NotTheLast(ps: seq<Part>, qs: seq<Part>, j: nat)
    requires Narrowed(ps, qs) && j < FirstGiver(ps, qs, 0) < |ps|
    ensures ps[j].index + ps[j].count < End(qs)
  {
    hide Sized;
    var k := FirstGiver(ps, qs, 0);
    GiverStays(ps, qs, k);
    SlotOrder(ps, j, k);
    SlotFacts(qs, k);
  }

  /**
   * A commit keeps the data of all partitions exactly if the shrinks do, and the partition that fills the disk, if one
   * does, gets back only blocks that were clear.
   */
  lemma CommitKeepsExact(ps: seq<Part>, limit: nat, d0: Disk, d1: Disk)
    requires Layout(ps) && UsedFits(ps) && CommittedDisk(ps, limit, d0, d1)
    ensures |Committed(ps, limit)| == |ps| && Narrowed(ps, FitFrom(ps, 0))
    ensures var fs, f := FitFrom(ps, 0), FillSlot(ps, 0);
            DataKept(ps, Committed(ps, limit), d0, d1) <==>
            && ShrinkRepeats(ps, fs, d0)
            && (Fills(ps, limit) ==> RegainedClear(ps[f], fs[f].count, limit - End(fs) - fs[f].count, d0))
  {
    hide Layout, UsedFits, FitFrom, Moved, DataKept, ShrinkRepeats, ShrunkDisk, RoomDisk, Narrowed, End, RegainedClear;
    var fs, f := FitFrom(ps, 0), FillSlot(ps, 0);
    FitNarrows(ps, 0);
    if Fills(ps, limit) {
      var n: nat := limit - End(fs) - fs[f].count;
      var d: Disk :| ShrunkDisk(ps, fs, d0, d) && RoomDisk(fs, f, n, d, d1);
      ShrinkKeepsExact(ps, fs, d0, d);
      RoomKeepsAll(ps, fs, f, n, d0, d, d1);
    } else {
      ShrinkKeepsExact(ps, fs, d0, d1);
    }
  }

  /** Where what is given back has been clear, a commit keeps all data exactly if its shrinks do no harm. */
  lemma CommitClearExact(ps: seq<Part>, limit: nat, d0: Disk, d1: Disk)
    requires Layout(ps) && UsedFits(ps) && CommittedDisk(ps, limit, d0, d1)
    requires FreedClear(ps, FitFrom(ps, 0), d0)
    ensures |Committed(ps, limit)| == |ps| && Narrowed(ps, FitFrom(ps, 0))
    ensures DataKept(ps, Committed(ps, limit), d0, d1) <==> ShrinkHarmless(ps, FitFrom(ps, 0), d0)
  {
    hide Layout, UsedFits, FitFrom, Moved, DataKept, ShrinkRepeats, ShrinkHarmless, ShrunkDisk, RoomDisk, Narrowed, End,
      ClearAt;
    var fs := FitFrom(ps, 0);
    CommitKeepsExact(ps, limit, d0, d1);
    var d: Disk :| ShrunkDisk(ps, fs, d0, d);
    FitKeepsExact(ps, 0, d0, d);
  }

  /* That what is not used is clear lasts, up to the first shrink that does harm. */

  lemma UnusedKept(ps: seq<Part>, qs: seq<Part>, d0: Disk, d1: Disk)
    requires |qs| == |ps| && UnusedClear(ps, d0) && DataKept(ps, qs, d0, d1)
    requires forall j: nat | j < |ps| :: qs[j].used == ps[j].used
    requires forall j: nat, r: nat | j < |ps| && ps[j].count <= r < qs[j].count :: ClearAt(qs[j], d1, r)
    ensures UnusedClear(qs, d1)
  {
    hide Blk;
    forall j: nat, r: nat | j < |qs| && qs[j].used <= r < qs[j].count ensures ClearAt(qs[j], d1, r) {
      if r < ps[j].count {
        assert PartKept(ps[j], qs[j], d0, d1) && ClearAt(ps[j], d0, r);
        assert BlockKept(ps[j], qs[j], d0, d1, r);
      }
    }
  }

  lemma GrownUnused(ps: seq<Part>, k: nat, n: nat, d0: Disk, d1: Disk)
    requires Layout(ps) && UsedFits(ps) && k < |ps| && UnusedClear(ps, d0) && GrownDisk(ps, k, n, d0, d1)
    requires Narrowed(ps, FitFrom(ps, k + 1)) && ShrinkHarmless(ps, FitFrom(ps, k + 1), d0)
    ensures UnusedClear(Moved(FitFrom(ps, k + 1), k, ps[k].count + n), d1)
  {
    hide Layout, UsedFits, UnusedClear, FitFrom, Moved, DataKept, ShrinkHarmless, ShrunkDisk, RoomDisk, Fitted;
    var qs := FitFrom(ps, k + 1);
    var d: Disk :| ShrunkDisk(ps, qs, d0, d) && RoomDisk(qs, k, n, d, d1);
    FitUnused(ps, k + 1, d0, d);
    FitExact(ps, k + 1);
    RoomUnused(qs, k, n, d, d1);
  }

  lemma FitUnused(ps: seq<Part>, i: nat, d0: Disk, d1: Disk)
    requires Layout(ps) && UsedFits(ps) && UnusedClear(ps, d0) && ShrunkDisk(ps, FitFrom(ps, i), d0, d1)
    requires Narrowed(ps, FitFrom(ps, i)) && ShrinkHarmless(ps, FitFrom(ps, i), d0)
    ensures UnusedClear(FitFrom(ps, i), d1)
  {
    hide Layout, UsedFits, UnusedClear, FitFrom, DataKept, ShrinkHarmless, ShrunkDisk, Fitted, ClearAt, FreedClear;
    UnusedFreed(ps, i, d0);
    FitKeepsExact(ps, i, d0, d1);
    FitExact(ps, i);
    UnusedKept(ps, FitFrom(ps, i), d0, d1);
  }

  lemma CommittedUnused(ps: seq<Part>, limit: nat, d0: Disk, d1: Disk)
    requires Layout(ps) && UsedFits(ps) && UnusedClear(ps, d0) && CommittedDisk(ps, limit, d0, d1)
    requires Narrowed(ps, FitFrom(ps, 0)) && ShrinkHarmless(ps, FitFrom(ps, 0), d0)
    ensures UnusedClear(Committed(ps, limit), d1)
  {
    hide Layout, UsedFits, UnusedClear, FitFrom, Moved, ShrinkHarmless, ShrunkDisk, RoomDisk, Fitted, End;
    var fs, f := FitFrom(ps, 0), FillSlot(ps, 0);
    if Fills(ps, limit) {
      var n: nat := limit - End(fs) - fs[f].count;
      var d: Disk :| ShrunkDisk(ps, fs, d0, d) && RoomDisk(fs, f, n, d, d1);
      FitUnused(ps, 0, d0, d);
      RoomUnused(fs, f, n, d, d1);
    } else {
      FitUnused(ps, 0, d0, d1);
    }
  }

  lemma RoomUnused(qs: seq<Part>, k: nat, n: nat, d: Disk, d1: Disk)
    requires Layout(qs) && k < |qs| && UnusedClear(qs, d) && RoomDisk(qs, k, n, d, d1)
    ensures UnusedClear(Moved(qs, k, qs[k].count + n), d1)
  {
    hide Layout, Moved, RoomDisk, Blk;
    var m := Moved(qs, k, qs[k].count + n);
    forall j: nat, r: nat | j < |qs| && m[j].used <= r < m[j].count ensures ClearAt(m[j], d1, r) {
      MovedAt(qs, k, qs[k].count + n, j);
      if r < qs[j].count {
        assert ClearAt(qs[j], d, r);
        RoomBlock(qs, k, n, d, d1, j, r);
      } else {
        RoomIsClear(qs, k, n, d, d1);
        assert ClearAt(qs[k], d1, r);
      }
    }
  }

  /** A change of size counts all of its partition as used, whatever was in there. */
  lemma ResizedUnused(ps: seq<Part>, k: nat, count: nat, d0: Disk, d1: Disk)
    requires Layout(ps) && UsedFits(ps) && k < |ps| && UnusedClear(ps, d0)
    requires DataKept(ps, ResizedParts(ps, k, count), d0, d1)
    ensures UnusedClear(ResizedParts(ps, k, count)[k := ps[k].(count := count, used := count)], d1)
  {
    hide Layout, UsedFits, FitFrom, Moved, Blk, Fitted;
    var m := ResizedParts(ps, k, count);
    FitNarrows(ps, k + 1);
    FitExact(ps, k + 1);
    var r := m[k := ps[k].(count := count, used := count)];
    forall j: nat, b: nat | j < |r| && r[j].used <= b < r[j].count ensures ClearAt(r[j], d1, b) {
      MovedAt(if count < ps[k].count then ps else FitFrom(ps, k + 1), k, count, j);
      assert ClearAt(ps[j], d0, b);
      assert PartKept(ps[j], m[j], d0, d1);
      assert BlockKept(ps[j], m[j], d0, d1, b);
    }
  }

  /** A write counts its block as used; all others that are not used stay clear. */
  lemma WrittenUnused(ps: seq<Part>, k: nat, index: nat, d0: Disk, d1: Disk, offset: nat, s: seq<byte>)
    requires Layout(ps) && UsedFits(ps) && k < |ps| && index < ps[k].count && UnusedClear(ps, d0)
    requires PutAt(d0, d1, ps[k].index + index, offset, s)
    ensures UnusedClear(if index >= ps[k].used then ps[k := ps[k].(used := index + 1)] else ps, d1)
  {
    hide Layout, Blk, Splice;
    var qs := if index >= ps[k].used then ps[k := ps[k].(used := index + 1)] else ps;
    forall j: nat, r: nat | j < |qs| && qs[j].used <= r < qs[j].count ensures ClearAt(qs[j], d1, r) {
      assert ClearAt(ps[j], d0, r);
      Apart(ps, j, k, r, index);
    }
  }

  /** So they do when the last used blocks are discarded, or others within what is used. */
  lemma DiscardedUnused(ps: seq<Part>, k: nat, index: nat, n: nat, d0: Disk, d1: Disk)
    requires Layout(ps) && k < |ps| && index + n <= ps[k].used && UnusedClear(ps, d0)
    requires BlocksCleared(d0, d1, SECTOR_SIZE, ps[k].index + index, n)
    ensures UnusedClear(if index + n == ps[k].used then ps[k := ps[k].(used := index)] else ps, d1)
  {
    hide Layout, Blk;
    var qs := if index + n == ps[k].used then ps[k := ps[k].(used := index)] else ps;
    forall j: nat, r: nat | j < |qs| && qs[j].used <= r < qs[j].count ensures ClearAt(qs[j], d1, r) {
      if r >= ps[j].used {
        assert ClearAt(ps[j], d0, r);
      }
    }
  }

  /** A new partition starts out clear. */
  lemma CreatedUnused(ps: seq<Part>, p: Part, d0: Disk, d1: Disk)
    requires UnusedClear(ps, d0) && BlocksCleared(d0, d1, SECTOR_SIZE, p.index, p.count)
    ensures UnusedClear(ps + [p], d1)
  {
    hide Blk;
    forall j: nat, r: nat | j < |ps| + 1 && (ps + [p])[j].used <= r < (ps + [p])[j].count
      ensures ClearAt((ps + [p])[j], d1, r)
    {
      if j < |ps| {
        assert ClearAt(ps[j], d0, r);
      }
    }
  }

  lemma Apart(ps: seq<Part>, j: nat, k: nat, r: nat, o: nat)
    requires Layout(ps) && j < |ps| && k < |ps| && r < ps[j].count && o < ps[k].count
    ensures ps[j].index + r == ps[k].index + o <==> j == k && r == o
  {
    hide Sized;
    if j < k {
      SlotOrder(ps, j, k);
    } else if k < j {
      SlotOrder(ps, k, j);
    }
  }

  /** The data behind a shrink is lost: here the one byte that the second partition holds. */
  lemma ShrinkLosesData()
    ensures exists ps: seq<Part>, d0: Disk, d1: Disk ::
              && Layout(ps) && UsedFits(ps) && |ps| == 2 && GaveBack(ps, 0, ShrunkTo(ps[0], PART_ALIGN), d0, d1)
              && ps[1].used == 1 && !BlockKept(ps[1], Moved(ps, 0, ShrunkTo(ps[0], PART_ALIGN))[1], d0, d1, 0)
  {
    var none := Flags(false, false, 0);
    var ps := [Part(2048, 2048, 4096, 0, none), Part(6144, 2048, 2048, 1, none)];
    var x := [1] + Zeros(SECTOR_SIZE - 1);
    var d0: Disk, d1: Disk := map[6144 := x], map[];
    assert Adjacent(ps, 0);
    assert Layout(ps) && UsedFits(ps);
    MovedAt(ps, 0, 2048, 1);
    assert ShrunkTo(ps[0], PART_ALIGN) == 2048;
    assert x[0] == 1 && Blk(d0, SECTOR_SIZE, 6144) == x;
    assert GaveBack(ps, 0, 2048, d0, d1);
    assert Blk(d1, SECTOR_SIZE, 4096)[0] == 0;
  }

  /** Even a single partition that is full to a whole MiB loses the last block that it uses when it is committed. */
  lemma CommitLosesOwnBlock()
    ensures exists ps: seq<Part>, d0: Disk, d1: Disk ::
              && Layout(ps) && UsedFits(ps) && UnusedClear(ps, d0) && |ps| == 1 && CommittedDisk(ps, MAX_LBA, d0, d1)
              && |Committed(ps, MAX_LBA)| == 1 && ps[0].used == 2048
              && !BlockKept(ps[0], Committed(ps, MAX_LBA)[0], d0, d1, 2047)
  {
    var none := Flags(false, false, 0);
    var ps := [Part(2048, 2048, 4096, 2048, none)];
    var x := [1] + Zeros(SECTOR_SIZE - 1);
    var d0: Disk, d1: Disk := map[4095 := x], map[];
    assert Layout(ps) && UsedFits(ps);
    FitExact(ps, 0);
    var fs := FitFrom(ps, 0);
    assert Fitted(ps[0]) == 2048;
    assert End(fs) == 4096 && End(ps) == 6144;
    assert x[0] == 1 && Blk(d0, SECTOR_SIZE, 4095) == x && Blk(d1, SECTOR_SIZE, 4095)[0] == 0;
    assert UnusedClear(ps, d0);
    assert FillSlot(ps, 0) == 1;
    assert CommittedDisk(ps, MAX_LBA, d0, d1);
  }
}
