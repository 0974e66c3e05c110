/** The partitions of an MBR disk: where they lie, and how they grow and shrink. */
module Mbr {
  import opened Bytes
  import opened Volumes

  const MAX_MBR_PARTITIONS: nat := 4
  const PART_ALIGN: nat := 2048
  const RESERVED: nat := PART_ALIGN
  const MAX_LBA: nat := 0x0FFF_FFFF

  datatype Flags = Flags(grow: bool, fill: bool, other: nat)

  datatype Part = Part(index: nat, min: nat, count: nat, used: nat, flags: Flags)

  /** In slot order, one right behind the other from the reserved area on, in whole MiB, none below its minimum. */
  ghost predicate Layout(ps: seq<Part>) {
    && (ps != [] ==> ps[0].index == RESERVED)
    && (forall i: nat | i + 1 < |ps| :: Adjacent(ps, i))
    && (forall i | 0 <= i < |ps| :: Sized(ps[i]))
  }

  ghost predicate Adjacent(ps: seq<Part>, i: nat)
    requires i + 1 < |ps|
  {
    ps[i + 1].index == ps[i].index + ps[i].count
  }

  ghost predicate Sized(p: Part) {
    p.count % PART_ALIGN == 0 && p.min % PART_ALIGN == 0 && PART_ALIGN <= p.min <= p.count
  }

  ghost predicate OneFill(ps: seq<Part>) {
    forall i, j | 0 <= i < j < |ps| :: !(ps[i].flags.fill && ps[j].flags.fill)
  }

  ghost predicate UsedFits(ps: seq<Part>) {
    forall i | 0 <= i < |ps| :: ps[i].used <= ps[i].count
  }

  /** The first block behind all partitions. */
  ghost function End(ps: seq<Part>): nat {
    if ps == [] then RESERVED else ps[|ps| - 1].index + ps[|ps| - 1].count
  }

  lemma {:induction false} SlotOrder(ps: seq<Part>, i: nat, j: nat)
    requires Layout(ps) && i < j < |ps|
    ensures ps[i].index + ps[i].count <= ps[j].index && ps[i].index < ps[j].index
    ensures ps[j].index + ps[j].count <= End(ps)
    decreases |ps| - i
  {
    assert Sized(ps[i]) && Sized(ps[j]);
    assert Adjacent(ps, i);
    if i + 1 < j {
      SlotOrder(ps, i + 1, j);
    } else {
      if j + 1 < |ps| {
        SlotOrder(ps, j, |ps| - 1);
      }
    }
  }

  /** Slot `k` has `c` blocks, and everything behind moves along. */
  ghost function Moved(ps: seq<Part>, k: nat, c: nat): (r: seq<Part>)
    requires Layout(ps) && k < |ps|
    ensures |r| == |ps|
  {
    seq(|ps|, i requires 0 <= i < |ps| =>
      if i < k then ps[i]
      else if i == k then ps[i].(count := c)
      else (SlotOrder(ps, k, i); ps[i].(index := ps[i].index - ps[k].count + c)))
  }

  lemma MovedAt(ps: seq<Part>, k: nat, c: nat, i: nat)
    requires Layout(ps) && k < |ps| && i < |ps|
    ensures k < i ==> ps[k].count <= ps[i].index
    ensures Moved(ps, k, c)[i] == if i < k then ps[i] else if i == k then ps[i].(count := c)
                                  else ps[i].(index := ps[i].index - ps[k].count + c)
  {
    if k < i {
      SlotOrder(ps, k, i);
    }
  }

  lemma MovedLayout(ps: seq<Part>, k: nat, c: nat)
    requires Layout(ps) && k < |ps| && Sized(ps[k].(count := c))
    ensures Layout(Moved(ps, k, c)) && End(Moved(ps, k, c)) == End(ps) - ps[k].count + c
  {
    hide Moved, Sized;
    var r := Moved(ps, k, c);
    MovedAt(ps, k, c, 0);
    MovedAt(ps, k, c, |ps| - 1);
    forall i: nat | i + 1 < |r| ensures Adjacent(r, i) {
      MovedAt(ps, k, c, i);
      MovedAt(ps, k, c, i + 1);
      assert Adjacent(ps, i);
    }
    forall i | 0 <= i < |r| ensures Sized(r[i]) {
      MovedAt(ps, k, c, i);
      if i != k {
        SizedAlike(ps[i], r[i]);
      }
    }
  }

  lemma SizedAlike(p: Part, q: Part)
    requires q.count == p.count && q.min == p.min
    ensures Sized(q) <==> Sized(p)
  {
  }

  lemma MovedRest(ps: seq<Part>, k: nat, c: nat)
    requires Layout(ps) && k < |ps|
    ensures OneFill(ps) ==> OneFill(Moved(ps, k, c))
    ensures UsedFits(ps) && ps[k].used <= c ==> UsedFits(Moved(ps, k, c))
  {
    hide Moved, Layout;
    forall i | 0 <= i < |ps|
      ensures Moved(ps, k, c)[i].flags == ps[i].flags && Moved(ps, k, c)[i].used == ps[i].used
      ensures Moved(ps, k, c)[i].count == if i == k then c else ps[i].count
    {
      MovedAt(ps, k, c, i);
    }
  }

  /** What is left of a partition that is asked to give back `diff` blocks. */
  function ShrunkTo(p: Part, diff: nat): (c: nat)
  {
    var d := diff - diff % PART_ALIGN;
    if p.count < d + p.min then p.min else p.count - d
  }

  /** That is the least whole number of MiB that is not below the minimum and gives no more than `diff` back. */
  lemma ShrunkLeast(p: Part, diff: nat, x: nat)
    requires Sized(p)
    ensures var c := ShrunkTo(p, diff); c % PART_ALIGN == 0 && p.min <= c <= p.count <= c + diff
    ensures x % PART_ALIGN == 0 && p.min <= x && p.count <= x + diff ==> ShrunkTo(p, diff) <= x
  {
  }

  function RoundUp(n: nat): nat {
    if n % PART_ALIGN == 0 then n else n + PART_ALIGN - n % PART_ALIGN
  }

  /** The smallest size the partition can have: what is used, in whole MiB, and its minimum. */
  function Fitted(p: Part): nat {
    if RoundUp(p.used) < p.min then p.min else RoundUp(p.used)
  }

  lemma RoundUpLeast(n: nat, x: nat)
    ensures RoundUp(n) % PART_ALIGN == 0 && n <= RoundUp(n)
    ensures x % PART_ALIGN == 0 && n <= x ==> RoundUp(n) <= x
  {
  }

  /** That is the least whole number of MiB below neither the minimum nor what is used. */
  lemma FittedLeast(p: Part, x: nat)
    requires Sized(p)
    ensures Fitted(p) % PART_ALIGN == 0 && p.min <= Fitted(p) && p.used <= Fitted(p)
    ensures x % PART_ALIGN == 0 && p.min <= x && p.used <= x ==> Fitted(p) <= x
  {
    hide RoundUp;
    RoundUpLeast(p.used, x);
  }

  /** The partitions from slot `i` on give back what they do not use, one after the other. */
  ghost function FitFrom(ps: seq<Part>, i: nat): (r: seq<Part>)
    requires Layout(ps) && UsedFits(ps)
    ensures Layout(r) && |r| == |ps|
    decreases |ps| - i
  {
    if i >= |ps| then ps
    else
      FitOne(ps, i);
      FitFrom(Moved(ps, i, Fitted(ps[i])), i + 1)
  }

  lemma FitOne(ps: seq<Part>, i: nat)
    requires Layout(ps) && UsedFits(ps) && i < |ps|
    ensures Layout(Moved(ps, i, Fitted(ps[i]))) && UsedFits(Moved(ps, i, Fitted(ps[i])))
    ensures OneFill(ps) ==> OneFill(Moved(ps, i, Fitted(ps[i])))
    ensures End(Moved(ps, i, Fitted(ps[i]))) <= End(ps)
    ensures Sized(ps[i].(count := Fitted(ps[i]))) && Fitted(ps[i]) <= ps[i].count
  {
    hide Moved, Fitted, Sized;
    assert Sized(ps[i]);
    FittedSize(ps[i]);
    MovedLayout(ps, i, Fitted(ps[i]));
    MovedRest(ps, i, Fitted(ps[i]));
  }

  lemma FittedSize(p: Part)
    requires Sized(p) && p.used <= p.count
    ensures Sized(p.(count := Fitted(p))) && p.used <= Fitted(p) <= p.count
    ensures p.used < p.count ==> Fitted(p) == ShrunkTo(p, p.count - p.used)
    ensures p.used == p.count ==> Fitted(p) == p.count
  {
  }

  /** Giving back changes no slot before, brings every one behind to its smallest size, and leaves all else alone. */
  lemma {:induction false} FitExact(ps: seq<Part>, i: nat)
    requires Layout(ps) && UsedFits(ps)
    ensures UsedFits(FitFrom(ps, i)) && (OneFill(ps) ==> OneFill(FitFrom(ps, i)))
    ensures End(FitFrom(ps, i)) <= End(ps)
    ensures var r := FitFrom(ps, i);
            && (forall j | 0 <= j < i && j < |ps| :: r[j] == ps[j])
            && (forall j | i <= j < |ps| :: r[j] == ps[j].(index := r[j].index, count := Fitted(ps[j])))
    decreases |ps| - i
  {
    hide Moved, Fitted, Sized, Layout, UsedFits, OneFill, End;
    if i < |ps| {
      FitOne(ps, i);
      var m := Moved(ps, i, Fitted(ps[i]));
      FitExact(m, i + 1);
      forall j | 0 <= j < |ps|
        ensures m[j] == if j < i then ps[j]
                        else if j == i then ps[j].(count := Fitted(ps[j])) else ps[j].(index := m[j].index)
      {
        MovedAt(ps, i, Fitted(ps[i]), j);
      }
      forall j | i < j < |ps| ensures Fitted(m[j]) == Fitted(ps[j]) {
        FittedAlike(ps[j], m[j]);
      }
    }
  }

  lemma FittedAlike(p: Part, q: Part)
    requires q == p.(index := q.index)
    ensures Fitted(q) == Fitted(p)
  {
  }

  /** If nobody has anything to give back, nothing changes. */
  lemma {:induction false} FitNothing(ps: seq<Part>, i: nat)
    requires Layout(ps) && UsedFits(ps) && forall j | i <= j < |ps| :: Fitted(ps[j]) == ps[j].count
    ensures FitFrom(ps, i) == ps
    decreases |ps| - i
  {
    hide Fitted, Sized, Layout, UsedFits, Moved, OneFill, End;
    if i < |ps| {
      MovedNothing(ps, i);
      FitNothing(ps, i + 1);
    }
  }

  lemma MovedNothing(ps: seq<Part>, i: nat)
    requires Layout(ps) && i < |ps|
    ensures Moved(ps, i, ps[i].count) == ps
  {
    hide Layout, Moved;
    forall j | 0 <= j < |ps| ensures Moved(ps, i, ps[i].count)[j] == ps[j] {
      MovedAt(ps, i, ps[i].count, j);
    }
  }

  /** The capacity that a partition can be grown to: whole MiB of what the volume and 28 bit block numbers allow. */
  function Limit(maxBlockCount: nat): nat {
    var free := if maxBlockCount > MAX_LBA then MAX_LBA else maxBlockCount;
    free - free % PART_ALIGN
  }

  lemma LimitGreatest(maxBlockCount: nat, x: nat)
    ensures var l := Limit(maxBlockCount); l % PART_ALIGN == 0 && l <= maxBlockCount && l <= MAX_LBA
    ensures x % PART_ALIGN == 0 && x <= maxBlockCount && x <= MAX_LBA ==> x <= Limit(maxBlockCount)
  {
  }

  /** A growth, in whole MiB, at least one. */
  function GrowBy(diff: nat): nat {
    if diff % PART_ALIGN != 0 || diff == 0 then diff + PART_ALIGN - diff % PART_ALIGN else diff
  }

  lemma GrowByLeast(diff: nat, x: nat)
    ensures GrowBy(diff) % PART_ALIGN == 0 && 0 < GrowBy(diff) && diff <= GrowBy(diff)
    ensures x % PART_ALIGN == 0 && 0 < x && diff <= x ==> GrowBy(diff) <= x
  {
  }

  ghost function GrownParts(ps: seq<Part>, k: nat, diff: nat): seq<Part>
    requires Layout(ps) && UsedFits(ps) && k < |ps|
  {
    Moved(FitFrom(ps, k + 1), k, ps[k].count + GrowBy(diff))
  }

  class MbrDisk {
    const volume: Volume
    const maxBlockCount: nat
    const partitions: array<Part>
    var partUsed: nat

    constructor (vol: Volume, maxBlockCount: nat)
      requires vol.blocksize == SECTOR_SIZE
      ensures Valid() && volume == vol && this.maxBlockCount == maxBlockCount && Parts() == [] && fresh(partitions)
    {
      volume, this.maxBlockCount, partUsed := vol, maxBlockCount, 0;
      partitions := new Part[MAX_MBR_PARTITIONS](_ => Part(0, 0, 0, 0, Flags(false, false, 0)));
    }

    ghost predicate Shaped()
      reads this, partitions
    {
      volume.blocksize == SECTOR_SIZE && partitions.Length == MAX_MBR_PARTITIONS && partUsed <= MAX_MBR_PARTITIONS
    }

    ghost function Parts(): seq<Part>
      requires Shaped()
      reads this, partitions
    {
      partitions[..partUsed]
    }

    ghost predicate Valid()
      reads this, partitions
    {
      Shaped() && Layout(Parts()) && UsedFits(Parts()) && OneFill(Parts())
    }

    /** The last block of all partitions. */
    method LastBlock() returns (max: nat)
      requires Shaped() && Layout(Parts()) && partUsed > 0
      ensures max == End(Parts()) - 1
    {
      ghost var ps := Parts();
      max := 0;
      var i := 0;
      while i < partUsed
        invariant 0 <= i <= partUsed && max == if i == 0 then 0 else ps[i - 1].index + ps[i - 1].count - 1
      {
        assert Sized(ps[i]) && partitions[i] == ps[i];
        if i > 0 {
          assert Adjacent(ps, i - 1);
        }
        var current := partitions[i].index + partitions[i].count - 1;
        if current > max {
          max := current;
        }
        i := i + 1;
      }
    }

    /** Every partition that starts behind `start` moves. */
    method ShiftBehind(start: nat, up: nat, down: nat)
      requires Shaped() && forall i | 0 <= i < partUsed && partitions[i].index > start :: partitions[i].index >= down
      modifies partitions
      ensures forall i | 0 <= i < partUsed ::
                partitions[i] == if old(partitions[i]).index > start
                                 then old(partitions[i]).(index := old(partitions[i]).index + up - down)
                                 else old(partitions[i])
    {
      var i := 0;
      while i < partUsed
        invariant 0 <= i <= partUsed
        invariant forall j | i <= j < partUsed :: partitions[j] == old(partitions[j])
        invariant forall j | 0 <= j < i ::
                    partitions[j] == if old(partitions[j]).index > start
                                     then old(partitions[j]).(index := old(partitions[j]).index + up - down)
                                     else old(partitions[j])
      {
        if partitions[i].index > start {
          partitions[i] := partitions[i].(index := partitions[i].index + up - down);
        }
        i := i + 1;
      }
    }

    /** Gives back whole MiB, not below the minimum. The blocks behind move down; what they hold does not. */
    method ShrinkPartition(index: nat, amount: nat)
      requires Shaped() && Layout(Parts()) && index < partUsed
      modifies volume, partitions
      ensures Shaped() && Parts() == Moved(old(Parts()), index, ShrunkTo(old(Parts())[index], amount))
      ensures ShrunkTo(old(Parts())[index], amount) == old(Parts())[index].count ==> volume.store == old(volume.store)
      ensures GaveBack(old(Parts()), index, ShrunkTo(old(Parts())[index], amount), old(volume.store), volume.store)
    {
      hide Layout, Sized, End, Blk;
      ghost var ps := Parts();
      SlotFacts(ps, index);
      var start, count, diff := partitions[index].index, partitions[index].count, amount;
      if diff % PART_ALIGN != 0 {
        diff := diff - diff % PART_ALIGN;
      }
      if diff > count {
        diff := count;
      }
      if count - diff < PART_ALIGN {
        diff := count - PART_ALIGN;
      }
      if count - diff < partitions[index].min {
        diff := count - partitions[index].min;
      }
      assert count - diff == ShrunkTo(ps[index], amount);
      if diff == 0 {
        MovedNothing(ps, index);
        return;
      }
      var max := LastBlock();
      volume.DiscardBlocks(max - diff, diff);
      BehindStart(ps, index);
      ShiftBehind(start, 0, diff);
      partitions[index] := partitions[index].(count := partitions[index].count - diff);
      forall i | 0 <= i < |ps| ensures Parts()[i] == Moved(ps, index, count - diff)[i] {
        MovedAt(ps, index, count - diff, i);
      }
    }

    method ShrinkToFit(index: nat)
      requires Shaped() && Layout(Parts()) && UsedFits(Parts()) && index < partUsed
      modifies volume, partitions
      ensures Shaped() && Parts() == Moved(old(Parts()), index, Fitted(old(Parts())[index]))
      ensures Fitted(old(Parts())[index]) == old(Parts())[index].count ==> volume.store == old(volume.store)
      ensures GaveBack(old(Parts()), index, Fitted(old(Parts())[index]), old(volume.store), volume.store)
    {
      hide Layout, Sized, Moved, Fitted, ShrunkTo, GaveBack;
      ghost var ps := Parts();
      SlotFacts(ps, index);
      FittedSize(ps[index]);
      if partitions[index].used >= partitions[index].count {
        MovedNothing(ps, index);
        GaveNothing(ps, index, volume.store);
        return;
      }
      var diff := partitions[index].count - partitions[index].used;
      ShrinkPartition(index, diff);
    }

    /** All partitions that start behind `start`, those from slot `first` on, give back what they do not use. */
    method FitBehind(start: nat, ghost first: nat)
      requires Shaped() && Layout(Parts()) && UsedFits(Parts()) && first <= partUsed
      requires forall i | 0 <= i < partUsed :: partitions[i].index > start <==> i >= first
      modifies volume, partitions
      ensures Shaped() && Parts() == FitFrom(old(Parts()), first)
      ensures ShrunkDisk(old(Parts()), Parts(), old(volume.store), volume.store)
    {
      hide Layout, Sized, Moved, Fitted, UsedFits, OneFill, End, GaveBack, ShrunkDisk, Blk;
      ghost var ps := Parts();
      NothingShrunk(ps, volume.store);
      var i := 0;
      while i < partUsed
        invariant 0 <= i <= partUsed && Shaped() && Layout(Parts()) && UsedFits(Parts())
        invariant FitFrom(Parts(), if i < first then first else i) == FitFrom(ps, first)
        invariant i <= first ==> Parts() == ps
        invariant forall j | i <= j < partUsed :: partitions[j].index > start <==> j >= first
        invariant End(Parts()) <= End(ps) && ShrunkDisk(ps, Parts(), old(volume.store), volume.store)
      {
        if partitions[i].index > start {
          ghost var now := Parts();
          FitOne(now, i);
          ghost var d := volume.store;
          ShrinkToFit(i);
          StillBehind(now, i, Fitted(now[i]), start);
          ShrunkMore(ps, now, i, Fitted(now[i]), old(volume.store), d, volume.store);
        }
        i := i + 1;
      }
    }

    /** The data part of the growth: what lies behind moves up, and zeros are written in its place. */
    method MakeRoom(index: nat, start: nat, count: nat, diff: nat)
      requires Shaped() && Layout(Parts()) && index < partUsed
      requires start == partitions[index].index && count == partitions[index].count
      modifies volume
      ensures RoomDisk(Parts(), index, diff, old(volume.store), volume.store)
    {
      hide Layout, Sized, DiskView, RoomDisk, BlocksCopied, Stored, End;
      SlotFacts(Parts(), index);
      var max := LastBlock();
      ghost var d0 := volume.store;
      MemmoveBlocks(volume, start + count + diff, start + count, max - (start + count - 1));
      ghost var d1 := volume.store;
      VolumeWrite(volume, (start + count) * SECTOR_SIZE, Null(diff * SECTOR_SIZE));
      StoredZeros(DiskView(d1, SECTOR_SIZE), volume.View(), SECTOR_SIZE, start + count, diff);
      DiscardClears(d1, volume.store, SECTOR_SIZE, start + count, diff);
      RoomByMove(Parts(), index, diff, d0, d1, volume.store);
    }

    /**
     * Grows a partition by whole MiB. The partitions behind give back what they do not use, then all that lies behind
     * moves up, and zeros are put in.
     */
    method GrowPartition(index: nat, amount: nat)
      requires Valid() && index < partUsed
      modifies volume, partitions
      ensures Valid() && Parts() == GrownParts(old(Parts()), index, amount)
      ensures GrownDisk(old(Parts()), index, GrowBy(amount), old(volume.store), volume.store)
    {
      hide Layout, Sized, UsedFits, OneFill, FitFrom, ShrunkDisk, RoomDisk, Moved, End;
      ghost var ps := Parts();
      SlotFacts(ps, index);
      BehindStart(ps, index);
      var start, count, diff := partitions[index].index, partitions[index].count, amount;
      FitBehind(start, index + 1);
      ghost var qs, mid := Parts(), volume.store;
      FitAll(ps, qs, index + 1);
      if diff % PART_ALIGN != 0 || diff == 0 {
        diff := diff + (PART_ALIGN - diff % PART_ALIGN);
      }
      MakeRoom(index, start, count, diff);
      assert ShrunkDisk(ps, FitFrom(ps, index + 1), old(volume.store), mid);
      BehindStart(qs, index);
      ShiftBehind(start, diff, 0);
      partitions[index] := partitions[index].(count := partitions[index].count + diff);
      GrownLayout(qs, index, diff);
      forall i | 0 <= i < |qs| ensures Parts()[i] == Moved(qs, index, count + diff)[i] {
        MovedAt(qs, index, count + diff, i);
      }
      assert Parts() == Moved(qs, index, count + diff);
    }

    method GetFreeSpace() returns (left: nat)
      requires Shaped() && Layout(Parts())
      ensures left == if End(Parts()) < Limit(maxBlockCount) then Limit(maxBlockCount) - End(Parts()) else 0
    {
      hide Sized;
      ghost var ps := Parts();
      var used, free := RESERVED, maxBlockCount;
      if free > MAX_LBA {
        free := MAX_LBA;
      }
      if free % PART_ALIGN != 0 {
        free := free - free % PART_ALIGN;
      }
      var i := 0;
      while i < partUsed
        invariant 0 <= i <= partUsed && used == if i == 0 then RESERVED else ps[i - 1].index + ps[i - 1].count
      {
        if i > 0 {
          assert Adjacent(ps, i - 1);
        }
        assert partitions[i] == ps[i];
        used := used + partitions[i].count;
        i := i + 1;
      }
      left := if used < free then free - used else 0;
    }

    /** A partition that is to fill the disk grows up to the limit, if more is free than it has. */
    method ApplyExpandPolicy(index: nat)
      requires Valid() && index < partUsed
      modifies volume, partitions
      ensures Valid()
      ensures var ps, limit := old(Parts()), Limit(maxBlockCount);
              Parts() == if ps[index].flags.fill && End(ps) + ps[index].count < limit
                         then GrownParts(ps, index, limit - End(ps) - ps[index].count) else ps
      ensures var ps, limit := old(Parts()), Limit(maxBlockCount);
              if ps[index].flags.fill && End(ps) + ps[index].count < limit
              then GrownDisk(ps, index, GrowBy(limit - End(ps) - ps[index].count), old(volume.store), volume.store)
              else volume.store == old(volume.store)
    {
      hide Layout, Sized, UsedFits, OneFill, FitFrom, GrownDisk, Moved, GrownParts, End, GrowBy;
      if !partitions[index].flags.fill {
        return;
      }
      var avail := GetFreeSpace();
      if partitions[index].count >= avail {
        return;
      }
      var diff := avail - partitions[index].count;
      GrowPartition(index, diff);
    }

    /** A write behind the end grows the partition, if it may grow. */
    method PartWritePartialBlock(part: nat, index: nat, data: Buffer, offset: nat) returns (ok: bool)
      requires Valid() && part < partUsed && offset + data.Len() <= SECTOR_SIZE
      modifies volume, partitions
      ensures Valid() && (ok <==> index < old(Parts())[part].count || old(Parts())[part].flags.grow)
      ensures !ok ==> Parts() == old(Parts()) && volume.store == old(volume.store)
      ensures ok ==>
                var ps := old(Parts());
                var qs := if index < ps[part].count then ps else GrownParts(ps, part, index - ps[part].count + 1);
                Parts() == if index >= ps[part].used then qs[part := qs[part].(used := index + 1)] else qs
      ensures ok && index < old(Parts())[part].count ==>
                PutAt(old(volume.store), volume.store, old(Parts())[part].index + index, offset, data.Bytes())
      ensures ok && index >= old(Parts())[part].count ==>
                GrownThenPut(old(Parts()), part, GrowBy(index - old(Parts())[part].count + 1),
                             old(volume.store), volume.store, old(Parts())[part].index + index, offset, data.Bytes())
    {
      hide Layout, Sized, UsedFits, OneFill, FitFrom, GrownDisk, Moved, GrownParts, End, BlockSet, Splice;
      ghost var ps, d := Parts(), volume.store;
      var p := partitions[part];
      var start, count, used := p.index, p.count, p.used;
      UsedAt(ps, part);
      if index >= count {
        if !p.flags.grow {
          return false;
        }
        GrowPartition(part, index - count + 1);
        GrownAt(ps, part, index - count + 1);
        assert GrownDisk(ps, part, GrowBy(index - count + 1), d, volume.store);
        d := volume.store;
        count := partitions[part].count;
      }
      ghost var qs := Parts();
      if index >= used {
        UsedChanged(qs, part, index + 1);
        partitions[part] := partitions[part].(used := index + 1);
        assert Parts() == qs[part := qs[part].(used := index + 1)];
      }
      volume.WritePartialBlock(start + index, data, offset);
      assert PutAt(d, volume.store, start + index, offset, data.Bytes());
      ok := true;
    }

    /** Only blocks that are used are discarded; the last ones are not used any more then. */
    method PartDiscardBlocks(part: nat, index: nat, amount: nat)
      requires Valid() && part < partUsed
      modifies volume, partitions
      ensures Valid()
      ensures var p := old(Parts())[part];
              var n: nat := if index >= p.used then 0 else if amount > p.used - index then p.used - index else amount;
              && Parts() == (if n > 0 && index + n == p.used then old(Parts())[part := p.(used := index)]
                             else old(Parts()))
              && BlocksCleared(old(volume.store), volume.store, SECTOR_SIZE, p.index + index, n)
    {
      hide Layout, Sized, UsedFits, OneFill, End, Blk;
      ghost var ps := Parts();
      UsedAt(ps, part);
      var start, used, count := partitions[part].index, partitions[part].used, amount;
      if index >= used {
        return;
      }
      if count > used - index {
        count := used - index;
      }
      if count == 0 {
        return;
      }
      if index + count == used {
        UsedChanged(ps, part, index);
        partitions[part] := partitions[part].(used := index);
        assert Parts() == ps[part := ps[part].(used := index)];
      }
      volume.DiscardBlocks(start + index, count);
    }

    /** Shrinks or grows to a size that is a whole number of MiB, above the minimum and another than before. */
    method Resize(part: nat, count: nat)
      requires Valid() && part < partUsed && count % PART_ALIGN == 0
      requires partitions[part].min < count && count != partitions[part].count
      modifies volume, partitions
      ensures Shaped() && Parts() == ResizedParts(old(Parts()), part, count)
      ensures ResizedDisk(old(Parts()), part, count, old(volume.store), volume.store)
    {
      hide Layout, Sized, UsedFits, OneFill, FitFrom, GrownDisk, GaveBack, Moved, End, ShrunkTo, GrowBy;
      ghost var ps := Parts();
      SlotFacts(ps, part);
      var current := partitions[part].count;
      if count < current {
        ShrinkPartition(part, current - count);
        ExactShrink(ps[part], count);
      } else {
        FitAll(ps, FitFrom(ps, part + 1), part + 1);
        GrowPartition(part, count - current);
        ExactGrow(ps[part], count);
      }
    }

    /** Sizes are rounded up to whole MiB; up to the minimum nothing happens, else the partition gets just that size. */
    method PartTruncate(part: nat, size: nat)
      requires Valid() && part < partUsed
      modifies volume, partitions
      ensures Valid()
      ensures var ps, count := old(Parts()), RoundUp(BlockCount(size, SECTOR_SIZE));
              if count <= ps[part].min || count == ps[part].count
              then Parts() == ps && volume.store == old(volume.store)
              else && ResizedDisk(ps, part, count, old(volume.store), volume.store)
                   && Parts() == ResizedParts(ps, part, count)[part := ps[part].(count := count, used := count)]
    {
      hide Layout, Sized, UsedFits, OneFill, ResizedParts, ResizedDisk, BlockOf, OffsetOf;
      ghost var ps := Parts();
      DivMod(size, SECTOR_SIZE);
      var count := size / SECTOR_SIZE;
      if size % SECTOR_SIZE != 0 {
        count := count + 1;
      }
      if count % PART_ALIGN != 0 {
        count := count + (PART_ALIGN - count % PART_ALIGN);
      }
      if count <= partitions[part].min {
        return;
      }
      if count == partitions[part].count {
        return;
      }
      Resize(part, count);
      ghost var ms := Parts();
      ResizedLayout(ps, part, count);
      partitions[part] := partitions[part].(count := count);
      partitions[part] := partitions[part].(used := count);
      assert Parts() == ms[part := ps[part].(count := count, used := count)];
    }

    /** A partition that gets the FILL flag takes it away from all others. */
    method PartSetFlags(part: nat, flags: Flags)
      requires Valid() && part < partUsed
      modifies partitions
      ensures Valid()
      ensures |Parts()| == |old(Parts())| && forall i | 0 <= i < |Parts()| ::
                Parts()[i] == if i == part then old(Parts())[i].(flags := flags)
                              else if flags.fill then Cleared(old(Parts())[i]) else old(Parts())[i]
    {
      hide Sized;
      ghost var ps := Parts();
      if flags.fill {
        ClearFill();
      }
      partitions[part] := partitions[part].(flags := flags);
      SameLayout(ps, Parts());
    }

    method ClearFill()
      requires Shaped()
      modifies partitions
      ensures forall i | 0 <= i < partUsed :: partitions[i] == Cleared(old(partitions[i]))
      ensures forall i | partUsed <= i < partitions.Length :: partitions[i] == old(partitions[i])
    {
      var i := 0;
      while i < partUsed
        invariant 0 <= i <= partUsed
        invariant forall j | 0 <= j < i :: partitions[j] == Cleared(old(partitions[j]))
        invariant forall j | i <= j < partitions.Length :: partitions[j] == old(partitions[j])
      {
        partitions[i] := partitions[i].(flags := partitions[i].flags.(fill := false));
        i := i + 1;
      }
    }

    /** A new partition lies behind all others, in whole MiB, at least one, and is cleared. */
    method CreatePartition(blkCount: nat, flags: Flags) returns (ok: bool)
      requires Valid()
      modifies this`partUsed, volume, partitions
      ensures Valid() && (ok <==> |old(Parts())| < MAX_MBR_PARTITIONS)
      ensures !ok ==> Parts() == old(Parts()) && volume.store == old(volume.store)
      ensures ok ==>
                var n := GrowBy(blkCount);
                && |Parts()| == |old(Parts())| + 1 && Parts()[|old(Parts())|] == Part(End(old(Parts())), n, n, 0, flags)
                && (forall i | 0 <= i < |old(Parts())| ::
                     Parts()[i] == if flags.fill then Cleared(old(Parts())[i]) else old(Parts())[i])
                && BlocksCleared(old(volume.store), volume.store, SECTOR_SIZE, End(old(Parts())), n)
    {
      hide End, Blk;
      if partUsed == MAX_MBR_PARTITIONS {
        return false;
      }
      ghost var ps := Parts();
      var count := blkCount;
      if count == 0 {
        count := PART_ALIGN;
      }
      if count % PART_ALIGN != 0 {
        count := count + (PART_ALIGN - count % PART_ALIGN);
      }
      var index := NextFree();
      // the record has been all zeros so far, blk_used included
      partitions[partUsed] := Part(index, count, count, 0, flags);
      ClearBlocks(index, count);
      if flags.fill {
        ClearFill();
      }
      partUsed := partUsed + 1;
      AddedLayout(ps, Parts());
      ok := true;
    }

    /** The first block behind all partitions. */
    method NextFree() returns (index: nat)
      requires Shaped() && Layout(Parts())
      ensures index == End(Parts())
    {
      hide Sized;
      ghost var ps := Parts();
      index := RESERVED;
      var i := 0;
      while i < partUsed
        invariant 0 <= i <= partUsed && index == if i == 0 then RESERVED else ps[i - 1].index + ps[i - 1].count
      {
        if i > 0 {
          assert Adjacent(ps, i - 1);
        }
        SlotFacts(ps, i);
        assert partitions[i] == ps[i];
        var nextFree := partitions[i].index + partitions[i].count;
        if nextFree > index {
          index := nextFree;
        }
        i := i + 1;
      }
    }

    method ClearBlocks(index: nat, count: nat)
      requires volume.blocksize == SECTOR_SIZE
      modifies volume
      ensures BlocksCleared(old(volume.store), volume.store, SECTOR_SIZE, index, count)
    {
      hide Blk;
      var i := 0;
      while i < count
        invariant 0 <= i <= count && BlocksCleared(old(volume.store), volume.store, SECTOR_SIZE, index, i)
      {
        volume.WriteBlock(index + i, Null(SECTOR_SIZE));
        i := i + 1;
      }
    }

    /**
     * First everything shrinks to what is used, then the one that fills the disk grows. The header is left out here.
     */
    method CommitLayout()
      requires Valid()
      modifies volume, partitions
      ensures Valid() && Parts() == Committed(old(Parts()), Limit(maxBlockCount))
      ensures CommittedDisk(old(Parts()), Limit(maxBlockCount), old(volume.store), volume.store)
    {
      hide Layout, Sized, UsedFits, OneFill, Moved, End, Fitted, Limit, GrownParts, ShrunkDisk, GrownDisk, GaveBack,
        Blk, GrowBy;
      ghost var ps, limit, d0 := Parts(), Limit(maxBlockCount), volume.store;
      NothingShrunk(ps, d0);
      var i := 0;
      while i < partUsed
        invariant 0 <= i <= partUsed == |ps| && Valid() && FitFrom(Parts(), i) == FitFrom(ps, 0)
        invariant End(Parts()) <= End(ps) && ShrunkDisk(ps, Parts(), d0, volume.store)
      {
        ghost var now, d := Parts(), volume.store;
        FitOne(now, i);
        ShrinkToFit(i);
        ShrunkMore(ps, now, i, Fitted(now[i]), d0, d, volume.store);
        i := i + 1;
      }
      ghost var fs, f, mid := FitFrom(ps, 0), FillSlot(ps, 0), volume.store;
      FillFits(ps);
      i := 0;
      while i < partUsed
        invariant 0 <= i <= partUsed == |ps| && Valid()
        invariant Parts() == if i <= f then fs else Committed(ps, limit)
        invariant if i <= f || !Fills(ps, limit) then volume.store == mid
                  else GrownDisk(fs, f, GrowBy(limit - End(fs) - fs[f].count), mid, volume.store)
      {
        ExpandOne(ps, fs, f, i, maxBlockCount);
        ApplyExpandPolicy(i);
        i := i + 1;
      }
      CommitOnDisk(ps, maxBlockCount, d0, mid, volume.store);
    }
  }

  ghost predicate NothingToGive(ps: seq<Part>, first: nat) {
    forall j | first <= j < |ps| :: Fitted(ps[j]) == ps[j].count
  }

  /** A shrink discards as many blocks as are given back, ending before the last block of all partitions. */
  ghost predicate GaveBack(ps: seq<Part>, k: nat, c: nat, d0: Disk, d1: Disk)
    requires k < |ps|
  {
    forall b: nat {:trigger Blk(d1, SECTOR_SIZE, b)} ::
      Blk(d1, SECTOR_SIZE, b) ==
      if End(ps) - 1 - (ps[k].count - c) <= b < End(ps) - 1 then Zeros(SECTOR_SIZE) else Blk(d0, SECTOR_SIZE, b)
  }

  /**
   * What shrinking `ps` to `qs` does to the volume, be it one shrink or several: no block moves, and those from the
   * last block that is kept up to the one before the last block there was are cleared.
   */
  ghost predicate ShrunkDisk(ps: seq<Part>, qs: seq<Part>, d0: Disk, d1: Disk) {
    forall b: nat {:trigger Blk(d1, SECTOR_SIZE, b)} ::
      Blk(d1, SECTOR_SIZE, b) == if End(qs) - 1 <= b < End(ps) - 1 then Zeros(SECTOR_SIZE) else Blk(d0, SECTOR_SIZE, b)
  }

  /** `n` cleared blocks are put in behind partition `k`, and all behind moves up. */
  ghost predicate RoomDisk(ps: seq<Part>, k: nat, n: nat, d0: Disk, d1: Disk)
    requires k < |ps|
  {
    var at := ps[k].index + ps[k].count;
    forall b: nat {:trigger Blk(d1, SECTOR_SIZE, b)} ::
      Blk(d1, SECTOR_SIZE, b) == if at <= b < at + n then Zeros(SECTOR_SIZE)
                                 else if at + n <= b < End(ps) + n then Blk(d0, SECTOR_SIZE, b - n)
                                 else Blk(d0, SECTOR_SIZE, b)
  }

  /** What a growth of partition `k` by `n` blocks does to the volume: those behind shrink, then room is made. */
  ghost predicate GrownDisk(ps: seq<Part>, k: nat, n: nat, d0: Disk, d1: Disk)
    requires Layout(ps) && UsedFits(ps) && k < |ps|
  {
    var qs := FitFrom(ps, k + 1);
    exists d: Disk :: ShrunkDisk(ps, qs, d0, d) && RoomDisk(qs, k, n, d, d1)
  }

  lemma NothingShrunk(ps: seq<Part>, d: Disk)
    ensures ShrunkDisk(ps, ps, d, d)
  {
  }

  /** One more partition shrinks. */
  lemma ShrunkMore(ps: seq<Part>, now: seq<Part>, k: nat, c: nat, d0: Disk, d: Disk, d1: Disk)
    requires Layout(now) && k < |now| && Sized(now[k].(count := c)) && c <= now[k].count
    requires End(now) <= End(ps) && ShrunkDisk(ps, now, d0, d) && GaveBack(now, k, c, d, d1)
    ensures ShrunkDisk(ps, Moved(now, k, c), d0, d1) && End(Moved(now, k, c)) <= End(ps)
  {
    hide Blk, Layout, Sized, Moved, End;
    MovedLayout(now, k, c);
  }

  lemma GaveNothing(ps: seq<Part>, k: nat, d: Disk)
    requires k < |ps|
    ensures GaveBack(ps, k, ps[k].count, d, d)
  {
  }

  lemma SlotFacts(ps: seq<Part>, k: nat)
    requires Layout(ps) && k < |ps|
    ensures Sized(ps[k]) && PART_ALIGN <= ps[k].min <= ps[k].count && ps[k].count % PART_ALIGN == 0
            && ps[k].min % PART_ALIGN == 0
    ensures ps[k].index + ps[k].count <= End(ps) && ps[k].index >= RESERVED
  {
    assert Sized(ps[k]);
    if k > 0 {
      SlotOrder(ps, 0, k);
    }
    if k < |ps| - 1 {
      SlotOrder(ps, k, |ps| - 1);
    }
  }

  /** What starts behind a partition is in a slot behind it. */
  lemma BehindStart(ps: seq<Part>, k: nat)
    requires Layout(ps) && k < |ps|
    ensures forall i | 0 <= i < |ps| :: ps[i].index > ps[k].index <==> i > k
    ensures forall i | k < i < |ps| :: ps[i].index >= ps[k].index + ps[k].count
  {
    forall i | 0 <= i < |ps|
      ensures ps[i].index > ps[k].index <==> i > k
      ensures k < i ==> ps[i].index >= ps[k].index + ps[k].count
    {
      if i < k {
        SlotOrder(ps, i, k);
      } else if k < i {
        SlotOrder(ps, k, i);
      }
    }
  }

  lemma StillBehind(ps: seq<Part>, k: nat, c: nat, start: nat)
    requires Layout(ps) && k < |ps| && Sized(ps[k].(count := c)) && ps[k].index > start
    ensures forall i | k <= i < |ps| :: Moved(ps, k, c)[i].index > start
  {
    MovedLayout(ps, k, c);
    MovedAt(ps, k, c, k);
    var r := Moved(ps, k, c);
    hide Moved, Sized;
    BehindStart(r, k);
  }

  lemma RoomByMove(ps: seq<Part>, k: nat, n: nat, d0: Disk, d1: Disk, d2: Disk)
    requires k < |ps| && ps[k].index + ps[k].count <= End(ps)
    requires var at := ps[k].index + ps[k].count;
             && BlocksCopied(d0, d1, SECTOR_SIZE, at + n, at, End(ps) - at)
             && forall b: nat {:trigger Blk(d2, SECTOR_SIZE, b)} ::
                  Blk(d2, SECTOR_SIZE, b) == if at <= b < at + n then Zeros(SECTOR_SIZE) else Blk(d1, SECTOR_SIZE, b)
    ensures RoomDisk(ps, k, n, d0, d2)
  {
    hide Blk, End;
  }

  lemma FitAll(ps: seq<Part>, qs: seq<Part>, first: nat)
    requires Layout(ps) && UsedFits(ps) && OneFill(ps) && 0 < first <= |ps| && qs == FitFrom(ps, first)
    ensures Layout(qs) && UsedFits(qs) && OneFill(qs) && |qs| == |ps| && qs[first - 1] == ps[first - 1]
  {
    hide Layout, UsedFits, OneFill, FitFrom;
    FitExact(ps, first);
  }

  lemma GrownLayout(qs: seq<Part>, k: nat, diff: nat)
    requires Layout(qs) && UsedFits(qs) && OneFill(qs) && k < |qs| && diff % PART_ALIGN == 0
    ensures var r := Moved(qs, k, qs[k].count + diff);
            Layout(r) && UsedFits(r) && OneFill(r) && End(r) == End(qs) + diff
  {
    hide Moved, UsedFits, OneFill, End;
    SlotFacts(qs, k);
    assert UsedFits(qs) ==> qs[k].used <= qs[k].count by {
      UsedAt(qs, k);
    }
    MovedLayout(qs, k, qs[k].count + diff);
    MovedRest(qs, k, qs[k].count + diff);
  }

  lemma UsedAt(ps: seq<Part>, k: nat)
    requires UsedFits(ps) && k < |ps|
    ensures ps[k].used <= ps[k].count
  {
  }

  /** The bytes go into block `b`, and nothing else changes. */
  ghost predicate PutAt(d0: Disk, d1: Disk, b: nat, offset: nat, s: seq<byte>) {
    offset + |s| <= SECTOR_SIZE && BlockSet(d0, d1, SECTOR_SIZE, b, Splice(Blk(d0, SECTOR_SIZE, b), offset, s))
  }

  /** The partition has grown by `n` blocks, then the bytes have gone into block `b`. */
  ghost predicate GrownThenPut(ps: seq<Part>, k: nat, n: nat, d0: Disk, d1: Disk, b: nat, offset: nat, s: seq<byte>)
    requires Layout(ps) && UsedFits(ps) && k < |ps|
  {
    exists d: Disk :: GrownDisk(ps, k, n, d0, d) && PutAt(d, d1, b, offset, s)
  }

  function Cleared(p: Part): (q: Part)
    ensures !q.flags.fill && q.flags.grow == p.flags.grow && q.flags.other == p.flags.other
    ensures q.index == p.index && q.min == p.min && q.count == p.count && q.used == p.used
  {
    p.(flags := p.flags.(fill := false))
  }

  /** A growth changes no slot before, adds whole MiB to its own and brings each behind to its least size. */
  lemma GrownExact(ps: seq<Part>, k: nat, diff: nat, j: nat)
    requires Layout(ps) && UsedFits(ps) && k < |ps| && j < |ps|
    ensures |GrownParts(ps, k, diff)| == |ps|
    ensures var q := GrownParts(ps, k, diff)[j];
            && (j < k ==> q == ps[j])
            && (j == k ==> q == ps[j].(count := ps[j].count + GrowBy(diff)))
            && (j > k ==> q == ps[j].(index := q.index, count := Fitted(ps[j])))
  {
    FitExact(ps, k + 1);
    hide FitFrom, Layout, UsedFits, Moved, Fitted;
    MovedAt(FitFrom(ps, k + 1), k, ps[k].count + GrowBy(diff), j);
  }

  lemma GrownAt(ps: seq<Part>, k: nat, amount: nat)
    requires Layout(ps) && UsedFits(ps) && k < |ps|
    ensures |GrownParts(ps, k, amount)| == |ps|
    ensures GrownParts(ps, k, amount)[k] == ps[k].(count := ps[k].count + GrowBy(amount))
  {
    FitExact(ps, k + 1);
    hide FitFrom, Layout, UsedFits, Moved;
    MovedAt(FitFrom(ps, k + 1), k, ps[k].count + GrowBy(amount), k);
  }

  lemma UsedChanged(ps: seq<Part>, k: nat, used: nat)
    requires Layout(ps) && UsedFits(ps) && OneFill(ps) && k < |ps| && used <= ps[k].count
    ensures var qs := ps[k := ps[k].(used := used)]; Layout(qs) && UsedFits(qs) && OneFill(qs)
  {
    hide Sized;
    SameLayout(ps, ps[k := ps[k].(used := used)]);
  }

  /** What a partition is used for and whether it may grow does not matter for the layout. */
  lemma SameLayout(ps: seq<Part>, qs: seq<Part>)
    requires Layout(ps) && |qs| == |ps|
    requires forall i | 0 <= i < |ps| ::
               qs[i].index == ps[i].index && qs[i].count == ps[i].count && qs[i].min == ps[i].min
    ensures Layout(qs) && End(qs) == End(ps)
  {
    hide Sized;
    forall i: nat | i + 1 < |qs| ensures Adjacent(qs, i) {
      assert Adjacent(ps, i);
    }
    forall i | 0 <= i < |qs| ensures Sized(qs[i]) {
      SizedAlike(ps[i], qs[i]);
    }
  }

  /** The layout once partition `k` has got the size `count`: those behind give back what they can if it grows. */
  ghost function ResizedParts(ps: seq<Part>, k: nat, count: nat): (ms: seq<Part>)
    requires Layout(ps) && UsedFits(ps) && k < |ps|
    ensures |ms| == |ps|
  {
    Moved(if count < ps[k].count then ps else FitFrom(ps, k + 1), k, count)
  }

  /** A change of size changes no slot before; each behind keeps its size, or gets its least one if room is needed. */
  lemma ResizedExact(ps: seq<Part>, k: nat, count: nat, j: nat)
    requires Layout(ps) && UsedFits(ps) && k < |ps| && j < |ps|
    ensures var q := ResizedParts(ps, k, count)[j];
            && (j < k ==> q == ps[j])
            && (j == k ==> q == ps[j].(count := count))
            && (j > k ==> q == ps[j].(index := q.index,
                                      count := if count < ps[k].count then ps[j].count else Fitted(ps[j])))
  {
    FitExact(ps, k + 1);
    hide FitFrom, Layout, UsedFits, Moved, Fitted;
    MovedAt(if count < ps[k].count then ps else FitFrom(ps, k + 1), k, count, j);
  }

  ghost predicate ResizedDisk(ps: seq<Part>, k: nat, count: nat, d0: Disk, d1: Disk)
    requires Layout(ps) && UsedFits(ps) && k < |ps|
  {
    if count < ps[k].count then GaveBack(ps, k, count, d0, d1) else GrownDisk(ps, k, count - ps[k].count, d0, d1)
  }

  lemma ResizedLayout(ps: seq<Part>, k: nat, count: nat)
    requires Layout(ps) && UsedFits(ps) && OneFill(ps) && k < |ps| && count % PART_ALIGN == 0 && count >= ps[k].min
    ensures ResizedParts(ps, k, count)[k] == ps[k].(count := count)
    ensures var r := ResizedParts(ps, k, count)[k := ps[k].(count := count, used := count)];
            Layout(r) && UsedFits(r) && OneFill(r)
  {
    hide Layout, Sized, UsedFits, OneFill, FitFrom, Moved;
    if count < ps[k].count {
      MovedResized(ps, k, count);
    } else {
      FitAll(ps, FitFrom(ps, k + 1), k + 1);
      MovedResized(FitFrom(ps, k + 1), k, count);
    }
  }

  lemma MovedResized(qs: seq<Part>, k: nat, count: nat)
    requires Layout(qs) && UsedFits(qs) && OneFill(qs) && k < |qs| && count % PART_ALIGN == 0 && count >= qs[k].min
    ensures Moved(qs, k, count)[k] == qs[k].(count := count)
    ensures var r := Moved(qs, k, count)[k := qs[k].(count := count, used := count)];
            Layout(r) && UsedFits(r) && OneFill(r)
  {
    hide Moved, Adjacent;
    var m := Moved(qs, k, count);
    SlotFacts(qs, k);
    MovedLayout(qs, k, count);
    MovedAt(qs, k, count, k);
    var r := m[k := qs[k].(count := count, used := count)];
    SameLayout(m, r);
    forall i | 0 <= i < |r| ensures r[i].used <= r[i].count && r[i].flags == qs[i].flags {
      MovedAt(qs, k, count, i);
    }
  }

  lemma ExactShrink(p: Part, count: nat)
    requires Sized(p) && count % PART_ALIGN == 0 && p.min <= count <= p.count
    ensures ShrunkTo(p, p.count - count) == count
  {
  }

  lemma ExactGrow(p: Part, count: nat)
    requires Sized(p) && count % PART_ALIGN == 0 && p.count < count
    ensures p.count + GrowBy(count - p.count) == count
  {
  }

  lemma AddedLayout(ps: seq<Part>, qs: seq<Part>)
    requires Layout(ps) && UsedFits(ps) && OneFill(ps) && |qs| == |ps| + 1
    requires forall i | 0 <= i < |ps| :: qs[i] == ps[i] || qs[i] == Cleared(ps[i])
    requires qs[|ps|].flags.fill ==> forall i | 0 <= i < |ps| :: qs[i] == Cleared(ps[i])
    requires qs[|ps|].index == End(ps) && qs[|ps|].used == 0 && Sized(qs[|ps|])
    ensures Layout(qs) && UsedFits(qs) && OneFill(qs)
  {
    hide Sized;
    forall i: nat | i + 1 < |qs| ensures Adjacent(qs, i) {
      if i + 1 < |ps| {
        assert Adjacent(ps, i);
      }
    }
    forall i | 0 <= i < |qs| ensures Sized(qs[i]) {
      if i < |ps| {
        SizedAlike(ps[i], qs[i]);
      }
    }
  }

  /** The first slot from `i` on whose partition is to fill the disk. */
  ghost function FillSlot(ps: seq<Part>, i: nat): (f: nat)
    ensures i <= |ps| ==> i <= f <= |ps|
    ensures forall j | i <= j < f && j < |ps| :: !ps[j].flags.fill
    ensures f < |ps| ==> ps[f].flags.fill
    decreases |ps| - i
  {
    if i >= |ps| then |ps| else if ps[i].flags.fill then i else FillSlot(ps, i + 1)
  }

  /** The layout after a commit: the least that is needed, and one partition with all that is left. */
  ghost function Committed(ps: seq<Part>, limit: nat): seq<Part>
    requires Layout(ps) && UsedFits(ps)
  {
    var fs, f := FitFrom(ps, 0), FillSlot(ps, 0);
    if Fills(ps, limit) then Moved(fs, f, limit - End(fs)) else fs
  }

  /** After a commit every partition has its least size, but for one that fills, which has what is left. */
  lemma CommittedExact(ps: seq<Part>, limit: nat, j: nat)
    requires Layout(ps) && UsedFits(ps) && j < |ps|
    ensures |Committed(ps, limit)| == |ps|
    ensures var q := Committed(ps, limit)[j];
            q == ps[j].(index := q.index,
                        count := if Fills(ps, limit) && j == FillSlot(ps, 0) then limit - End(FitFrom(ps, 0))
                                 else Fitted(ps[j]))
  {
    FitExact(ps, 0);
    hide FitFrom, Layout, UsedFits, Moved, Fitted, End;
    if Fills(ps, limit) {
      MovedAt(FitFrom(ps, 0), FillSlot(ps, 0), limit - End(FitFrom(ps, 0)), j);
    }
  }

  /** There is a partition that is to fill the disk, and more is free behind the others than it has. */
  ghost predicate Fills(ps: seq<Part>, limit: nat)
    requires Layout(ps) && UsedFits(ps)
  {
    var fs, f := FitFrom(ps, 0), FillSlot(ps, 0);
    f < |fs| && End(fs) + fs[f].count < limit
  }

  /** What a commit does to the volume: all shrink, then one may grow. */
  ghost predicate CommittedDisk(ps: seq<Part>, limit: nat, d0: Disk, d1: Disk)
    requires Layout(ps) && UsedFits(ps)
  {
    var fs, f := FitFrom(ps, 0), FillSlot(ps, 0);
    if Fills(ps, limit)
    then exists d: Disk :: ShrunkDisk(ps, fs, d0, d) && RoomDisk(fs, f, limit - End(fs) - fs[f].count, d, d1)
    else ShrunkDisk(ps, fs, d0, d1)
  }

  lemma FillFits(ps: seq<Part>)
    requires Layout(ps) && UsedFits(ps) && OneFill(ps)
    ensures var fs, f := FitFrom(ps, 0), FillSlot(ps, 0);
            && Layout(fs) && UsedFits(fs) && OneFill(fs) && |fs| == |ps| && NothingToGive(fs, 0)
            && forall i | 0 <= i < |fs| :: fs[i].flags.fill <==> i == f
  {
    hide Layout, Fitted;
    var fs, f := FitFrom(ps, 0), FillSlot(ps, 0);
    FitExact(ps, 0);
    forall j | 0 <= j < |fs| ensures Fitted(fs[j]) == fs[j].count {
      FittedTwice(ps[j], fs[j]);
    }
  }

  lemma FittedTwice(p: Part, q: Part)
    requires q == p.(index := q.index, count := Fitted(p))
    ensures Fitted(q) == q.count
  {
  }

  lemma {:induction false} EndAligned(ps: seq<Part>)
    requires Layout(ps)
    ensures End(ps) % PART_ALIGN == 0 && End(ps) >= RESERVED
  {
    if ps != [] {
      var n := |ps| - 1;
      SlotFacts(ps, n);
      var front := ps[..n];
      forall i: nat | i + 1 < |front| ensures Adjacent(front, i) {
        assert Adjacent(ps, i);
      }
      EndAligned(front);
      if n > 0 {
        assert Adjacent(ps, n - 1);
      }
    }
  }

  /** What the expand policy does to slot `i`, if all partitions before it have been through. */
  lemma ExpandOne(ps: seq<Part>, fs: seq<Part>, f: nat, i: nat, maxBlockCount: nat)
    requires Layout(ps) && UsedFits(ps) && OneFill(ps) && fs == FitFrom(ps, 0) && f == FillSlot(ps, 0) && i < |ps|
    ensures var limit := Limit(maxBlockCount);
            var now := if i <= f then fs else Committed(ps, limit);
            && |fs| == |ps| && Layout(now) && UsedFits(now) && OneFill(now) && |now| == |ps|
            && (now[i].flags.fill && End(now) + now[i].count < limit <==> i == f && Fills(ps, limit))
            && (if now[i].flags.fill && End(now) + now[i].count < limit
                then GrownParts(now, i, limit - End(now) - now[i].count) else now)
               == if i + 1 <= f then fs else Committed(ps, limit)
  {
    hide Layout, UsedFits, OneFill, Moved, End, Fitted, Limit, FitFrom, Sized;
    var limit := Limit(maxBlockCount);
    FillFits(ps);
    if f < |ps| && End(fs) + fs[f].count < limit {
      FillGrows(fs, f, maxBlockCount);
    }
  }

  lemma FillGrows(fs: seq<Part>, f: nat, maxBlockCount: nat)
    requires Layout(fs) && UsedFits(fs) && OneFill(fs) && NothingToGive(fs, 0) && f < |fs|
    requires End(fs) + fs[f].count < Limit(maxBlockCount)
    ensures var limit := Limit(maxBlockCount);
            var r := Moved(fs, f, limit - End(fs));
            && GrownParts(fs, f, limit - End(fs) - fs[f].count) == r
            && GrowBy(limit - End(fs) - fs[f].count) == limit - End(fs) - fs[f].count
            && Layout(r) && UsedFits(r) && OneFill(r) && End(r) == limit - fs[f].count
            && |r| == |fs| && forall i | 0 <= i < |r| :: r[i].flags == fs[i].flags
  {
    hide Layout, UsedFits, OneFill, Moved, End, Fitted, FitFrom, Sized;
    var limit := Limit(maxBlockCount);
    EndAligned(fs);
    SlotFacts(fs, f);
    FitNothing(fs, f + 1);
    GrownLayout(fs, f, limit - End(fs) - fs[f].count);
    forall i | 0 <= i < |fs| ensures Moved(fs, f, limit - End(fs))[i].flags == fs[i].flags {
      MovedAt(fs, f, limit - End(fs), i);
    }
  }

  lemma CommitOnDisk(ps: seq<Part>, maxBlockCount: nat, d0: Disk, d: Disk, d1: Disk)
    requires Layout(ps) && UsedFits(ps) && OneFill(ps)
    requires ShrunkDisk(ps, FitFrom(ps, 0), d0, d)
    requires var limit, fs, f := Limit(maxBlockCount), FitFrom(ps, 0), FillSlot(ps, 0);
             && UsedFits(fs)
             && if !Fills(ps, limit) then d1 == d else GrownDisk(fs, f, GrowBy(limit - End(fs) - fs[f].count), d, d1)
    ensures CommittedDisk(ps, Limit(maxBlockCount), d0, d1)
  {
    hide Layout, UsedFits, OneFill, Moved, Fitted, Limit, FitFrom, Sized, End, RoomDisk, Blk;
    var limit, fs, f := Limit(maxBlockCount), FitFrom(ps, 0), FillSlot(ps, 0);
    if Fills(ps, limit) {
      FillFits(ps);
      FillGrows(fs, f, maxBlockCount);
      FitNothing(fs, f + 1);
      var n := limit - End(fs) - fs[f].count;
      var e: Disk :| ShrunkDisk(fs, fs, d, e) && RoomDisk(fs, f, n, e, d1);
      assert ShrunkDisk(ps, fs, d0, e);
    }
  }

  /**
   * A commit never goes past the capacity, unless what is used does already; and a partition that fills never reaches
   * it.
   */
  lemma CommitWithinLimit(ps: seq<Part>, maxBlockCount: nat)
    requires Layout(ps) && UsedFits(ps) && OneFill(ps)
    ensures var limit, fs, f := Limit(maxBlockCount), FitFrom(ps, 0), FillSlot(ps, 0);
            if Fills(ps, limit) then End(Committed(ps, limit)) == limit - fs[f].count < limit
            else Committed(ps, limit) == fs
  {
    hide Layout, UsedFits, OneFill, Moved, End, Fitted, Limit, FitFrom, Sized;
    var limit, fs, f := Limit(maxBlockCount), FitFrom(ps, 0), FillSlot(ps, 0);
    FillFits(ps);
    if Fills(ps, limit) {
      FillGrows(fs, f, maxBlockCount);
      SlotFacts(fs, f);
    }
  }
}
