/** Which blocks of the volume belong to which file, and what it means that no block is lost. */
module Ownership {
  import opened Volumes
  import opened FileNodes
  import opened Layout

  ghost predicate Owns(f: File, bs: BlockSize, b: nat) {
    f.start <= b < f.start + StoredCount(f, bs)
  }

  ghost predicate Owned(fs: seq<File>, bs: BlockSize, b: nat) {
    exists i | 0 <= i < |fs| :: Owns(fs[i], bs, b)
  }

  ghost function Interval(lo: nat, n: nat): (r: set<nat>)
    ensures forall b: nat :: b in r <==> lo <= b < lo + n
  {
    if n == 0 then {} else Interval(lo, n - 1) + {lo + (n - 1)}
  }

  lemma {:induction false} IntervalSize(lo: nat, n: nat)
    ensures |Interval(lo, n)| == n
  {
    if n > 0 {
      IntervalSize(lo, n - 1);
    }
  }

  /** The blocks that belong to any of the files. */
  ghost function OwnedBlocks(fs: seq<File>, bs: BlockSize): (r: set<nat>)
    ensures forall b: nat :: b in r <==> Owned(fs, bs, b)
  {
    hide StoredCount;
    if fs == [] then {}
    else
      var front, last := fs[..|fs| - 1], fs[|fs| - 1];
      assert forall i | 0 <= i < |front| :: front[i] == fs[i];
      OwnedBlocks(front, bs) + Interval(last.start, StoredCount(last, bs))
  }

  ghost predicate Apart(fs: seq<File>, bs: BlockSize) {
    forall i, j | 0 <= i < |fs| && 0 <= j < |fs| && i != j :: Disjoint(fs[i], fs[j], bs)
  }

  /** Files that lie apart have as many blocks together as each for itself. */
  lemma {:induction false} OwnedSize(fs: seq<File>, bs: BlockSize)
    requires Apart(fs, bs)
    ensures |OwnedBlocks(fs, bs)| == Used(fs, bs)
  {
    hide StoredCount;
    if fs != [] {
      var n := |fs| - 1;
      var front, last := fs[..n], fs[n];
      assert forall i | 0 <= i < n :: front[i] == fs[i];
      OwnedSize(front, bs);
      var a, b := OwnedBlocks(front, bs), Interval(last.start, StoredCount(last, bs));
      IntervalSize(last.start, StoredCount(last, bs));
      assert a !! b by {
        forall x | x in a ensures x !in b {
          var i :| 0 <= i < n && Owns(front[i], bs, x);
          assert Disjoint(fs[i], last, bs);
        }
      }
      assert OwnedBlocks(fs, bs) == a + b;
    }
  }

  /** In a tree that is in order, no block has two owners, and every owned block lies below the high-water mark. */
  lemma OneOwner(s: State, i: nat, j: nat, b: nat)
    requires Ok(s) && i < |s.files| && j < |s.files| && Owns(s.files[i], s.bs, b)
    ensures b < s.off
    ensures Owns(s.files[j], s.bs, b) ==> i == j
  {
    hide StoredCount;
    assert Below(s.files[i], s.bs, s.off);
    assert i != j ==> Disjoint(s.files[i], s.files[j], s.bs);
  }

  /** The block counts add up to the high-water mark exactly if every block below it belongs to some file. */
  lemma NoneLost(s: State)
    requires Ok(s)
    ensures Slack(s) >= 0
    ensures Slack(s) == 0 <==> forall b: nat | b < s.off :: Owned(s.files, s.bs, b)
  {
    hide StoredCount, Owned, Interval, OwnedBlocks;
    var o, all := OwnedBlocks(s.files, s.bs), Interval(0, s.off);
    OwnedSize(s.files, s.bs);
    IntervalSize(0, s.off);
    forall b | b in o ensures b in all {
      OwnedBelow(s, b);
    }
    SubsetSize(o, all);
    if forall b: nat | b < s.off :: Owned(s.files, s.bs, b) {
      assert forall b | b in all :: b in o;
      assert o == all;
    }
    if o == all {
      forall b: nat | b < s.off ensures Owned(s.files, s.bs, b) {
        assert b in all;
      }
    }
  }

  lemma OwnedBelow(s: State, b: nat)
    requires Ok(s) && Owned(s.files, s.bs, b)
    ensures b < s.off
  {
    hide StoredCount;
    var i :| 0 <= i < |s.files| && Owns(s.files[i], s.bs, b);
    OneOwner(s, i, i, b);
  }

  lemma SubsetSize(a: set<nat>, b: set<nat>)
    requires a <= b
    ensures |a| <= |b| && (|a| == |b| ==> a == b)
  {
    assert b == a + (b - a);
    assert |b| == |a| + |b - a|;
  }
}
