/** The file part of a tree node, and the two operations that edit its hole list in place. */
module FileNodes {
  import opened Holes

  /** What a file node stands for: the hole list counts only as a set of blocks. */
  datatype File = File(size: nat, start: nat, sparse: set<nat>)

  class FileNode {
    var size: nat
    var startIndex: nat
    var sparse: seq<Hole>

    constructor ()
      ensures Value() == File(0, 0, {}) && Canonical(sparse)
    {
      size, startIndex, sparse := 0, 0, [];
      new;
      assert HoleSet(sparse) == {};
    }

    ghost function Value(): File
      reads this
    {
      File(size, startIndex, HoleSet(sparse))
    }

    /** Extends a hole that contains or touches block `index`, joining two holes that come to touch. */
    method TryMerge(index: nat) returns (merged: bool)
      requires Canonical(sparse)
      modifies this`sparse
      ensures Canonical(sparse)
      ensures merged ==> HoleSet(sparse) == HoleSet(old(sparse)) + {index}
      ensures !merged ==> sparse == old(sparse) && forall k | 0 <= k < |sparse| :: Clear(sparse[k], index)
    {
      hide HoleSet, Covered, Canonical;
      ghost var hs := sparse;
      var k := 0;
      while k < |sparse|
        invariant 0 <= k <= |sparse| && sparse == hs
        invariant forall j | 0 <= j < k :: Clear(hs[j], index)
      {
        SortedAt(hs, k);
        var it := sparse[k];
        if index >= it.index {
          if it.count > index - it.index {
            InHole(hs, k, index);
            return true;
          }
          if it.count == index - it.index {
            it := it.(count := it.count + 1);
            if k + 1 < |sparse| && sparse[k + 1].index == it.End() {
              var r := sparse[k + 1];
              it := it.(count := it.count + r.count);
              sparse := sparse[..k] + [it] + sparse[k + 2..];
              ExtendJoins(hs, k);
            } else {
              sparse := sparse[..k] + [it] + sparse[k + 1..];
              ExtendsBack(hs, k);
            }
            return true;
          }
        } else if index + 1 == it.index {
          it := Hole(it.index - 1, it.count + 1);
          if k > 0 && it.index == sparse[k - 1].End() {
            // the hole before was tried, and would have been extended, in the round before
            assert false;
          }
          sparse := sparse[..k] + [it] + sparse[k + 1..];
          ExtendsFront(hs, k);
          return true;
        }
        k := k + 1;
      }
      return false;
    }

    /** Puts a new hole in its place, given that no other hole contains or touches it. */
    method InsertNewRegion(hole: Hole)
      requires Canonical(sparse) && hole.count == 1
      requires forall k | 0 <= k < |sparse| :: Clear(sparse[k], hole.index)
      modifies this`sparse
      ensures Canonical(sparse)
      ensures HoleSet(sparse) == HoleSet(old(sparse)) + {hole.index}
    {
      hide HoleSet, Covered;
      var k := 0;
      while k < |sparse| && sparse[k].index < hole.index
        invariant 0 <= k <= |sparse|
        invariant forall j | 0 <= j < k :: sparse[j].index < hole.index
      {
        k := k + 1;
      }
      InsertsAt(sparse, k, hole);
      sparse := sparse[..k] + [hole] + sparse[k..];
    }

    method MarkSparse(index: nat)
      requires Canonical(sparse)
      modifies this`sparse
      ensures Canonical(sparse)
      ensures HoleSet(sparse) == HoleSet(old(sparse)) + {index}
    {
      var merged := TryMerge(index);
      if !merged {
        InsertNewRegion(Hole(index, 1));
      }
    }

    /** Trims, removes or splits the hole that contains block `index`, if there is one. */
    method MarkNotSparse(index: nat)
      requires Canonical(sparse)
      modifies this`sparse
      ensures Canonical(sparse)
      ensures HoleSet(sparse) == HoleSet(old(sparse)) - {index}
    {
      hide HoleSet, Covered;
      ghost var hs := sparse;
      var k, relIdx := 0, 0;
      while k < |sparse|
        invariant 0 <= k <= |sparse|
        invariant forall j | 0 <= j < k :: !sparse[j].Has(index)
      {
        if index >= sparse[k].index {
          relIdx := index - sparse[k].index;
          if relIdx < sparse[k].count {
            break;
          }
        }
        k := k + 1;
      }
      if k == |sparse| {
        InNoHole(sparse, index);
        return;
      }
      var it := sparse[k];
      if relIdx == 0 || relIdx == it.count - 1 {
        it := it.(count := it.count - 1);
        if it.count == 0 {
          sparse := sparse[..k] + sparse[k + 1..];
          Vanishes(hs, k);
        } else {
          if relIdx == 0 {
            it := it.(index := it.index + 1);
          }
          sparse := sparse[..k] + [it] + sparse[k + 1..];
          Shrinks(hs, k, it, index);
        }
      } else {
        var tail := Hole(it.index + relIdx + 1, it.count - relIdx - 1);
        it := it.(count := relIdx);
        sparse := sparse[..k] + [it] + ([tail] + sparse[k + 1..]);
        Splits(hs, k, it, tail);
      }
    }

    /** Takes the last block out of hole `k`, and the hole out of the list if that was all of it. */
    method ShrinkHole(k: nat)
      requires Canonical(sparse) && k < |sparse|
      modifies this`sparse
      ensures Canonical(sparse)
      ensures HoleSet(sparse) == HoleSet(old(sparse)) - {old(sparse[k].End()) - 1}
    {
      hide HoleSet, Covered;
      ghost var hs := sparse;
      SortedAt(hs, k);
      var it := sparse[k];
      it := it.(count := it.count - 1);
      if it.count == 0 {
        sparse := sparse[..k] + sparse[k + 1..];
        Vanishes(hs, k);
      } else {
        sparse := sparse[..k] + [it] + sparse[k + 1..];
        Shrinks(hs, k, it, it.End());
      }
    }

    /** Clips the holes to the first `count` blocks. */
    method TruncateSparse(count: nat)
      requires Canonical(sparse)
      modifies this`sparse
      ensures Canonical(sparse)
      ensures HoleSet(sparse) == set x | x in HoleSet(old(sparse)) && x < count
    {
      hide HoleSet, Covered, Canonical;
      ghost var hs := sparse;
      var k := 0;
      while k < |sparse|
        invariant 0 <= k <= |sparse| && Canonical(sparse)
        invariant forall j | 0 <= j < k :: sparse[j].End() <= count
        invariant SameBelow(HoleSet(sparse), HoleSet(hs), count)
        decreases |sparse| - k
      {
        ghost var before := sparse;
        if sparse[k].index >= count {
          sparse := sparse[..k] + sparse[k + 1..];
          DropsHole(before, k, count);
        } else {
          var it := sparse[k];
          if it.count >= count - it.index {
            it := it.(count := count - it.index);
          }
          sparse := sparse[k := it];
          ClipsHole(before, k, it, count);
          k := k + 1;
        }
      }
      Clipped(sparse, hs, count);
    }
  }

  /** The hole neither contains block `i` nor touches it. */
  predicate Clear(h: Hole, i: nat) {
    h.End() < i || i + 1 < h.index
  }

  /* The edits above, on the list that they edit. */

  lemma CutAt(hs: seq<Hole>, k: nat)
    requires k < |hs|
    ensures hs == hs[..k] + [hs[k]] + hs[k + 1..]
  {
  }

  lemma SortedAt(hs: seq<Hole>, k: nat)
    requires Canonical(hs) && k < |hs|
    ensures hs[k].count > 0 && (k > 0 ==> hs[k - 1].End() < hs[k].index)
  {
  }

  lemma ExtendsBack(hs: seq<Hole>, k: nat)
    requires Canonical(hs) && k < |hs| && (k + 1 < |hs| ==> hs[k + 1].index != hs[k].End() + 1)
    ensures var g := hs[k].(count := hs[k].count + 1);
            var r := hs[..k] + [g] + hs[k + 1..];
            Canonical(r) && HoleSet(r) == HoleSet(hs) + {hs[k].End()}
  {
    hide HoleSet, Covered;
    var h := hs[k];
    var g := h.(count := h.count + 1);
    CutAt(hs, k);
    assert AllAbove(hs[k + 1..], g.End()) && AllBelow(hs[..k], g.index);
    Resize(hs[..k], h, hs[k + 1..], g);
    SpanIn(hs, k);
    SpanGrown(h, g, h.End());
  }

  lemma ExtendsFront(hs: seq<Hole>, k: nat)
    requires Canonical(hs) && k < |hs| && hs[k].index > 0 && (k > 0 ==> hs[k - 1].End() + 1 < hs[k].index)
    ensures var g := Hole(hs[k].index - 1, hs[k].count + 1);
            var r := hs[..k] + [g] + hs[k + 1..];
            Canonical(r) && HoleSet(r) == HoleSet(hs) + {hs[k].index - 1}
  {
    hide HoleSet, Covered;
    var h := hs[k];
    var g := Hole(h.index - 1, h.count + 1);
    CutAt(hs, k);
    assert AllAbove(hs[k + 1..], g.End()) && AllBelow(hs[..k], g.index);
    Resize(hs[..k], h, hs[k + 1..], g);
    SpanIn(hs, k);
    SpanGrown(h, g, g.index);
  }

  lemma ExtendJoins(hs: seq<Hole>, k: nat)
    requires Canonical(hs) && k + 1 < |hs| && hs[k + 1].index == hs[k].End() + 1
    ensures var g := Hole(hs[k].index, hs[k].count + 1 + hs[k + 1].count);
            var joined := hs[..k] + [g] + hs[k + 2..];
            Canonical(joined) && HoleSet(joined) == HoleSet(hs) + {hs[k].End()}
  {
    hide *;
    var a, h, r, b := hs[..k], hs[k], hs[k + 1], hs[k + 2..];
    assert hs == a + [h] + ([r] + b);
    Join(a, h, r, b);
  }

  lemma InsertsAt(hs: seq<Hole>, k: nat, h: Hole)
    requires Canonical(hs) && k <= |hs| && h.count == 1
    requires forall j | 0 <= j < |hs| :: Clear(hs[j], h.index)
    requires forall j | 0 <= j < k :: hs[j].index < h.index
    requires k < |hs| ==> hs[k].index >= h.index
    ensures var r := hs[..k] + [h] + hs[k..];
            Canonical(r) && HoleSet(r) == HoleSet(hs) + {h.index}
  {
    hide HoleSet, Covered, Canonical;
    ClearAround(hs, k, h);
    assert hs == hs[..k] + hs[k..];
    Insert(hs[..k], h, hs[k..]);
    assert Span(h) == {h.index};
  }

  lemma ClearAround(hs: seq<Hole>, k: nat, h: Hole)
    requires Canonical(hs) && k <= |hs| && h.count == 1
    requires forall j | 0 <= j < |hs| :: Clear(hs[j], h.index)
    requires forall j | 0 <= j < k :: hs[j].index < h.index
    requires k < |hs| ==> hs[k].index >= h.index
    ensures AllBelow(hs[..k], h.index) && AllAbove(hs[k..], h.End())
  {
    forall j | k <= j < |hs| ensures h.End() < hs[j].index {
      assert j > k ==> hs[k].End() < hs[j].index;
    }
  }

  lemma SpanIn(hs: seq<Hole>, k: nat)
    requires k < |hs|
    ensures Span(hs[k]) <= HoleSet(hs)
  {
  }

  lemma Vanishes(hs: seq<Hole>, k: nat)
    requires Canonical(hs) && k < |hs| && hs[k].count == 1
    ensures var r := hs[..k] + hs[k + 1..];
            Canonical(r) && HoleSet(r) == HoleSet(hs) - {hs[k].index}
  {
    hide HoleSet, Covered;
    CutAt(hs, k);
    Remove(hs[..k], hs[k], hs[k + 1..]);
    assert Span(hs[k]) == {hs[k].index};
  }

  lemma Shrinks(hs: seq<Hole>, k: nat, g: Hole, i: nat)
    requires Canonical(hs) && k < |hs| && g.count > 0 && g.count + 1 == hs[k].count
    requires (g.index == hs[k].index && i == g.End()) || (g.End() == hs[k].End() && i == hs[k].index)
    ensures var r := hs[..k] + [g] + hs[k + 1..];
            Canonical(r) && HoleSet(r) == HoleSet(hs) - {i}
  {
    hide HoleSet, Covered;
    CutAt(hs, k);
    assert AllAbove(hs[k + 1..], g.End()) && AllBelow(hs[..k], g.index);
    Resize(hs[..k], hs[k], hs[k + 1..], g);
    SpanIn(hs, k);
    SpanGrown(g, hs[k], i);
  }

  lemma Splits(hs: seq<Hole>, k: nat, g: Hole, r: Hole)
    requires Canonical(hs) && k < |hs| && g.count > 0 && r.count > 0
    requires g.index == hs[k].index && r.index == g.End() + 1 && r.End() == hs[k].End()
    ensures var s := hs[..k] + [g] + ([r] + hs[k + 1..]);
            Canonical(s) && HoleSet(s) == HoleSet(hs) - {g.End()}
  {
    hide HoleSet, Covered;
    CutAt(hs, k);
    Split(hs[..k], hs[k], hs[k + 1..], g, r);
  }

  ghost predicate SameBelow(a: set<nat>, b: set<nat>, count: nat) {
    forall x: nat | x < count :: x in a <==> x in b
  }

  lemma DropsHole(hs: seq<Hole>, k: nat, count: nat)
    requires Canonical(hs) && k < |hs| && hs[k].index >= count
    ensures var r := hs[..k] + hs[k + 1..];
            Canonical(r) && SameBelow(HoleSet(r), HoleSet(hs), count)
  {
    hide HoleSet, Covered;
    CutAt(hs, k);
    Remove(hs[..k], hs[k], hs[k + 1..]);
  }

  lemma ClipsHole(hs: seq<Hole>, k: nat, g: Hole, count: nat)
    requires Canonical(hs) && k < |hs| && hs[k].index < count
    requires g == hs[k].(count := if hs[k].count >= count - hs[k].index then count - hs[k].index else hs[k].count)
    ensures var r := hs[k := g];
            Canonical(r) && SameBelow(HoleSet(r), HoleSet(hs), count)
  {
    hide HoleSet, Covered;
    CutAt(hs, k);
    assert hs[k := g] == hs[..k] + [g] + hs[k + 1..];
    assert AllAbove(hs[k + 1..], g.End()) && AllBelow(hs[..k], g.index);
    Resize(hs[..k], hs[k], hs[k + 1..], g);
    SpanIn(hs, k);
    SpanClipped(hs[k], g, count);
  }

  lemma SpanClipped(h: Hole, g: Hole, count: nat)
    requires h.index < count && g == h.(count := if h.count >= count - h.index then count - h.index else h.count)
    ensures forall x: nat | x < count :: x in Span(g) <==> x in Span(h)
  {
    forall x: nat | x < count ensures x in Span(g) <==> x in Span(h) {
      assert g.Has(x) <==> h.Has(x);
    }
  }

  lemma Clipped(r: seq<Hole>, hs: seq<Hole>, count: nat)
    requires SameBelow(HoleSet(r), HoleSet(hs), count) && forall j | 0 <= j < |r| :: r[j].End() <= count
    ensures HoleSet(r) == set x | x in HoleSet(hs) && x < count
  {
    forall x | x >= count ensures x !in HoleSet(r) {
    }
  }

  /** Marking a block and unmarking it again gives back the very same list. */
  lemma MarkUnmark(hs: seq<Hole>, marked: seq<Hole>, back: seq<Hole>, index: nat)
    requires Canonical(hs) && Canonical(back) && index !in HoleSet(hs)
    requires HoleSet(marked) == HoleSet(hs) + {index} && HoleSet(back) == HoleSet(marked) - {index}
    ensures back == hs
  {
    hide Canonical;
    assert HoleSet(back) == HoleSet(hs);
    forall i: nat ensures Covered(back, i) <==> Covered(hs, i) {
      assert i in HoleSet(back) <==> i in HoleSet(hs);
    }
    CanonicalUnique(back, hs);
  }
}
