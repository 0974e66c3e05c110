/** The sparse regions of a file: a sorted list of holes, kept in one canonical form per set of blocks. */
module Holes {

  datatype Hole = Hole(index: nat, count: nat) {
    function End(): nat {
      index + count
    }

    predicate Has(i: nat) {
      index <= i < End()
    }
  }

  predicate Covered(hs: seq<Hole>, i: nat) {
    exists k | 0 <= k < |hs| :: hs[k].Has(i)
  }

  lemma CoveredLast(hs: seq<Hole>, i: nat)
    requires hs != []
    ensures Covered(hs, i) <==> Covered(hs[..|hs| - 1], i) || hs[|hs| - 1].Has(i)
  {
    var front := hs[..|hs| - 1];
    if Covered(hs, i) {
      var k :| 0 <= k < |hs| && hs[k].Has(i);
      assert k < |front| ==> front[k] == hs[k];
    }
    if Covered(front, i) {
      var k :| 0 <= k < |front| && front[k].Has(i);
      assert hs[k] == front[k];
    }
  }

  /** The blocks that a hole list makes sparse. */
  ghost function HoleSet(hs: seq<Hole>): (s: set<nat>)
    ensures forall i: nat :: i in s <==> Covered(hs, i)
  {
    if hs == [] then {}
    else
      var h := hs[|hs| - 1];
      assert forall i: nat :: Covered(hs, i) <==> Covered(hs[..|hs| - 1], i) || h.Has(i) by {
        forall i: nat ensures Covered(hs, i) <==> Covered(hs[..|hs| - 1], i) || h.Has(i) {
          CoveredLast(hs, i);
        }
      }
      HoleSet(hs[..|hs| - 1]) + set i: nat | i < h.End() && h.Has(i)
  }

  /** Sorted, no hole empty, and no two holes overlapping or adjacent. */
  predicate Canonical(hs: seq<Hole>) {
    && (forall k | 0 <= k < |hs| :: hs[k].count > 0)
    && (forall j, k | 0 <= j < k < |hs| :: hs[j].End() < hs[k].index)
  }

  /** A canonical list is determined by the set of blocks it covers. */
  lemma {:induction false} CanonicalUnique(a: seq<Hole>, b: seq<Hole>)
    requires Canonical(a) && Canonical(b)
    requires forall i: nat :: Covered(a, i) <==> Covered(b, i)
    ensures a == b
  {
    if a == [] || b == [] {
      if a != [] {
        assert a[0].Has(a[0].index);
        assert Covered(a, a[0].index);
      }
      if b != [] {
        assert b[0].Has(b[0].index);
        assert Covered(b, b[0].index);
      }
    } else {
      FirstHoleAgrees(a, b);
      FirstHoleAgrees(b, a);
      forall i: nat ensures Covered(a[1..], i) <==> Covered(b[1..], i) {
        CoveredTail(a, i);
        CoveredTail(b, i);
      }
      CanonicalUnique(a[1..], b[1..]);
      assert a == [a[0]] + a[1..] && b == [b[0]] + b[1..];
    }
  }

  lemma CoveredTail(hs: seq<Hole>, i: nat)
    requires Canonical(hs) && hs != []
    ensures Covered(hs[1..], i) <==> Covered(hs, i) && !hs[0].Has(i)
  {
    var rest := hs[1..];
    if Covered(rest, i) {
      var k :| 0 <= k < |rest| && rest[k].Has(i);
      assert hs[k + 1] == rest[k];
    }
    if Covered(hs, i) {
      var k :| 0 <= k < |hs| && hs[k].Has(i);
      assert k > 0 ==> rest[k - 1] == hs[k];
    }
  }

  /** The first hole of `a` starts no earlier and, if at the same block, ends no later than that of `b`. */
  lemma FirstHoleAgrees(a: seq<Hole>, b: seq<Hole>)
    requires Canonical(a) && Canonical(b) && a != [] && b != []
    requires forall i: nat :: Covered(a, i) <==> Covered(b, i)
    ensures b[0].index <= a[0].index
    ensures a[0].index == b[0].index ==> a[0].End() <= b[0].End()
  {
    assert a[0].Has(a[0].index);
    assert Covered(b, a[0].index);
    var k :| 0 <= k < |b| && b[k].Has(a[0].index);
    GapBehindFirst(b);
    CoveredBy(a, 0, b[0].End());
  }

  lemma CoveredBy(hs: seq<Hole>, k: nat, i: nat)
    requires k < |hs|
    ensures hs[k].Has(i) ==> Covered(hs, i)
  {
  }

  lemma GapBehindFirst(hs: seq<Hole>)
    requires Canonical(hs) && hs != []
    ensures !Covered(hs, hs[0].End())
  {
  }

  /* A list cut at one hole. Every edit of the list is proved on such parts. */

  ghost function Span(h: Hole): set<nat> {
    set i: nat | i < h.End() && h.Has(i)
  }

  /** Every hole of the list ends before block `x`, and does not touch it. */
  ghost predicate AllBelow(hs: seq<Hole>, x: nat) {
    forall k | 0 <= k < |hs| :: hs[k].End() < x
  }

  /** Every hole of the list starts behind block `x`. */
  ghost predicate AllAbove(hs: seq<Hole>, x: nat) {
    forall k | 0 <= k < |hs| :: x < hs[k].index
  }

  lemma HoleSetConcat(a: seq<Hole>, b: seq<Hole>)
    ensures HoleSet(a + b) == HoleSet(a) + HoleSet(b)
  {
    forall i: nat ensures Covered(a + b, i) <==> Covered(a, i) || Covered(b, i) {
      if Covered(a + b, i) {
        var k :| 0 <= k < |a + b| && (a + b)[k].Has(i);
        assert if k < |a| then a[k] == (a + b)[k] else b[k - |a|] == (a + b)[k];
      }
      if Covered(a, i) {
        var k :| 0 <= k < |a| && a[k].Has(i);
        assert (a + b)[k] == a[k];
      }
      if Covered(b, i) {
        var k :| 0 <= k < |b| && b[k].Has(i);
        assert (a + b)[|a| + k] == b[k];
      }
    }
  }

  lemma HoleSetParts(a: seq<Hole>, h: Hole, b: seq<Hole>)
    ensures HoleSet(a + [h] + b) == HoleSet(a) + Span(h) + HoleSet(b)
  {
    HoleSetConcat(a + [h], b);
    HoleSetConcat(a, [h]);
    assert [h][0] == h;
    assert [h][..0] == [];
    assert HoleSet([h]) == Span(h);
  }

  /** A canonical list, said of its parts. */
  ghost predicate Fits(a: seq<Hole>, h: Hole, b: seq<Hole>) {
    Canonical(a) && Canonical(b) && h.count > 0 && AllBelow(a, h.index) && AllAbove(b, h.End())
  }

  lemma CanonicalFits(a: seq<Hole>, h: Hole, b: seq<Hole>)
    requires Canonical(a + [h] + b)
    ensures Fits(a, h, b)
  {
    var hs, n := a + [h] + b, |a| + 1;
    assert forall k | 0 <= k < |a| :: a[k] == hs[k];
    assert forall k | 0 <= k < |b| :: b[k] == hs[n + k];
    assert hs[|a|] == h;
    forall j, k | 0 <= j < k < |b| ensures b[j].End() < b[k].index {
      assert hs[n + j].End() < hs[n + k].index;
    }
  }

  lemma FitsCanonical(a: seq<Hole>, h: Hole, b: seq<Hole>)
    requires Fits(a, h, b)
    ensures Canonical(a + [h] + b)
  {
    var hs, n := a + [h] + b, |a| + 1;
    assert forall k | 0 <= k < |a| :: hs[k] == a[k];
    assert forall k | n <= k < |hs| :: hs[k] == b[k - n];
    forall j, k | 0 <= j < k < |hs| ensures hs[j].End() < hs[k].index {
      if j < |a| && n <= k {
        assert a[j].End() < h.index && h.End() < b[k - n].index;
      }
    }
  }

  lemma FitsConcat(a: seq<Hole>, h: Hole, b: seq<Hole>)
    requires Fits(a, h, b)
    ensures Canonical(a + b)
  {
    var hs, n := a + b, |a|;
    assert forall k | 0 <= k < n :: hs[k] == a[k];
    assert forall k | n <= k < |hs| :: hs[k] == b[k - n];
    forall j, k | 0 <= j < k < |hs| ensures hs[j].End() < hs[k].index {
      if j < n <= k {
        assert a[j].End() < h.index && h.End() < b[k - n].index;
      }
    }
  }

  lemma BelowAvoids(hs: seq<Hole>, x: nat, i: nat)
    requires AllBelow(hs, x) && x <= i
    ensures i !in HoleSet(hs)
  {
  }

  lemma AboveAvoids(hs: seq<Hole>, x: nat, i: nat)
    requires AllAbove(hs, x) && i <= x
    ensures i !in HoleSet(hs)
  {
  }

  /** Replacing one hole by one that stays clear of its neighbours. */
  lemma Resize(a: seq<Hole>, h: Hole, b: seq<Hole>, g: Hole)
    requires Canonical(a + [h] + b) && g.count > 0 && AllBelow(a, g.index) && AllAbove(b, g.End())
    ensures Canonical(a + [g] + b)
    ensures HoleSet(a + [g] + b) == HoleSet(a + [h] + b) - Span(h) + Span(g)
  {
    CanonicalFits(a, h, b);
    FitsCanonical(a, g, b);
    hide Canonical, HoleSet;
    HoleSetParts(a, h, b);
    HoleSetParts(a, g, b);
    forall i | i in Span(h) ensures i !in HoleSet(a) && i !in HoleSet(b) {
      BelowAvoids(a, h.index, i);
      AboveAvoids(b, h.End(), i);
    }
  }

  lemma HoleSetCons(h: Hole, b: seq<Hole>)
    ensures HoleSet([h] + b) == Span(h) + HoleSet(b)
  {
    assert [h] + b == [] + [h] + b;
    assert HoleSet([]) == {};
    HoleSetParts([], h, b);
  }

  lemma FitsCons(h: Hole, b: seq<Hole>, x: nat)
    requires Canonical([h] + b) && AllAbove([h] + b, x)
    ensures Fits([], h, b) && x < h.index
  {
    assert [h] + b == [] + [h] + b;
    assert ([h] + b)[0] == h;
    CanonicalFits([], h, b);
  }

  lemma ConsFits(h: Hole, b: seq<Hole>, x: nat)
    requires Fits([], h, b) && x < h.index
    ensures Canonical([h] + b) && AllAbove([h] + b, x)
  {
    assert [h] + b == [] + [h] + b;
    FitsCanonical([], h, b);
    assert forall k | 0 < k < |[h] + b| :: ([h] + b)[k] == b[k - 1];
  }

  /** A hole, and the same hole with one more block at either end. */
  lemma SpanGrown(h: Hole, g: Hole, i: nat)
    requires (g.index == h.index && g.End() == h.End() + 1 && i == h.End())
             || (g.index + 1 == h.index && g.End() == h.End() && i == g.index)
    ensures Span(g) == Span(h) + {i} && i !in Span(h)
  {
    forall j: nat ensures j in Span(g) <==> j in Span(h) + {i} {
    }
  }

  lemma InHole(hs: seq<Hole>, k: nat, i: nat)
    requires k < |hs| && hs[k].Has(i)
    ensures i in HoleSet(hs)
  {
  }

  lemma InNoHole(hs: seq<Hole>, i: nat)
    requires forall k | 0 <= k < |hs| :: !hs[k].Has(i)
    ensures i !in HoleSet(hs)
  {
  }

  /** Two holes with one block between them, and the one hole that spans all of it. */
  lemma SpanUnion(h: Hole, r: Hole, g: Hole)
    requires r.index == h.End() + 1 && g.index == h.index && g.End() == r.End()
    ensures Span(g) == Span(h) + {h.End()} + Span(r)
  {
  }

  /** Joining two holes with exactly one block between them. */
  lemma Join(a: seq<Hole>, h: Hole, r: Hole, b: seq<Hole>)
    requires Canonical(a + [h] + ([r] + b)) && r.index == h.End() + 1
    ensures Canonical(a + [Hole(h.index, h.count + 1 + r.count)] + b)
    ensures HoleSet(a + [Hole(h.index, h.count + 1 + r.count)] + b) == HoleSet(a + [h] + ([r] + b)) + {h.End()}
  {
    var g := Hole(h.index, h.count + 1 + r.count);
    CanonicalFits(a, h, [r] + b);
    FitsCons(r, b, h.End());
    FitsCanonical(a, g, b);
    SpanUnion(h, r, g);
    hide *;
    HoleSetParts(a, h, [r] + b);
    HoleSetCons(r, b);
    HoleSetParts(a, g, b);
  }

  lemma CanonicalConcat(a: seq<Hole>, b: seq<Hole>)
    requires Canonical(a + b)
    ensures Canonical(a) && Canonical(b)
  {
    var hs, n := a + b, |a|;
    assert forall k | 0 <= k < n :: a[k] == hs[k];
    assert forall k | 0 <= k < |b| :: b[k] == hs[n + k];
    forall j, k | 0 <= j < k < |b| ensures b[j].End() < b[k].index {
      assert hs[n + j].End() < hs[n + k].index;
    }
  }

  lemma Insert(a: seq<Hole>, h: Hole, b: seq<Hole>)
    requires Canonical(a + b) && h.count > 0 && AllBelow(a, h.index) && AllAbove(b, h.End())
    ensures Canonical(a + [h] + b)
    ensures HoleSet(a + [h] + b) == HoleSet(a + b) + Span(h)
  {
    CanonicalConcat(a, b);
    FitsCanonical(a, h, b);
    HoleSetParts(a, h, b);
    HoleSetConcat(a, b);
  }

  lemma Remove(a: seq<Hole>, h: Hole, b: seq<Hole>)
    requires Canonical(a + [h] + b)
    ensures Canonical(a + b)
    ensures HoleSet(a + b) == HoleSet(a + [h] + b) - Span(h)
  {
    CanonicalFits(a, h, b);
    FitsConcat(a, h, b);
    hide Canonical, HoleSet;
    HoleSetParts(a, h, b);
    HoleSetConcat(a, b);
    forall i | i in Span(h) ensures i !in HoleSet(a) && i !in HoleSet(b) {
      BelowAvoids(a, h.index, i);
      AboveAvoids(b, h.End(), i);
    }
  }

  lemma TakeOut(a: set<nat>, g: set<nat>, r: set<nat>, b: set<nat>, x: nat)
    requires x !in a && x !in g && x !in r && x !in b
    ensures a + (g + {x} + r) + b - {x} == a + g + (r + b)
  {
  }

  lemma SplitFits(a: seq<Hole>, h: Hole, b: seq<Hole>, g: Hole, r: Hole)
    requires Fits(a, h, b) && g.count > 0 && r.count > 0
    requires g.index == h.index && r.index == g.End() + 1 && r.End() == h.End()
    ensures Canonical(a + [g] + ([r] + b))
    ensures g.End() !in HoleSet(a) && g.End() !in HoleSet(b)
  {
    ConsFits(r, b, g.End());
    FitsCanonical(a, g, [r] + b);
    BelowAvoids(a, h.index, g.End());
    AboveAvoids(b, h.End(), g.End());
  }

  /** Taking one inner block out of a hole splits it. */
  lemma Split(a: seq<Hole>, h: Hole, b: seq<Hole>, g: Hole, r: Hole)
    requires Canonical(a + [h] + b) && g.count > 0 && r.count > 0
    requires g.index == h.index && r.index == g.End() + 1 && r.End() == h.End()
    ensures Canonical(a + [g] + ([r] + b))
    ensures HoleSet(a + [g] + ([r] + b)) == HoleSet(a + [h] + b) - {g.End()}
  {
    CanonicalFits(a, h, b);
    SplitFits(a, h, b, g, r);
    SpanUnion(g, r, h);
    var x := g.End();
    assert x !in Span(g) && x !in Span(r);
    hide *;
    HoleSetParts(a, h, b);
    HoleSetCons(r, b);
    HoleSetParts(a, g, [r] + b);
    TakeOut(HoleSet(a), Span(g), Span(r), HoleSet(b), x);
  }
}
