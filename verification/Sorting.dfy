/** The merge sort of node lists. */
module Sorting {

  /** The comparison is one that a list can be sorted by. */
  ghost predicate TotalPreorder<T(!new)>(leq: (T, T) -> bool) {
    && (forall x, y :: leq(x, y) || leq(y, x))
    && (forall x, y, z :: leq(x, y) && leq(y, z) ==> leq(x, z))
  }

  ghost predicate Sorted<T>(s: seq<T>, leq: (T, T) -> bool) {
    forall i, j | 0 <= i < j < |s| :: leq(s[i], s[j])
  }

  /** The elements that compare equal to `x`, in the order of the list. */
  ghost function Alike<T>(s: seq<T>, leq: (T, T) -> bool, x: T): seq<T> {
    if s == [] then []
    else (if leq(s[0], x) && leq(x, s[0]) then [s[0]] else []) + Alike(s[1..], leq, x)
  }

  lemma {:induction false} AlikeConcat<T>(a: seq<T>, b: seq<T>, leq: (T, T) -> bool, x: T)
    ensures Alike(a + b, leq, x) == Alike(a, leq, x) + Alike(b, leq, x)
  {
    if a == [] {
      assert a + b == b;
    } else {
      assert (a + b)[1..] == a[1..] + b && (a + b)[0] == a[0];
      AlikeConcat(a[1..], b, leq, x);
      var head := if leq(a[0], x) && leq(x, a[0]) then [a[0]] else [];
      assert Alike(a + b, leq, x) == head + Alike(a[1..] + b, leq, x);
      assert Alike(a, leq, x) == head + Alike(a[1..], leq, x);
    }
  }

  /** Where the first element of a list is in another order of it, and that the rest is another order of the rest. */
  lemma PermutedHead<T>(a: seq<T>, b: seq<T>) returns (j: nat)
    requires multiset(a) == multiset(b) && a != []
    ensures j < |b| && b[j] == a[0] && multiset(a[1..]) == multiset(b[..j] + b[j + 1..])
    ensures a == [a[0]] + a[1..] && b == b[..j] + [b[j]] + b[j + 1..]
  {
    assert a[0] in multiset(b);
    j :| 0 <= j < |b| && b[j] == a[0];
    assert a == [a[0]] + a[1..];
    assert b == b[..j] + [b[j]] + b[j + 1..];
    assert multiset(a) == multiset{a[0]} + multiset(a[1..]);
    assert multiset(b) == multiset(b[..j]) + multiset{b[j]} + multiset(b[j + 1..]);
    assert multiset(b[..j] + b[j + 1..]) == multiset(b[..j]) + multiset(b[j + 1..]);
    assert multiset(b[..j] + b[j + 1..]) == multiset(b) - multiset{b[j]}
           && multiset(a[1..]) == multiset(a) - multiset{a[0]};
  }

  /** Sorted, with all elements, and those that compare equal in the same order as before. */
  ghost predicate StableSorted<T(!new)>(r: seq<T>, s: seq<T>, leq: (T, T) -> bool) {
    && Sorted(r, leq)
    && multiset(r) == multiset(s)
    && forall x :: Alike(r, leq, x) == Alike(s, leq, x)
  }

  lemma NotBelow<T(!new)>(leq: (T, T) -> bool, a: T, x: T, y: T)
    requires TotalPreorder(leq) && leq(x, y) && !leq(a, y)
    ensures !leq(a, x)
  {
  }

  /** An element that is in front of everything of `a` has nothing alike in `a`. */
  lemma {:induction false} NothingAlike<T(!new)>(a: seq<T>, leq: (T, T) -> bool, y: T, x: T)
    requires TotalPreorder(leq) && leq(x, y) && forall i | 0 <= i < |a| :: !leq(a[i], y)
    ensures Alike(a, leq, x) == []
  {
    hide TotalPreorder;
    if a != [] {
      NothingAlike(a[1..], leq, y, x);
      NotBelow(leq, a[0], x, y);
    }
  }

  lemma TakeLeft<T>(lhs: seq<T>, rhs: seq<T>, leq: (T, T) -> bool, x: T)
    requires lhs != []
    ensures Alike(lhs + rhs, leq, x) == Alike([lhs[0]], leq, x) + Alike(lhs[1..] + rhs, leq, x)
  {
    hide Alike;
    assert lhs + rhs == [lhs[0]] + (lhs[1..] + rhs);
    AlikeConcat([lhs[0]], lhs[1..] + rhs, leq, x);
  }

  lemma TakeRight<T(!new)>(lhs: seq<T>, rhs: seq<T>, leq: (T, T) -> bool, x: T)
    requires TotalPreorder(leq) && rhs != [] && forall i | 0 <= i < |lhs| :: !leq(lhs[i], rhs[0])
    ensures Alike(lhs + rhs, leq, x) == Alike([rhs[0]], leq, x) + Alike(lhs + rhs[1..], leq, x)
  {
    hide Alike, TotalPreorder;
    var y := rhs[0];
    AlikeConcat(lhs, rhs, leq, x);
    AlikeConcat(lhs, rhs[1..], leq, x);
    assert rhs == [y] + rhs[1..];
    AlikeConcat([y], rhs[1..], leq, x);
    if leq(x, y) {
      NothingAlike(lhs, leq, y, x);
    } else {
      AlikeNone(y, leq, x);
    }
    SwapEmpty(Alike(lhs, leq, x), Alike([y], leq, x), Alike(rhs[1..], leq, x));
  }

  lemma SwapEmpty<T>(a: seq<T>, b: seq<T>, c: seq<T>)
    requires a == [] || b == []
    ensures a + (b + c) == b + (a + c)
  {
    if a == [] {
      assert a + (b + c) == b + c && a + c == c;
    } else {
      assert b + c == c && b + (a + c) == a + c;
    }
  }

  lemma AlikeNone<T>(y: T, leq: (T, T) -> bool, x: T)
    requires !leq(x, y)
    ensures Alike([y], leq, x) == []
  {
  }

  /** Everything of `a` is in front of everything of `b`, or compares equal. */
  ghost predicate Before<T>(a: seq<T>, b: seq<T>, leq: (T, T) -> bool) {
    forall i, j | 0 <= i < |a| && 0 <= j < |b| :: leq(a[i], b[j])
  }

  /** What has been linked up so far, with what is left of both lists: nothing is lost or out of order. */
  ghost predicate Merging<T(!new)>(done: seq<T>, l: seq<T>, r: seq<T>, all: seq<T>, leq: (T, T) -> bool) {
    && Sorted(done, leq) && Sorted(l, leq) && Sorted(r, leq) && Before(done, l, leq) && Before(done, r, leq)
    && multiset(done) + multiset(l) + multiset(r) == multiset(all)
    && forall x :: Alike(done, leq, x) + Alike(l + r, leq, x) == Alike(all, leq, x)
  }

  /** The first of a sorted list is in front of all of it. */
  lemma HeadFirst<T(!new)>(s: seq<T>, leq: (T, T) -> bool, y: T)
    requires TotalPreorder(leq) && Sorted(s, leq) && s != [] && leq(y, s[0])
    ensures Before([y], s, leq) && Sorted(s[1..], leq)
  {
    forall j | 0 <= j < |s| ensures leq(y, s[j]) {
      assert j == 0 || leq(s[0], s[j]);
    }
  }

  lemma Extended<T>(done: seq<T>, y: T, s: seq<T>, leq: (T, T) -> bool)
    requires Before(done, s, leq) && Before([y], s, leq)
    ensures Before(done + [y], s, leq)
  {
    forall j | 0 <= j < |s| ensures leq(y, s[j]) {
      assert [y][0] == y;
    }
  }

  lemma Appended<T>(done: seq<T>, s: seq<T>, leq: (T, T) -> bool)
    requires Sorted(done, leq) && Before(done, s, leq) && s != []
    ensures Sorted(done + [s[0]], leq) && Before(done, s[1..], leq)
  {
  }

  lemma MergeLeft<T(!new)>(done: seq<T>, l: seq<T>, r: seq<T>, all: seq<T>, leq: (T, T) -> bool)
    requires TotalPreorder(leq) && Merging(done, l, r, all, leq) && l != [] && r != [] && leq(l[0], r[0])
    ensures Merging(done + [l[0]], l[1..], r, all, leq)
  {
    hide TotalPreorder, Alike, Sorted, Before;
    var y := l[0];
    assert l == [y] + l[1..];
    Reflexive(leq, y);
    HeadFirst(l, leq, y);
    HeadFirst(r, leq, y);
    Appended(done, l, leq);
    Behind(y, l, leq);
    Extended(done, y, l[1..], leq);
    Extended(done, y, r, leq);
    forall x ensures Alike(done + [y], leq, x) + Alike(l[1..] + r, leq, x) == Alike(all, leq, x) {
      TakeLeft(l, r, leq, x);
      AlikeConcat(done, [y], leq, x);
    }
  }

  lemma MergeRight<T(!new)>(done: seq<T>, l: seq<T>, r: seq<T>, all: seq<T>, leq: (T, T) -> bool)
    requires TotalPreorder(leq) && Merging(done, l, r, all, leq) && l != [] && r != [] && !leq(l[0], r[0])
    ensures Merging(done + [r[0]], l, r[1..], all, leq)
  {
    hide TotalPreorder, Alike, Sorted, Before;
    var y := r[0];
    assert r == [y] + r[1..];
    Reflexive(leq, y);
    Total(leq, l[0], y);
    HeadFirst(l, leq, y);
    HeadFirst(r, leq, y);
    Appended(done, r, leq);
    Behind(y, r, leq);
    Extended(done, y, r[1..], leq);
    Extended(done, y, l, leq);
    NoneBelow(l, leq, y);
    forall x ensures Alike(done + [y], leq, x) + Alike(l + r[1..], leq, x) == Alike(all, leq, x) {
      TakeRight(l, r, leq, x);
      AlikeConcat(done, [y], leq, x);
    }
  }

  lemma Reflexive<T(!new)>(leq: (T, T) -> bool, y: T)
    requires TotalPreorder(leq)
    ensures leq(y, y)
  {
  }

  lemma Total<T(!new)>(leq: (T, T) -> bool, x: T, y: T)
    requires TotalPreorder(leq)
    ensures leq(x, y) || leq(y, x)
  {
  }

  lemma Behind<T>(y: T, s: seq<T>, leq: (T, T) -> bool)
    requires Before([y], s, leq) && s != []
    ensures Before([y], s[1..], leq)
  {
  }

  /** If the first of a sorted list is behind `y`, all of it is. */
  lemma NoneBelow<T(!new)>(s: seq<T>, leq: (T, T) -> bool, y: T)
    requires TotalPreorder(leq) && Sorted(s, leq) && s != [] && !leq(s[0], y)
    ensures forall i | 0 <= i < |s| :: !leq(s[i], y)
  {
    forall i | 0 <= i < |s| ensures !leq(s[i], y) {
      Reflexive(leq, s[0]);
      assert leq(s[0], s[i]);
    }
  }

  method Merge<T(!new)>(lhs: seq<T>, rhs: seq<T>, leq: (T, T) -> bool) returns (list: seq<T>)
    requires TotalPreorder(leq) && Sorted(lhs, leq) && Sorted(rhs, leq)
    ensures StableSorted(list, lhs + rhs, leq)
  {
    hide TotalPreorder, Alike, Sorted, Merging;
    var l, r := lhs, rhs;
    list := [];
    MergeStart(lhs, rhs, leq);
    while |l| > 0 && |r| > 0
      invariant Merging(list, l, r, lhs + rhs, leq)
      decreases |l| + |r|
    {
      if leq(l[0], r[0]) {
        MergeLeft(list, l, r, lhs + rhs, leq);
        list, l := list + [l[0]], l[1..];
      } else {
        MergeRight(list, l, r, lhs + rhs, leq);
        list, r := list + [r[0]], r[1..];
      }
    }
    MergeEnd(list, l, r, lhs + rhs, leq);
    list := list + if |l| > 0 then l else r;
  }

  lemma MergeStart<T(!new)>(lhs: seq<T>, rhs: seq<T>, leq: (T, T) -> bool)
    requires Sorted(lhs, leq) && Sorted(rhs, leq)
    ensures Merging([], lhs, rhs, lhs + rhs, leq)
  {
    hide Alike;
    forall x ensures Alike([], leq, x) + Alike(lhs + rhs, leq, x) == Alike(lhs + rhs, leq, x) {
      AlikeEmpty(leq, x);
    }
  }

  lemma AlikeEmpty<T>(leq: (T, T) -> bool, x: T)
    ensures Alike([], leq, x) == []
  {
  }

  lemma MergeEnd<T(!new)>(done: seq<T>, l: seq<T>, r: seq<T>, all: seq<T>, leq: (T, T) -> bool)
    requires Merging(done, l, r, all, leq) && (l == [] || r == [])
    ensures StableSorted(done + if |l| > 0 then l else r, all, leq)
  {
    hide Alike;
    var rest := if |l| > 0 then l else r;
    assert l + r == rest;
    assert Sorted(done + rest, leq);
    forall x ensures Alike(done + rest, leq, x) == Alike(all, leq, x) {
      AlikeConcat(done, rest, leq, x);
    }
  }

  /** Two sorted halves of a list, merged, are the list sorted. */
  lemma HalvesSorted<T(!new)>(list: seq<T>, a: seq<T>, b: seq<T>, front: seq<T>, back: seq<T>, leq: (T, T) -> bool)
    requires StableSorted(a, front, leq) && StableSorted(b, back, leq) && StableSorted(list, a + b, leq)
    ensures StableSorted(list, front + back, leq)
  {
    hide Alike, Sorted;
    forall x ensures Alike(list, leq, x) == Alike(front + back, leq, x) {
      AlikeConcat(a, b, leq, x);
      AlikeConcat(front, back, leq, x);
    }
  }

  /** The list is cut behind half of its elements, rounded up, found by walking it at two speeds. */
  method SortNodeList<T(!new)>(list: seq<T>, leq: (T, T) -> bool) returns (sorted: seq<T>)
    requires TotalPreorder(leq)
    ensures StableSorted(sorted, list, leq)
    decreases |list|
  {
    hide TotalPreorder, Alike;
    var it, half := 0, 0;
    while it < |list|
      invariant 0 <= half <= |list| && it <= |list| && (it == 2 * half || (it == |list| && it + 1 == 2 * half))
      decreases |list| - it
    {
      half, it := half + 1, it + 1;
      if it < |list| {
        it := it + 1;
      }
    }
    if half == |list| {
      return list;
    }
    var lhs := SortNodeList(list[..half], leq);
    var rhs := SortNodeList(list[half..], leq);
    sorted := Merge(lhs, rhs, leq);
    assert list == list[..half] + list[half..];
    HalvesSorted(sorted, lhs, rhs, list[..half], list[half..], leq);
  }

  /** There is only one way to sort a list so. */
  lemma {:induction false} StableUnique<T(!new)>(a: seq<T>, b: seq<T>, leq: (T, T) -> bool)
    requires TotalPreorder(leq) && Sorted(a, leq) && Sorted(b, leq)
    requires forall x :: Alike(a, leq, x) == Alike(b, leq, x)
    ensures a == b
  {
    hide TotalPreorder;
    if a != [] {
      AlikeSelf(a, leq);
    }
    if b != [] {
      AlikeSelf(b, leq);
    }
    if a != [] && b != [] {
      SameHead(a, b, leq);
      forall x ensures Alike(a[1..], leq, x) == Alike(b[1..], leq, x) {
        assert Alike(a, leq, x) == Alike(b, leq, x);
        CancelFront(if leq(a[0], x) && leq(x, a[0]) then [a[0]] else [], Alike(a[1..], leq, x), Alike(b[1..], leq, x));
      }
      StableUnique(a[1..], b[1..], leq);
    }
  }

  lemma AlikeSelf<T(!new)>(s: seq<T>, leq: (T, T) -> bool)
    requires TotalPreorder(leq) && s != []
    ensures Alike(s, leq, s[0]) != []
  {
    hide TotalPreorder;
    Reflexive(leq, s[0]);
  }

  lemma CancelFront<T>(h: seq<T>, a: seq<T>, b: seq<T>)
    requires h + a == h + b
    ensures a == b
  {
    assert (h + a)[|h|..] == a && (h + b)[|h|..] == b;
  }

  lemma SameHead<T(!new)>(a: seq<T>, b: seq<T>, leq: (T, T) -> bool)
    requires TotalPreorder(leq) && Sorted(a, leq) && Sorted(b, leq) && a != [] && b != []
    requires forall x :: Alike(a, leq, x) == Alike(b, leq, x)
    ensures a[0] == b[0]
  {
    hide TotalPreorder;
    NotBehind(a, b, leq);
    NotBehind(b, a, leq);
    Reflexive(leq, a[0]);
    assert Alike(a, leq, a[0])[0] == a[0];
    assert Alike(b, leq, a[0])[0] == b[0];
  }

  lemma NotBehind<T(!new)>(a: seq<T>, b: seq<T>, leq: (T, T) -> bool)
    requires TotalPreorder(leq) && Sorted(a, leq) && a != [] && b != []
    requires forall x :: Alike(a, leq, x) == Alike(b, leq, x)
    ensures leq(a[0], b[0])
  {
    hide TotalPreorder;
    var y := b[0];
    Total(leq, a[0], y);
    Reflexive(leq, y);
    if !leq(a[0], y) {
      NoneBelow(a, leq, y);
      NothingAlike(a, leq, y, y);
    }
  }
}
