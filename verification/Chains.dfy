/** Chains of links: where following them leads, and when they end. */
module Chains {

  /** The node `k` links further on, or the end of the chain if that comes first. */
  ghost function Follow<T>(r: map<T, T>, n: T, k: nat): T {
    if k == 0 || n !in r then n else Follow(r, r[n], k - 1)
  }

  ghost predicate EndsAt<T>(r: map<T, T>, n: T, t: T) {
    t !in r && exists k: nat :: Follow(r, n, k) == t
  }

  ghost predicate NeverEnds<T>(r: map<T, T>, n: T) {
    forall k: nat :: Follow(r, n, k) in r
  }

  ghost predicate HasCycle<T>(r: map<T, T>) {
    exists n, k: nat :: n in r && k > 0 && Follow(r, n, k) == n
  }

  lemma {:induction false} FollowAdd<T>(r: map<T, T>, n: T, a: nat, b: nat)
    ensures Follow(r, Follow(r, n, a), b) == Follow(r, n, a + b)
  {
    if a > 0 && n in r {
      FollowAdd(r, r[n], a - 1, b);
    }
  }

  lemma {:induction false} EndStays<T>(r: map<T, T>, n: T, a: nat, b: nat)
    requires a <= b && Follow(r, n, a) !in r
    ensures Follow(r, n, b) == Follow(r, n, a)
  {
    FollowAdd(r, n, a, b - a);
  }

  lemma OneEnd<T>(r: map<T, T>, n: T, t: T, u: T)
    requires EndsAt(r, n, t) && EndsAt(r, n, u)
    ensures t == u
  {
    var a: nat :| Follow(r, n, a) == t;
    var b: nat :| Follow(r, n, b) == u;
    EndStays(r, n, if a < b then a else b, if a < b then b else a);
  }

  /* A chain that never ends is one that runs into a cycle. */

  lemma {:induction false} RoundAndRound<T>(r: map<T, T>, n: T, k: nat, i: nat)
    requires n in r && k > 0 && Follow(r, n, k) == n
    ensures Follow(r, n, i) in r
  {
    if i < k {
      if Follow(r, n, i) !in r {
        EndStays(r, n, i, k);
      }
    } else {
      FollowAdd(r, n, k, i - k);
      RoundAndRound(r, n, k, i - k);
    }
  }

  ghost function Visited<T>(r: map<T, T>, n: T, k: nat): set<T> {
    if k == 0 then {} else Visited(r, n, k - 1) + {Follow(r, n, k - 1)}
  }

  lemma {:induction false} VisitedAt<T>(r: map<T, T>, n: T, k: nat, m: T)
    requires m in Visited(r, n, k)
    ensures exists i: nat | i < k :: Follow(r, n, i) == m
  {
    if m == Follow(r, n, k - 1) {
    } else {
      VisitedAt(r, n, k - 1, m);
    }
  }

  lemma {:induction false} AllDifferent<T>(r: map<T, T>, n: T, k: nat)
    requires forall i: nat, j: nat | i < j < k :: Follow(r, n, i) != Follow(r, n, j)
    ensures |Visited(r, n, k)| == k
  {
    if k > 0 {
      AllDifferent(r, n, k - 1);
      var m := Follow(r, n, k - 1);
      if m in Visited(r, n, k - 1) {
        VisitedAt(r, n, k - 1, m);
      }
    }
  }

  lemma SmallerSet<T>(a: set<T>, b: set<T>)
    requires a <= b
    ensures |a| <= |b|
  {
    assert b == a + (b - a);
  }

  lemma CycleExact<T>(r: map<T, T>)
    ensures HasCycle(r) <==> exists n :: n in r && NeverEnds(r, n)
  {
    if HasCycle(r) {
      var n, k: nat :| n in r && k > 0 && Follow(r, n, k) == n;
      forall i: nat ensures Follow(r, n, i) in r {
        RoundAndRound(r, n, k, i);
      }
    }
    if exists n :: n in r && NeverEnds(r, n) {
      var n :| n in r && NeverEnds(r, n);
      RunsIntoCycle(r, n);
    }
  }

  lemma RunsIntoCycle<T>(r: map<T, T>, n: T)
    requires NeverEnds(r, n)
    ensures HasCycle(r)
  {
    var size := |r.Keys| + 1;
    if forall i: nat, j: nat | i < j < size :: Follow(r, n, i) != Follow(r, n, j) {
      AllDifferent(r, n, size);
      forall m | m in Visited(r, n, size) ensures m in r.Keys {
        VisitedAt(r, n, size, m);
      }
      SmallerSet(Visited(r, n, size), r.Keys);
    } else {
      var i: nat, j: nat :| i < j < size && Follow(r, n, i) == Follow(r, n, j);
      FollowAdd(r, n, i, j - i);
      assert Follow(r, Follow(r, n, i), j - i) == Follow(r, n, i);
    }
  }
}
