/** Where a logical block is stored: its rank among the blocks of its file that are not sparse. */
module Ranks {

  /** Number of blocks below `i` that are not sparse. */
  function Rank(sparse: set<nat>, i: nat): nat {
    if i == 0 then 0 else Rank(sparse, i - 1) + if i - 1 in sparse then 0 else 1
  }

  lemma {:induction false} RankMonotone(sparse: set<nat>, i: nat, j: nat)
    requires i <= j
    ensures Rank(sparse, i) <= Rank(sparse, j) <= Rank(sparse, i) + (j - i)
  {
    if i < j {
      RankMonotone(sparse, i, j - 1);
    }
  }

  /** Different stored blocks have different ranks, in order. */
  lemma RankStrict(sparse: set<nat>, i: nat, j: nat)
    requires i < j && i !in sparse
    ensures Rank(sparse, i) < Rank(sparse, j)
  {
    RankMonotone(sparse, i + 1, j);
  }

  /** Every rank below the total belongs to a stored block. */
  lemma {:induction false} RankOnto(sparse: set<nat>, n: nat, r: nat) returns (i: nat)
    requires r < Rank(sparse, n)
    ensures i < n && i !in sparse && Rank(sparse, i) == r
  {
    if n - 1 !in sparse && Rank(sparse, n - 1) == r {
      i := n - 1;
    } else {
      i := RankOnto(sparse, n - 1, r);
    }
  }

  lemma {:induction false} RankAgree(a: set<nat>, b: set<nat>, n: nat)
    requires forall i: nat | i < n :: i in a <==> i in b
    ensures Rank(a, n) == Rank(b, n)
  {
    if n > 0 {
      RankAgree(a, b, n - 1);
    }
  }

  /** Making one more block sparse moves every block behind it down by one. */
  lemma {:induction false} RankMark(sparse: set<nat>, x: nat, n: nat)
    requires x !in sparse
    ensures Rank(sparse + {x}, n) == Rank(sparse, n) - if x < n then 1 else 0
    ensures x < n ==> Rank(sparse, n) > 0
  {
    if n > 0 {
      RankMark(sparse, x, n - 1);
    }
  }

  lemma RankUnmark(sparse: set<nat>, x: nat, n: nat)
    requires x in sparse
    ensures Rank(sparse - {x}, n) == Rank(sparse, n) + if x < n then 1 else 0
  {
    RankMark(sparse - {x}, x, n);
    assert sparse - {x} + {x} == sparse;
  }

  /** Without holes the rank is the block number itself. */
  lemma {:induction false} RankNone(n: nat)
    ensures Rank({}, n) == n
  {
    if n > 0 {
      RankNone(n - 1);
    }
  }
}
