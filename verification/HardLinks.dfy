/** Resolving hard links that point at hard links, by rounds of pointer jumping. */
module HardLinks {
  import opened Chains

  class Node {
    const isLink: bool
    var resolved: Node?
    var linkCount: nat

    constructor (isLink: bool)
      ensures this.isLink == isLink && resolved == null && linkCount == 1
    {
      this.isLink, resolved, linkCount := isLink, null, 1;
    }
  }

  /** Which node each link points at. A node that is no key is no link. */
  type Links = map<Node, Node>

  /* The rounds. Every link points somewhere on its own chain all the time. */

  ghost predicate OnChain(r: Links, n: Node, m: Node) {
    exists d: nat :: d > 0 && Follow(r, n, d) == m
  }

  ghost predicate AllOnChain(r: Links, cur: Links) {
    cur.Keys == r.Keys && forall n | n in r :: OnChain(r, n, cur[n])
  }

  /** The links that still point at links. */
  ghost function Pending(cur: Links): set<Node> {
    set n | n in cur && cur[n] in cur
  }

  lemma JumpOnChain(r: Links, n: Node, m: Node, t: Node)
    requires OnChain(r, n, m) && OnChain(r, m, t)
    ensures OnChain(r, n, t)
  {
    var a: nat :| a > 0 && Follow(r, n, a) == m;
    var b: nat :| b > 0 && Follow(r, m, b) == t;
    FollowAdd(r, n, a, b);
  }

  /** If no link points at one that is through, then none that is not through ever gets there. */
  lemma {:induction false} Stuck(r: Links, cur: Links, n: Node, k: nat)
    requires AllOnChain(r, cur) && n in Pending(cur)
    requires forall m | m in Pending(cur) :: cur[m] in Pending(cur)
    ensures Follow(r, n, k) in r
    decreases k
  {
    var d: nat :| d > 0 && Follow(r, n, d) == cur[n];
    if k < d {
      if Follow(r, n, k) !in r {
        EndStays(r, n, k, d);
      }
    } else {
      FollowAdd(r, n, d, k - d);
      Stuck(r, cur, cur[n], k - d);
    }
  }

  lemma StuckCycle(r: Links, cur: Links)
    requires AllOnChain(r, cur) && Pending(cur) != {}
    requires forall m | m in Pending(cur) :: cur[m] in Pending(cur)
    ensures HasCycle(r)
  {
    var n :| n in Pending(cur);
    forall k: nat ensures Follow(r, n, k) in r {
      Stuck(r, cur, n, k);
    }
    RunsIntoCycle(r, n);
  }

  /** Once no link points at a link, each points at the end of its chain, so there was no cycle. */
  lemma AllThrough(r: Links, cur: Links)
    requires AllOnChain(r, cur) && Pending(cur) == {}
    ensures !HasCycle(r)
    ensures forall n | n in r :: EndsAt(r, n, cur[n])
  {
    forall n | n in r ensures EndsAt(r, n, cur[n]) && !NeverEnds(r, n) {
      assert n !in Pending(cur);
      var d: nat :| d > 0 && Follow(r, n, d) == cur[n];
    }
    CycleExact(r);
  }

  /* The code, on the nodes themselves. */

  ghost predicate Shaped(links: seq<Node>)
    reads links
  {
    && (forall i, j | 0 <= i < |links| && 0 <= j < |links| && i != j :: links[i] != links[j])
    && (forall n | n in links :: n.isLink && n.resolved != null && (n.resolved.isLink ==> n.resolved in links))
  }

  ghost function Targets(links: seq<Node>): (r: Links)
    requires Shaped(links)
    reads links
    ensures r.Keys == set n | n in links
    ensures forall n | n in r :: r[n] == n.resolved
  {
    map n: Node | n in links :: n.resolved as Node
  }

  /** What the round has done to the links before `k`, and left of the others. */
  ghost predicate RoundUpTo(links: seq<Node>, c0: Links, c: Links, k: nat, remaining: nat, resolved: nat) {
    && c.Keys == c0.Keys
    && (forall j | k <= j < |links| && links[j] in c :: c[links[j]] == c0[links[j]])
    && (forall n | n in c && n !in Pending(c0) :: c[n] == c0[n])
    && Pending(c) <= Pending(c0)
    && (remaining == 0 <==> forall j | 0 <= j < k && j < |links| :: links[j] !in Pending(c))
    && (if resolved > 0 then Pending(c) < Pending(c0)
        else Pending(c) == Pending(c0) &&
             forall j | 0 <= j < k && j < |links| && links[j] in Pending(c0) :: c0[links[j]] in Pending(c0))
  }

  /** The link points one link further on. */
  method Jump(links: seq<Node>, n: Node) returns (target: Node)
    requires Shaped(links) && n in links && n.resolved.isLink
    modifies n`resolved
    ensures Shaped(links) && (target.isLink <==> target in links)
    ensures var c := old(Targets(links)); target == c[c[n]] && Targets(links) == c[n := c[c[n]]]
  {
    target := n.resolved.resolved;
    n.resolved := target;
  }

  method JumpRound(links: seq<Node>, ghost r: Links) returns (remaining: nat, resolved: nat)
    requires Shaped(links) && AllOnChain(r, Targets(links))
    modifies links
    ensures Shaped(links) && AllOnChain(r, Targets(links))
    ensures RoundUpTo(links, old(Targets(links)), Targets(links), |links|, remaining, resolved)
    ensures forall n | n in links :: n.linkCount == old(n.linkCount)
  {
    hide RoundUpTo, AllOnChain, Pending;
    ghost var c0 := Targets(links);
    remaining, resolved := 0, 0;
    var k := 0;
    RoundStart(links, c0);
    while k < |links|
      invariant 0 <= k <= |links| && Shaped(links) && AllOnChain(r, Targets(links))
      invariant RoundUpTo(links, c0, Targets(links), k, remaining, resolved)
      invariant forall n | n in links :: n.linkCount == old(n.linkCount)
    {
      var n := links[k];
      ghost var c := Targets(links);
      var target := n.resolved;
      if target.isLink {
        target := Jump(links, n);
        JumpStep(links, r, c0, c, k, remaining, resolved);
        if target.isLink {
          remaining := remaining + 1;
        } else {
          resolved := resolved + 1;
        }
      } else {
        SkipStep(links, c0, c, k, remaining, resolved);
      }
      k := k + 1;
    }
  }

  lemma RoundStart(links: seq<Node>, c: Links)
    ensures RoundUpTo(links, c, c, 0, 0, 0)
  {
  }

  lemma SkipStep(links: seq<Node>, c0: Links, c: Links, k: nat, remaining: nat, resolved: nat)
    requires k < |links| && links[k] in c && c[links[k]] !in c
    requires RoundUpTo(links, c0, c, k, remaining, resolved)
    ensures RoundUpTo(links, c0, c, k + 1, remaining, resolved)
  {
    hide Pending;
    NotPending(c, links[k]);
  }

  lemma NotPending(c: Links, n: Node)
    requires n in c && c[n] !in c
    ensures n !in Pending(c)
  {
  }

  lemma JumpStep(links: seq<Node>, r: Links, c0: Links, c: Links, k: nat, remaining: nat, resolved: nat)
    requires k < |links| && links[k] in c && c[links[k]] in c && AllOnChain(r, c)
    requires forall i, j | 0 <= i < |links| && 0 <= j < |links| && i != j :: links[i] != links[j]
    requires RoundUpTo(links, c0, c, k, remaining, resolved)
    ensures var n := links[k];
            var c1 := c[n := c[c[n]]];
            && AllOnChain(r, c1)
            && (c[c[n]] in c ==> RoundUpTo(links, c0, c1, k + 1, remaining + 1, resolved))
            && (c[c[n]] !in c ==> RoundUpTo(links, c0, c1, k + 1, remaining, resolved + 1))
  {
    var n := links[k];
    var c1 := c[n := c[c[n]]];
    assert n in Pending(c0) && c[n] == c0[n];
    JumpOnChain(r, n, c[n], c[c[n]]);
    hide OnChain;
    if c[c[n]] in c {
      assert Pending(c1) == Pending(c);
      assert n in Pending(c1);
    } else {
      assert Pending(c1) == Pending(c) - {n};
    }
  }

  method ResolveTargets(links: seq<Node>, ghost tree: set<Node>, fromRoot: seq<Node?>, fromParent: seq<Node?>)
    returns (ok: bool)
    requires |fromRoot| == |links| && |fromParent| == |links|
    requires InTree(links, tree, fromRoot, fromParent)
    modifies links
    ensures ok <==> forall k | 0 <= k < |links| :: fromRoot[k] != null || fromParent[k] != null
    ensures ok ==> Shaped(links) && forall k | 0 <= k < |links| ::
              Targets(links)[links[k]] == if fromRoot[k] != null then fromRoot[k] else fromParent[k]
    ensures forall n | n in tree :: n.linkCount == old(n.linkCount)
  {
    var k := 0;
    while k < |links|
      invariant 0 <= k <= |links|
      invariant forall j | 0 <= j < k :: (fromRoot[j] != null || fromParent[j] != null) &&
                                         links[j].resolved == Found(fromRoot[j], fromParent[j])
      invariant forall n | n in tree :: n.linkCount == old(n.linkCount)
    {
      var target := fromRoot[k];
      if target == null {
        target := fromParent[k];
      }
      if target == null {
        return false;
      }
      links[k].resolved := target;
      k := k + 1;
    }
    ok := true;
  }

  /** A path is looked up from the root first, then from the directory that the link is in. */
  function Found(fromRoot: Node?, fromParent: Node?): (t: Node?)
    ensures t == null <==> fromRoot == null && fromParent == null
    ensures fromRoot != null ==> t == fromRoot
    ensures fromRoot == null ==> t == fromParent
  {
    if fromRoot != null then fromRoot else fromParent
  }

  /** The list holds different nodes, the hard links of the tree, and what a lookup finds is in the tree. */
  ghost predicate InTree(links: seq<Node>, tree: set<Node>, fromRoot: seq<Node?>, fromParent: seq<Node?>) {
    && (forall i, j | 0 <= i < |links| && 0 <= j < |links| && i != j :: links[i] != links[j])
    && (forall n | n in tree :: n.isLink <==> n in links)
    && (forall n | n in links :: n in tree)
    && (forall n | n in fromRoot && n != null :: n in tree)
    && (forall n | n in fromParent && n != null :: n in tree)
  }

  /** How many of the first `k` links point at `t`. */
  ghost function PointingAt(links: seq<Node>, c: Links, k: nat, t: Node): nat
    requires k <= |links|
  {
    if k == 0 then 0
    else PointingAt(links, c, k - 1, t) + if links[k - 1] in c && c[links[k - 1]] == t then 1 else 0
  }

  /** That is the number of those links. */
  lemma {:induction false} PointingAtExact(links: seq<Node>, c: Links, k: nat, t: Node)
    requires k <= |links|
    ensures PointingAt(links, c, k, t) == |set i | 0 <= i < k && links[i] in c && c[links[i]] == t|
  {
    var now := set i | 0 <= i < k && links[i] in c && c[links[i]] == t;
    if k == 0 {
      assert now == {};
    } else {
      PointingAtExact(links, c, k - 1, t);
      var before := set i | 0 <= i < k - 1 && links[i] in c && c[links[i]] == t;
      assert now == before + if links[k - 1] in c && c[links[k - 1]] == t then {k - 1} else {};
    }
  }

  method CountLinks(links: seq<Node>, tree: set<Node>)
    requires Shaped(links) && forall n | n in links :: n in tree && n.resolved in tree
    modifies tree
    ensures Shaped(links) && Targets(links) == old(Targets(links))
    ensures forall n | n in tree :: n.linkCount == old(n.linkCount) + PointingAt(links, Targets(links), |links|, n)
  {
    ghost var c := Targets(links);
    var k := 0;
    while k < |links|
      invariant 0 <= k <= |links|
      invariant forall n | n in tree :: n.resolved == old(n.resolved)
      invariant forall n | n in tree :: n.linkCount == old(n.linkCount) + PointingAt(links, c, k, n)
    {
      var target := links[k].resolved;
      target.linkCount := target.linkCount + 1;
      k := k + 1;
    }
    assert Targets(links) == c;
  }

  lemma {:induction false} FollowIn(r: Links, tree: set<Node>, n: Node, k: nat)
    requires n in tree && forall m | m in r :: r[m] in tree
    ensures Follow(r, n, k) in tree
  {
    if k > 0 && n in r {
      FollowIn(r, tree, r[n], k - 1);
    }
  }

  lemma EndIn(r: Links, tree: set<Node>, n: Node, t: Node)
    requires n in tree && EndsAt(r, n, t) && forall m | m in r :: r[m] in tree
    ensures t in tree
  {
    var k: nat :| Follow(r, n, k) == t;
    FollowIn(r, tree, n, k);
  }

  /** Rounds until no link points at a link any more, or until a round gets no link through. */
  method ResolveRounds(links: seq<Node>) returns (ok: bool)
    requires Shaped(links)
    modifies links
    ensures Shaped(links) && forall n | n in links :: n.linkCount == old(n.linkCount)
    ensures ok <==> !HasCycle(old(Targets(links)))
    ensures ok ==> forall n | n in links :: EndsAt(old(Targets(links)), n, Targets(links)[n])
  {
    ghost var r := Targets(links);
    AllStart(r);
    while true
      invariant Shaped(links) && AllOnChain(r, Targets(links))
      invariant forall n | n in links :: n.linkCount == old(n.linkCount)
      decreases Pending(Targets(links))
    {
      ghost var c := Targets(links);
      var remaining, resolved := JumpRound(links, r);
      if remaining == 0 {
        NonePending(links, c, Targets(links), resolved);
        AllThrough(r, Targets(links));
        return true;
      }
      if resolved == 0 {
        NoneThrough(links, r, c, Targets(links), remaining);
        return false;
      }
    }
  }

  lemma AllStart(r: Links)
    ensures AllOnChain(r, r)
  {
    forall n | n in r ensures OnChain(r, n, r[n]) {
      assert Follow(r, n, 1) == r[n];
    }
  }

  lemma NonePending(links: seq<Node>, c0: Links, c: Links, resolved: nat)
    requires RoundUpTo(links, c0, c, |links|, 0, resolved) && forall n | n in c :: n in links
    ensures Pending(c) == {}
  {
  }

  lemma NoneThrough(links: seq<Node>, r: Links, c0: Links, c: Links, remaining: nat)
    requires RoundUpTo(links, c0, c, |links|, remaining, 0) && remaining > 0
    requires AllOnChain(r, c0) && forall n | n in c0 :: n in links
    ensures HasCycle(r)
  {
    hide HasCycle, AllOnChain;
    StuckCycle(r, c0);
  }

  /** What the paths of the first `k` links lead to. */
  ghost function PathLinks(links: seq<Node>, fromRoot: seq<Node?>, fromParent: seq<Node?>, k: nat): Links
    requires k <= |links| == |fromRoot| == |fromParent|
  {
    if k == 0 then map[]
    else
      var r, t := PathLinks(links, fromRoot, fromParent, k - 1), Found(fromRoot[k - 1], fromParent[k - 1]);
      if t != null then r[links[k - 1] := t] else r
  }

  lemma {:induction false} PathLinksAt(links: seq<Node>, fromRoot: seq<Node?>, fromParent: seq<Node?>, k: nat)
    requires k <= |links| == |fromRoot| == |fromParent|
    requires forall i, j | 0 <= i < |links| && 0 <= j < |links| && i != j :: links[i] != links[j]
    requires forall j | 0 <= j < k :: Found(fromRoot[j], fromParent[j]) != null
    ensures PathLinks(links, fromRoot, fromParent, k).Keys == set n | n in links[..k]
    ensures forall j | 0 <= j < k ::
              PathLinks(links, fromRoot, fromParent, k)[links[j]] == Found(fromRoot[j], fromParent[j])
  {
    if k > 0 {
      PathLinksAt(links, fromRoot, fromParent, k - 1);
      assert links[..k] == links[..k - 1] + [links[k - 1]];
    }
  }

  lemma FoundInTree(links: seq<Node>, tree: set<Node>, fromRoot: seq<Node?>, fromParent: seq<Node?>)
    requires |fromRoot| == |links| && |fromParent| == |links|
    requires InTree(links, tree, fromRoot, fromParent)
    requires forall j | 0 <= j < |links| :: Found(fromRoot[j], fromParent[j]) != null
    ensures var r := PathLinks(links, fromRoot, fromParent, |links|);
            forall m | m in r :: r[m] in tree
  {
    PathLinksAt(links, fromRoot, fromParent, |links|);
    assert links[..|links|] == links;
  }

  /**
   * Succeeds exactly if every path is found and no link leads into a cycle. Then each link points at the end of its
   * chain, and each node's link count has grown by the number of links that end at it.
   */
  method ResolveHardLinks(links: seq<Node>, tree: set<Node>, fromRoot: seq<Node?>, fromParent: seq<Node?>)
    returns (ok: bool)
    requires |fromRoot| == |links| && |fromParent| == |links|
    requires InTree(links, tree, fromRoot, fromParent)
    modifies tree
    ensures var r := PathLinks(links, fromRoot, fromParent, |links|);
            && (ok <==>
                  (forall k | 0 <= k < |links| :: fromRoot[k] != null || fromParent[k] != null) && !HasCycle(r))
            && (ok ==> Shaped(links) && forall n | n in links :: EndsAt(r, n, Targets(links)[n]))
    ensures if ok
            then forall n | n in tree :: n.linkCount == old(n.linkCount) + PointingAt(links, Targets(links), |links|, n)
            else forall n | n in tree :: n.linkCount == old(n.linkCount)
  {
    hide HasCycle, EndsAt, PathLinks, PointingAt;
    ok := ResolveTargets(links, tree, fromRoot, fromParent);
    if !ok {
      return;
    }
    PathLinksAt(links, fromRoot, fromParent, |links|);
    assert links[..|links|] == links;
    assert PathLinks(links, fromRoot, fromParent, |links|) == Targets(links);
    FoundInTree(links, tree, fromRoot, fromParent);
    ok := ResolveRounds(links);
    if ok {
      ghost var r := PathLinks(links, fromRoot, fromParent, |links|);
      forall n | n in links ensures n.resolved in tree {
        EndIn(r, tree, n, n.resolved);
      }
      CountLinks(links, tree);
    }
  }
}
