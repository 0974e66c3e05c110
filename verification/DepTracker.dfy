/** The dependency tracker: every object is committed once, after all that depend on it. */
module DepTracker {
  import opened Chains

  datatype Kind = VolumeNode | FilesystemNode | PartitionNode | PartMgrNode

  /** What a node stands for: an object and the role it is seen in. */
  datatype Key = Key(kind: Kind, obj: nat)

  class DepNode {
    const key: Key
    const name: string
    var depCount: nat

    constructor (key: Key, name: string)
      ensures this.key == key && this.name == name
    {
      this.key, this.name, depCount := key, name, 0;
    }
  }

  datatype Edge = Edge(node: DepNode, dependsOn: DepNode)

  datatype Outcome = Done | Cycle | Failed(key: Key)

  /* Graphs over the keys: a pair says that the first depends on the second. */

  ghost predicate IsPath(g: set<(Key, Key)>, p: seq<Key>) {
    |p| > 1 && forall i | 0 <= i < |p| - 1 :: (p[i], p[i + 1]) in g
  }

  ghost predicate Cyclic(g: set<(Key, Key)>) {
    exists p: seq<Key> :: IsPath(g, p) && p[0] == p[|p| - 1]
  }

  /** Every pair of the graph whose second part is in the list has its first part in it, at an earlier place. */
  ghost predicate InOrder(g: set<(Key, Key)>, log: seq<Key>) {
    forall a, i | 0 <= i < |log| && (a, log[i]) in g :: a in log[..i]
  }

  ghost predicate Distinct<T>(s: seq<T>) {
    forall i, j | 0 <= i < j < |s| :: s[i] != s[j]
  }

  /** Going along a path never leads to a place behind: the order leaves no room for cycles. */
  lemma {:induction false} PathGoesUp(g: set<(Key, Key)>, log: seq<Key>, p: seq<Key>, n: nat, at: nat)
    returns (first: nat)
    requires InOrder(g, log) && IsPath(g, p) && n < |p| && at < |log| && log[at] == p[n]
    ensures first <= at && (n > 0 ==> first < at) && log[first] == p[0]
  {
    if n == 0 {
      first := at;
    } else {
      assert (p[n - 1], p[n]) in g;
      var i :| 0 <= i < at && log[..at][i] == p[n - 1];
      first := PathGoesUp(g, log, p, n - 1, i);
    }
  }

  lemma OrderedIsAcyclic(g: set<(Key, Key)>, log: seq<Key>)
    requires InOrder(g, log) && Distinct(log) && forall e | e in g :: e.1 in log
    ensures !Cyclic(g)
  {
    forall p: seq<Key> | IsPath(g, p) ensures p[0] != p[|p| - 1] {
      var n := |p| - 1;
      assert (p[n - 1], p[n]) in g;
      var at: nat :| at < |log| && log[at] == p[n];
      var first := PathGoesUp(g, log, p, n, at);
    }
  }

  /** If each of some keys has another one of them depending on it, there is a cycle among them. */
  lemma BackwardCycle(g: set<(Key, Key)>, r: map<Key, Key>)
    requires r != map[] && forall k | k in r :: r[k] in r && (r[k], k) in g
    ensures Cyclic(g)
  {
    var k0 :| k0 in r;
    forall k: nat ensures Follow(r, k0, k) in r {
      FollowStays(r, k0, k);
    }
    RunsIntoCycle(r, k0);
    var n, k: nat :| n in r && k > 0 && Follow(r, n, k) == n;
    var p := seq(k + 1, i requires 0 <= i < k + 1 => Follow(r, n, k - i));
    forall i | 0 <= i < k ensures (p[i], p[i + 1]) in g {
      FollowStays(r, n, k - i - 1);
      FollowAdd(r, n, k - i - 1, 1);
      assert Follow(r, Follow(r, n, k - i - 1), 1) == r[p[i + 1]];
    }
    assert IsPath(g, p) && p[0] == p[|p| - 1];
  }

  lemma {:induction false} FollowStays(r: map<Key, Key>, n: Key, k: nat)
    requires n in r && forall m | m in r :: r[m] in r
    ensures Follow(r, n, k) in r
    decreases k
  {
    if k > 0 {
      FollowStays(r, r[n], k - 1);
    }
  }

  /** How many edges say that something depends on `n`. */
  ghost function InDegree(es: seq<Edge>, n: DepNode): nat {
    if es == [] then 0 else InDegree(es[..|es| - 1], n) + if es[|es| - 1].dependsOn == n then 1 else 0
  }

  lemma {:induction false} InDegreeExact(es: seq<Edge>, n: DepNode)
    ensures InDegree(es, n) == |set i | 0 <= i < |es| && es[i].dependsOn == n|
  {
    var now := set i | 0 <= i < |es| && es[i].dependsOn == n;
    if es == [] {
      assert now == {};
    } else {
      var k := |es| - 1;
      InDegreeExact(es[..k], n);
      var before := set i | 0 <= i < |es[..k]| && es[..k][i].dependsOn == n;
      assert now == before + if es[k].dependsOn == n then {k} else {};
    }
  }

  lemma {:induction false} InDegreeConcat(a: seq<Edge>, b: seq<Edge>, n: DepNode)
    ensures InDegree(a + b, n) == InDegree(a, n) + InDegree(b, n)
  {
    if b == [] {
      assert a + b == a;
    } else {
      assert (a + b)[..|a + b| - 1] == a + b[..|b| - 1];
      InDegreeConcat(a, b[..|b| - 1], n);
    }
  }

  lemma InDegreeWithout(es: seq<Edge>, k: nat, n: DepNode)
    requires k < |es|
    ensures InDegree(es, n) == InDegree(es[..k] + es[k + 1..], n) + if es[k].dependsOn == n then 1 else 0
  {
    assert es == es[..k] + [es[k]] + es[k + 1..];
    InDegreeConcat(es[..k] + [es[k]], es[k + 1..], n);
    InDegreeConcat(es[..k], [es[k]], n);
    InDegreeConcat(es[..k], es[k + 1..], n);
    assert [es[k]][..0] == [];
  }

  lemma {:induction false} InDegreeZero(es: seq<Edge>, n: DepNode)
    ensures InDegree(es, n) == 0 <==> forall e | e in es :: e.dependsOn != n
  {
    if es != [] {
      InDegreeZero(es[..|es| - 1], n);
      assert es == es[..|es| - 1] + [es[|es| - 1]];
    }
  }

  /** No two nodes for the same object and role, no edge twice, and edges only between nodes of the list. */
  ghost predicate Linked(ns: seq<DepNode>, es: seq<Edge>) {
    && (forall i, j | 0 <= i < j < |ns| :: ns[i].key != ns[j].key)
    && Distinct(es)
    && (forall e | e in es :: e.node in ns && e.dependsOn in ns)
  }

  ghost function KeysOf(ns: seq<DepNode>): set<Key> {
    set n | n in ns :: n.key
  }

  ghost function GraphOf(es: seq<Edge>): set<(Key, Key)> {
    set e | e in es :: (e.node.key, e.dependsOn.key)
  }

  class DepTracker {
    var nodes: seq<DepNode>
    var edges: seq<Edge>

    constructor ()
      ensures Valid() && nodes == [] && edges == []
    {
      nodes, edges := [], [];
    }

    ghost predicate Valid()
      reads this
    {
      Linked(nodes, edges)
    }

    ghost function Keys(): set<Key>
      reads this
    {
      KeysOf(nodes)
    }

    ghost function Graph(): set<(Key, Key)>
      reads this
    {
      GraphOf(edges)
    }

    method GetByPtr(key: Key, name: string) returns (n: DepNode)
      requires Valid()
      modifies this`nodes
      ensures Valid() && n in nodes && n.key == key && Graph() == old(Graph())
      ensures forall m | m in old(nodes) :: m in nodes
      ensures Keys() == old(Keys()) + {key}
    {
      var k := 0;
      while k < |nodes|
        invariant 0 <= k <= |nodes|
        invariant forall j | 0 <= j < k :: nodes[j].key != key
      {
        if nodes[k].key == key {
          return nodes[k];
        }
        k := k + 1;
      }
      n := new DepNode(key, name);
      nodes := [n] + nodes;
      assert Keys() == old(Keys()) + {key};
    }

    method FindEdge(node: DepNode, dependsOn: DepNode)
      requires Valid() && node in nodes && dependsOn in nodes
      modifies this`edges
      ensures Valid() && Graph() == old(Graph()) + {(node.key, dependsOn.key)}
    {
      var k := 0;
      while k < |edges|
        invariant 0 <= k <= |edges|
        invariant forall j | 0 <= j < k :: edges[j] != Edge(node, dependsOn)
      {
        if edges[k].node == node && edges[k].dependsOn == dependsOn {
          assert edges[k] in edges;
          return;
        }
        k := k + 1;
      }
      edges := [Edge(node, dependsOn)] + edges;
    }

    /** Notes an object and, if it has one, the parent that it depends on. */
    method AddDependency(child: Key, childName: string, hasParent: bool, parent: Key, parentName: string)
      requires Valid()
      modifies this
      ensures Valid()
      ensures Keys() == old(Keys()) + {child} + if hasParent then {parent} else {}
      ensures Graph() == old(Graph()) + if hasParent then {(child, parent)} else {}
    {
      var c := GetByPtr(child, childName);
      if hasParent {
        var p := GetByPtr(parent, parentName);
        FindEdge(c, p);
      }
    }

    /** Each count is the number of edges that say that something depends on the node. */
    ghost predicate Counted()
      reads this, nodes
    {
      forall n | n in nodes :: n.depCount == InDegree(edges, n)
    }

    method CountDependents()
      requires Valid()
      modifies nodes
      ensures Counted()
    {
      var k := 0;
      while k < |nodes|
        invariant 0 <= k <= |nodes|
        invariant forall j | 0 <= j < k :: nodes[j].depCount == 0
      {
        nodes[k].depCount := 0;
        k := k + 1;
      }
      k := 0;
      while k < |edges|
        invariant 0 <= k <= |edges|
        invariant forall n | n in nodes :: n.depCount == InDegree(edges[..k], n)
      {
        var n := edges[k].dependsOn;
        assert edges[k] in edges;
        n.depCount := n.depCount + 1;
        assert edges[..k + 1][..k] == edges[..k];
        k := k + 1;
      }
      assert edges[..k] == edges;
    }

    /** The first node that nothing depends on. */
    method FindFree() returns (k: nat)
      ensures k <= |nodes| && (forall j | 0 <= j < k :: nodes[j].depCount != 0)
              && (k < |nodes| ==> nodes[k].depCount == 0)
    {
      k := 0;
      while k < |nodes| && nodes[k].depCount != 0
        invariant k <= |nodes| && forall j | 0 <= j < k :: nodes[j].depCount != 0
      {
        k := k + 1;
      }
    }

    /** Takes out all edges that lead from the node on. */
    method RemoveEdges(n: DepNode)
      requires Valid() && Counted() && n in nodes
      modifies this`edges, nodes
      ensures Valid() && Counted()
      ensures forall e :: e in edges <==> e in old(edges) && e.node != n
    {
      ghost var before := edges;
      var k := 0;
      while k < |edges|
        invariant 0 <= k <= |edges| && Valid() && Counted()
        invariant forall j | 0 <= j < k :: edges[j].node != n
        invariant forall e :: e in edges ==> e in before
        invariant forall e :: e in before && e.node != n ==> e in edges
        decreases |edges| - k
      {
        if edges[k].node == n {
          RemoveEdge(k);
        } else {
          k := k + 1;
        }
      }
    }

    method RemoveEdge(k: nat)
      requires Valid() && Counted() && k < |edges|
      modifies this`edges, nodes
      ensures Valid() && Counted() && edges == old(edges[..k] + edges[k + 1..])
    {
      hide InDegree;
      ghost var before := edges;
      var d := edges[k].dependsOn;
      assert edges[k] in edges;
      forall m | m in nodes
        ensures InDegree(before, m) == InDegree(before[..k] + before[k + 1..], m) + if d == m then 1 else 0
      {
        InDegreeWithout(before, k, m);
      }
      d.depCount := d.depCount - 1;
      edges := edges[..k] + edges[k + 1..];
    }

    /** Takes the node out, and all edges that lead from it on. */
    method RemoveNode(k: nat, ghost all: set<DepNode>)
      requires Valid() && Counted() && k < |nodes| && nodes[k].depCount == 0 && forall n | n in nodes :: n in all
      modifies this, all
      ensures Counted() && nodes == old(nodes[..k] + nodes[k + 1..])
      ensures forall e | e in old(edges) :: e.dependsOn != old(nodes[k])
      ensures Distinct(edges) && forall e :: e in edges <==> e in old(edges) && e.node != old(nodes[k])
    {
      hide InDegree;
      var n := nodes[k];
      InDegreeZero(edges, n);
      RemoveEdges(n);
      nodes := nodes[..k] + nodes[k + 1..];
    }

    /** Commits the objects. A commit that fails ends it, and so does a cycle. */
    method Commit(failing: set<Key>) returns (outcome: Outcome, log: seq<Key>)
      requires Valid()
      modifies this, nodes
      ensures Distinct(log) && InOrder(old(Graph()), log) && forall k | k in log :: k in old(Keys()) && k !in failing
      ensures outcome.Done? ==> (forall k | k in old(Keys()) :: k in log) && nodes == []
      ensures outcome.Cycle? ==> Cyclic(old(Graph()))
      ensures outcome.Failed? ==> outcome.key in failing && outcome.key in old(Keys()) && outcome.key !in log
      ensures failing == {} ==> if Cyclic(old(Graph())) then outcome == Cycle else outcome == Done
    {
      hide InDegree, Linked, Cyclic, Distinct, InOrder, KeysOf, GraphOf;
      ghost var keys, g, all := Keys(), Graph(), set n | n in nodes;
      log := [];
      NothingYet(nodes, edges);
      CountDependents();
      while |nodes| > 0
        invariant Partway(nodes, edges, keys, g, log) && Counted() && forall k | k in log :: k !in failing
        invariant forall n | n in nodes :: n in all
        decreases |nodes|
      {
        ghost var ns, es := nodes, edges;
        var k := FindFree();
        if k == |nodes| {
          forall n | n in nodes ensures Needed(edges, n) {
            InDegreeZero(edges, n);
          }
          AllBlocked(nodes, edges, g);
          return Cycle, log;
        }
        var key := nodes[k].key;
        KeyIn(nodes, k);
        if key in failing {
          return Failed(key), log;
        }
        RemoveNode(k, all);
        ResolveStep(ns, es, edges, k, keys, g, log);
        log := log + [key];
      }
      AllCommitted(edges, keys, g, log);
      return Done, log;
    }
  }

  /**
   * What holds between two rounds: the lists are what is left of the graph, and what is gone is committed, in order.
   */
  ghost predicate Partway(ns: seq<DepNode>, es: seq<Edge>, keys: set<Key>, g: set<(Key, Key)>, log: seq<Key>) {
    && Linked(ns, es)
    && Distinct(log) && InOrder(g, log)
    && (forall e | e in g :: e.1 in keys)
    && (forall k :: k in keys <==> k in KeysOf(ns) || k in log)
    && (forall k :: k in log ==> k !in KeysOf(ns))
    && (forall e :: e in GraphOf(es) <==> e in g && e.0 !in log)
  }

  lemma KeyIn(ns: seq<DepNode>, k: nat)
    requires k < |ns|
    ensures ns[k].key in KeysOf(ns)
  {
  }

  lemma NothingYet(ns: seq<DepNode>, es: seq<Edge>)
    requires Linked(ns, es)
    ensures Partway(ns, es, KeysOf(ns), GraphOf(es), [])
  {
  }

  lemma ResolveStep(ns: seq<DepNode>, es: seq<Edge>, es1: seq<Edge>, k: nat, keys: set<Key>, g: set<(Key, Key)>,
                    log: seq<Key>)
    requires Partway(ns, es, keys, g, log) && k < |ns|
    requires forall e | e in es :: e.dependsOn != ns[k]
    requires Distinct(es1) && forall e :: e in es1 <==> e in es && e.node != ns[k]
    ensures Partway(ns[..k] + ns[k + 1..], es1, keys, g, log + [ns[k].key])
  {
    hide GraphOf;
    var n, ns1, log1 := ns[k], ns[..k] + ns[k + 1..], log + [ns[k].key];
    assert n.key in KeysOf(ns);
    assert forall m :: m in ns1 <==> m in ns && m != n;
    KeysWithout(ns, k);
    GraphWithout(ns, es, es1, n);
    NothingBefore(ns, es, n);
    assert forall a | (a, n.key) in g :: a in log;
    forall a, i | 0 <= i < |log1| && (a, log1[i]) in g ensures a in log1[..i] {
      if i < |log| {
        assert log1[i] == log[i] && log1[..i] == log[..i];
      } else {
        assert log1[..i] == log;
      }
    }
  }

  lemma NothingBefore(ns: seq<DepNode>, es: seq<Edge>, n: DepNode)
    requires Linked(ns, es) && n in ns && forall e | e in es :: e.dependsOn != n
    ensures forall p | p in GraphOf(es) :: p.1 != n.key
  {
    forall p | p in GraphOf(es) ensures p.1 != n.key {
      var e :| e in es && (e.node.key, e.dependsOn.key) == p;
      assert e.dependsOn in ns;
    }
  }

  lemma KeysWithout(ns: seq<DepNode>, k: nat)
    requires k < |ns| && forall i, j | 0 <= i < j < |ns| :: ns[i].key != ns[j].key
    ensures KeysOf(ns[..k] + ns[k + 1..]) == KeysOf(ns) - {ns[k].key}
  {
    var ns1 := ns[..k] + ns[k + 1..];
    forall i | 0 <= i < |ns| && i != k ensures ns[i] in ns1 {
      assert ns[i] == ns1[if i < k then i else i - 1];
    }
  }

  lemma GraphWithout(ns: seq<DepNode>, es: seq<Edge>, es1: seq<Edge>, n: DepNode)
    requires Linked(ns, es) && n in ns && forall e :: e in es1 <==> e in es && e.node != n
    ensures forall p :: p in GraphOf(es1) <==> p in GraphOf(es) && p.0 != n.key
  {
    forall e | e in es ensures e.node == n <==> e.node.key == n.key {
    }
    forall p | p in GraphOf(es) && p.0 != n.key ensures p in GraphOf(es1) {
      var e :| e in es && (e.node.key, e.dependsOn.key) == p;
      assert e in es1;
    }
  }

  lemma AllCommitted(es: seq<Edge>, keys: set<Key>, g: set<(Key, Key)>, log: seq<Key>)
    requires Partway([], es, keys, g, log)
    ensures !Cyclic(g) && forall k | k in keys :: k in log
  {
    OrderedIsAcyclic(g, log);
  }

  /** When every node that is left has one that depends on it, there is a cycle. */
  lemma AllBlocked(ns: seq<DepNode>, es: seq<Edge>, g: set<(Key, Key)>)
    requires Linked(ns, es) && ns != [] && GraphOf(es) <= g
    requires forall n | n in ns :: Needed(es, n)
    ensures Cyclic(g)
  {
    hide Cyclic, GraphOf, KeysOf, Linked, Needed, HasDependent;
    var keys := KeysOf(ns);
    KeyIn(ns, 0);
    forall k | k in keys ensures HasDependent(keys, g, k) {
      BlockedBy(ns, es, g, k);
    }
    BlockedCycle(keys, g);
  }

  ghost predicate Needed(es: seq<Edge>, n: DepNode) {
    exists e :: e in es && e.dependsOn == n
  }

  ghost predicate HasDependent(keys: set<Key>, g: set<(Key, Key)>, k: Key) {
    exists a :: a in keys && (a, k) in g
  }

  lemma BlockedBy(ns: seq<DepNode>, es: seq<Edge>, g: set<(Key, Key)>, k: Key)
    requires Linked(ns, es) && GraphOf(es) <= g && k in KeysOf(ns)
    requires forall n | n in ns :: Needed(es, n)
    ensures HasDependent(KeysOf(ns), g, k)
  {
    hide Distinct;
    var n :| n in ns && n.key == k;
    var e :| e in es && e.dependsOn == n;
    assert (e.node.key, k) in GraphOf(es);
    assert e.node.key in KeysOf(ns);
  }

  lemma BlockedCycle(keys: set<Key>, g: set<(Key, Key)>)
    requires keys != {} && forall k | k in keys :: HasDependent(keys, g, k)
    ensures Cyclic(g)
  {
    hide Cyclic;
    var r := map k | k in keys :: var a :| a in keys && (a, k) in g; a;
    var k0 :| k0 in keys;
    assert k0 in r;
    BackwardCycle(g, r);
  }
}
