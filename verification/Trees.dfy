/** The directory tree: its sorted form, the lists of nodes by type, and the numbering of its inodes. */
module Trees {
  import opened Sorting

  datatype Kind = Dir | File | Fifo | Socket | CharDev | BlockDev | Symlink | HardLink

  /** A node of the tree; `id` tells nodes apart that look alike. */
  datatype Node = Node(id: nat, name: string, kind: Kind, children: seq<Node>)

  /** The order of `strcmp`. */
  predicate NameLeq(a: string, b: string) {
    a == [] || (b != [] && (a[0] < b[0] || (a[0] == b[0] && NameLeq(a[1..], b[1..]))))
  }

  /** A name comes before another if it is a prefix of it, or has the lower character where they first differ. */
  ghost predicate ComesFirst(a: string, b: string) {
    a <= b || exists k: nat :: FirstDiffers(a, b, k) && a[k] < b[k]
  }

  ghost predicate FirstDiffers(a: string, b: string, k: nat) {
    k < |a| && k < |b| && a[..k] == b[..k] && a[k] != b[k]
  }

  lemma {:induction false} StrcmpExact(a: string, b: string)
    ensures NameLeq(a, b) <==> ComesFirst(a, b)
  {
    if a == [] {
      assert a <= b;
    } else if b == [] {
    } else if a[0] != b[0] {
      assert a[0] < b[0] ==> FirstDiffers(a, b, 0);
    } else {
      var c, d := a[1..], b[1..];
      StrcmpExact(c, d);
      assert a == [a[0]] + c && b == [a[0]] + d;
      assert a <= b <==> c <= d;
      forall k: nat ensures FirstDiffers(c, d, k) <==> FirstDiffers(a, b, k + 1) {
        assert k <= |c| ==> a[..k + 1] == [a[0]] + c[..k];
        assert k <= |d| ==> b[..k + 1] == [a[0]] + d[..k];
        if FirstDiffers(a, b, k + 1) {
          assert c[..k] == a[..k + 1][1..] && d[..k] == b[..k + 1][1..];
        }
      }
      if k: nat :| FirstDiffers(a, b, k) && a[k] < b[k] {
        assert FirstDiffers(c, d, k - 1) && c[k - 1] < d[k - 1];
      }
      if k: nat :| FirstDiffers(c, d, k) && c[k] < d[k] {
        assert FirstDiffers(a, b, k + 1) && a[k + 1] < b[k + 1];
      }
    }
  }

  lemma {:induction false} NameTotal(a: string, b: string)
    ensures NameLeq(a, b) || NameLeq(b, a)
    ensures NameLeq(a, b) && NameLeq(b, a) ==> a == b
  {
    if a != [] && b != [] {
      NameTotal(a[1..], b[1..]);
      assert a == [a[0]] + a[1..] && b == [b[0]] + b[1..];
    }
  }

  lemma {:induction false} NameTransitive(a: string, b: string, c: string)
    requires NameLeq(a, b) && NameLeq(b, c)
    ensures NameLeq(a, c)
  {
    if a != [] && b != [] && c != [] && a[0] == b[0] == c[0] {
      NameTransitive(a[1..], b[1..], c[1..]);
    }
  }

  const byName: (Node, Node) -> bool := (a: Node, b: Node) => NameLeq(a.name, b.name)

  lemma ByNameOrders()
    ensures TotalPreorder(byName)
  {
    forall x: Node, y: Node ensures byName(x, y) || byName(y, x) {
      NameTotal(x.name, y.name);
    }
    forall x: Node, y: Node, z: Node | byName(x, y) && byName(y, z) ensures byName(x, z) {
      NameTransitive(x.name, y.name, z.name);
    }
  }

  /* The sorted tree. */

  /** The same tree, with the children of each directory sorted by name. */
  ghost predicate SortedFrom(r: Node, t: Node) {
    && r.id == t.id && r.name == t.name && r.kind == t.kind
    && if t.kind != Dir then r == t
       else exists s: seq<Node> :: StableSorted(s, t.children, byName) && ChildrenFrom(r.children, s)
  }

  ghost predicate ChildrenFrom(rs: seq<Node>, ts: seq<Node>) {
    |rs| == |ts| && forall i | 0 <= i < |rs| :: SortedFrom(rs[i], ts[i])
  }

  method SortNodeRecursive(root: Node) returns (r: Node)
    ensures SortedFrom(r, root)
  {
    if root.kind != Dir {
      return root;
    }
    hide TotalPreorder, Sorted, Alike;
    ByNameOrders();
    var list := SortNodeList(root.children, byName);
    var done: seq<Node> := [];
    var k := 0;
    while k < |list|
      invariant 0 <= k <= |list| && ChildrenFrom(done, list[..k])
    {
      assert list[k] in multiset(list);
      assert list[k] in root.children;
      var c := SortNodeRecursive(list[k]);
      done := done + [c];
      assert list[..k + 1] == list[..k] + [list[k]];
      k := k + 1;
    }
    assert list[..k] == list;
    r := Node(root.id, root.name, root.kind, done);
  }

  /** In the sorted tree the children of a directory come in the order of their names. */
  lemma ChildrenInOrder(r: Node, t: Node, i: nat, j: nat)
    requires SortedFrom(r, t) && t.kind == Dir && i < j < |r.children|
    ensures ComesFirst(r.children[i].name, r.children[j].name)
  {
    var s: seq<Node> :| StableSorted(s, t.children, byName) && ChildrenFrom(r.children, s);
    assert SortedFrom(r.children[i], s[i]) && SortedFrom(r.children[j], s[j]);
    assert byName(s[i], s[j]);
    StrcmpExact(s[i].name, s[j].name);
  }

  /* What a list of nodes, and all below them, holds. */

  /** The ids of all nodes of the wanted kinds. */
  ghost function Entries(ns: seq<Node>, want: Kind -> bool): multiset<nat> {
    if ns == [] then multiset{}
    else
      (if want(ns[0].kind) then multiset{ns[0].id} else multiset{}) +
      (if ns[0].kind == Dir then Entries(ns[0].children, want) else multiset{}) +
      Entries(ns[1..], want)
  }

  /** The way from a node down to one below it, child by child. */
  ghost predicate Leads(n: Node, way: seq<nat>) {
    way == [] || (n.kind == Dir && way[0] < |n.children| && Leads(n.children[way[0]], way[1..]))
  }

  ghost function NodeAt(n: Node, way: seq<nat>): Node
    requires Leads(n, way)
  {
    if way == [] then n else NodeAt(n.children[way[0]], way[1..])
  }

  ghost predicate LeadsTo(n: Node, way: seq<nat>, id: nat, want: Kind -> bool) {
    Leads(n, way) && want(NodeAt(n, way).kind) && NodeAt(n, way).id == id
  }

  /** The entries are the ids of just those nodes of the wanted kinds that some way leads to. */
  lemma {:induction false} EntriesExact(n: Node, want: Kind -> bool, id: nat)
    ensures id in Entries([n], want) <==> exists way: seq<nat> :: LeadsTo(n, way, id, want)
    decreases n
  {
    assert [n][1..] == [];
    if n.kind == Dir {
      EntriesIn(n.children, want, id);
      forall i | 0 <= i < |n.children|
        ensures id in Entries([n.children[i]], want) <==>
                exists way: seq<nat> :: LeadsTo(n.children[i], way, id, want)
      {
        EntriesExact(n.children[i], want, id);
      }
    }
    WayDown(n, want, id);
  }

  lemma WayDown(n: Node, want: Kind -> bool, id: nat)
    ensures (exists way: seq<nat> :: LeadsTo(n, way, id, want)) <==>
            || (want(n.kind) && n.id == id)
            || (n.kind == Dir &&
                exists i | 0 <= i < |n.children| :: exists way: seq<nat> :: LeadsTo(n.children[i], way, id, want))
  {
    if way: seq<nat> :| LeadsTo(n, way, id, want) {
      assert way != [] ==> LeadsTo(n.children[way[0]], way[1..], id, want);
    }
    if want(n.kind) && n.id == id {
      assert LeadsTo(n, [], id, want);
    }
    if n.kind == Dir {
      forall i, way: seq<nat> | 0 <= i < |n.children| && LeadsTo(n.children[i], way, id, want)
        ensures LeadsTo(n, [i] + way, id, want)
      {
        assert ([i] + way)[1..] == way;
      }
    }
  }

  lemma {:induction false} EntriesIn(ns: seq<Node>, want: Kind -> bool, id: nat)
    ensures id in Entries(ns, want) <==> exists i | 0 <= i < |ns| :: id in Entries([ns[i]], want)
    decreases |ns|
  {
    hide Entries;
    if ns == [] {
      EntriesOfNone(want);
    } else {
      EntriesIn(ns[1..], want, id);
      assert ns == [ns[0]] + ns[1..];
      EntriesConcat([ns[0]], ns[1..], want);
      forall i | 0 <= i < |ns[1..]| ensures ns[1..][i] == ns[i + 1] {
      }
      if i :| 0 <= i < |ns| && id in Entries([ns[i]], want) {
        assert i > 0 ==> ns[1..][i - 1] == ns[i];
      }
    }
  }

  lemma EntriesOfNone(want: Kind -> bool)
    ensures Entries([], want) == multiset{}
  {
  }

  lemma {:induction false} EntriesConcat(a: seq<Node>, b: seq<Node>, want: Kind -> bool)
    ensures Entries(a + b, want) == Entries(a, want) + Entries(b, want)
  {
    if a == [] {
      assert a + b == b;
    } else {
      assert (a + b)[1..] == a[1..] + b && (a + b)[0] == a[0];
      EntriesConcat(a[1..], b, want);
    }
  }

  /** The order of a list does not matter. */
  lemma {:induction false} EntriesPermuted(a: seq<Node>, b: seq<Node>, want: Kind -> bool)
    requires multiset(a) == multiset(b)
    ensures Entries(a, want) == Entries(b, want)
    decreases |a|
  {
    hide Entries;
    if a == [] {
      assert |b| == |multiset(b)| == |multiset(a)| == 0;
      assert b == [];
    } else {
      var j := PermutedHead(a, b);
      var c := b[..j] + b[j + 1..];
      EntriesPermuted(a[1..], c, want);
      EntriesConcat([a[0]], a[1..], want);
      EntriesConcat(b[..j] + [b[j]], b[j + 1..], want);
      EntriesConcat(b[..j], [b[j]], want);
      EntriesConcat(b[..j], b[j + 1..], want);
    }
  }

  lemma {:induction false} SortKeepsNodes(r: Node, t: Node, want: Kind -> bool)
    requires SortedFrom(r, t)
    ensures Entries([r], want) == Entries([t], want)
    decreases r, |r.children| + 1
  {
    assert [r][1..] == [] && [t][1..] == [];
    if t.kind == Dir {
      var s: seq<Node> :| StableSorted(s, t.children, byName) && ChildrenFrom(r.children, s);
      SortKeepsChildren(r, r.children, s, want);
      EntriesPermuted(s, t.children, want);
    }
  }

  lemma {:induction false} SortKeepsChildren(r: Node, rs: seq<Node>, ts: seq<Node>, want: Kind -> bool)
    requires ChildrenFrom(rs, ts) && forall i | 0 <= i < |rs| :: rs[i] < r
    ensures Entries(rs, want) == Entries(ts, want)
    decreases r, |rs|
  {
    if rs != [] {
      SortKeepsNodes(rs[0], ts[0], want);
      SortKeepsChildren(r, rs[1..], ts[1..], want);
      assert rs == [rs[0]] + rs[1..] && ts == [ts[0]] + ts[1..];
      EntriesConcat([rs[0]], rs[1..], want);
      EntriesConcat([ts[0]], ts[1..], want);
    }
  }

  /* The lists by type, and the numbering, are both made by the same walk. */

  ghost function Wanted(ns: seq<Node>, want: Kind -> bool): seq<Node> {
    if ns == [] then [] else (if want(ns[0].kind) then [ns[0]] else []) + Wanted(ns[1..], want)
  }

  /** First the wanted nodes of a directory, then, directory by directory, those below. */
  ghost function Walk(ns: seq<Node>, want: Kind -> bool): seq<Node>
    decreases ns, 1
  {
    Wanted(ns, want) + WalkBelow(ns, want)
  }

  ghost function WalkBelow(ns: seq<Node>, want: Kind -> bool): seq<Node>
    decreases ns, 0
  {
    if ns == [] then []
    else (if ns[0].kind == Dir then Walk(ns[0].children, want) else []) + WalkBelow(ns[1..], want)
  }

  ghost function Ids(ns: seq<Node>): multiset<nat> {
    if ns == [] then multiset{} else multiset{ns[0].id} + Ids(ns[1..])
  }

  lemma {:induction false} IdsConcat(a: seq<Node>, b: seq<Node>)
    ensures Ids(a + b) == Ids(a) + Ids(b)
  {
    if a == [] {
      assert a + b == b;
    } else {
      assert (a + b)[1..] == a[1..] + b && (a + b)[0] == a[0];
      IdsConcat(a[1..], b);
    }
  }

  ghost function EntriesBelow(ns: seq<Node>, want: Kind -> bool): multiset<nat> {
    if ns == [] then multiset{}
    else (if ns[0].kind == Dir then Entries(ns[0].children, want) else multiset{}) + EntriesBelow(ns[1..], want)
  }

  lemma {:induction false} EntriesSplit(ns: seq<Node>, want: Kind -> bool)
    ensures Entries(ns, want) == Ids(Wanted(ns, want)) + EntriesBelow(ns, want)
  {
    if ns != [] {
      EntriesSplit(ns[1..], want);
      IdsConcat(if want(ns[0].kind) then [ns[0]] else [], Wanted(ns[1..], want));
      assert Ids([ns[0]]) == multiset{ns[0].id} + Ids([ns[0]][1..]);
    }
  }

  /** The walk comes by each wanted node once, and by no other. */
  lemma {:induction false} WalkExact(ns: seq<Node>, want: Kind -> bool)
    ensures Ids(Walk(ns, want)) == Entries(ns, want)
    decreases ns, 1
  {
    EntriesSplit(ns, want);
    WalkBelowExact(ns, want);
    IdsConcat(Wanted(ns, want), WalkBelow(ns, want));
  }

  lemma {:induction false} WalkBelowExact(ns: seq<Node>, want: Kind -> bool)
    ensures Ids(WalkBelow(ns, want)) == EntriesBelow(ns, want)
    decreases ns, 0
  {
    hide Walk, Entries;
    if ns != [] {
      if ns[0].kind == Dir {
        WalkExact(ns[0].children, want);
      }
      WalkBelowExact(ns[1..], want);
      IdsConcat(if ns[0].kind == Dir then Walk(ns[0].children, want) else [], WalkBelow(ns[1..], want));
    }
  }

  ghost function IsKind(kind: Kind): Kind -> bool {
    k => k == kind
  }

  method LinearizeDirTree(root: Node, kind: Kind) returns (list: seq<Node>)
    requires root.kind == Dir
    ensures list == Walk(root.children, IsKind(kind))
    decreases root
  {
    hide Walk, WalkBelow, Wanted;
    ghost var want, ns := IsKind(kind), root.children;
    list := [];
    var i := 0;
    WalkStart(ns, want);
    while i < |root.children|
      invariant 0 <= i <= |ns| && list + Wanted(ns[i..], want) == Wanted(ns, want)
    {
      WalkNext(ns, i, want);
      if root.children[i].kind == kind {
        Regroup(list, [root.children[i]], Wanted(ns[i + 1..], want));
        list := list + [root.children[i]];
      }
      i := i + 1;
    }
    WalkEnd(ns, want);
    i := 0;
    while i < |root.children|
      invariant 0 <= i <= |ns| && list + WalkBelow(ns[i..], want) == Wanted(ns, want) + WalkBelow(ns, want)
    {
      WalkNext(ns, i, want);
      if root.children[i].kind == Dir {
        var sublist := LinearizeDirTree(root.children[i], kind);
        Regroup(list, sublist, WalkBelow(ns[i + 1..], want));
        list := list + sublist;
      }
      i := i + 1;
    }
    WalkEnd(ns, want);
  }

  lemma Regroup(a: seq<Node>, b: seq<Node>, c: seq<Node>)
    ensures a + b + c == a + (b + c)
  {
  }

  lemma WalkStart(ns: seq<Node>, want: Kind -> bool)
    ensures ns[0..] == ns
  {
  }

  lemma WalkNext(ns: seq<Node>, i: nat, want: Kind -> bool)
    requires i < |ns|
    ensures Wanted(ns[i..], want) == (if want(ns[i].kind) then [ns[i]] else []) + Wanted(ns[i + 1..], want)
    ensures WalkBelow(ns[i..], want) ==
            (if ns[i].kind == Dir then Walk(ns[i].children, want) else []) + WalkBelow(ns[i + 1..], want)
  {
    hide Walk;
    assert ns[i..][1..] == ns[i + 1..] && ns[i..][0] == ns[i];
  }

  lemma WalkEnd(ns: seq<Node>, want: Kind -> bool)
    ensures Wanted(ns[|ns|..], want) == [] && WalkBelow(ns[|ns|..], want) == [] && ns[0..] == ns
    ensures Walk(ns, want) == Wanted(ns, want) + WalkBelow(ns, want)
  {
  }

  const KINDS: seq<Kind> := [Dir, File, Fifo, Socket, CharDev, BlockDev, Symlink, HardLink]

  lemma AllKinds(kind: Kind)
    ensures exists i | 0 <= i < |KINDS| :: KINDS[i] == kind
  {
    assert KINDS[0] == Dir && KINDS[1] == File && KINDS[2] == Fifo && KINDS[3] == Socket;
    assert KINDS[4] == CharDev && KINDS[5] == BlockDev && KINDS[6] == Symlink && KINDS[7] == HardLink;
  }

  /** Sorts the tree and makes the lists by type. The root heads the list of directories. */
  method FstreeSort(root: Node) returns (sorted: Node, nodesByType: map<Kind, seq<Node>>)
    requires root.kind == Dir
    ensures SortedFrom(sorted, root)
    ensures forall kind: Kind :: kind in nodesByType && Ids(nodesByType[kind]) == Entries([root], IsKind(kind))
    ensures forall kind: Kind :: kind in nodesByType &&
              nodesByType[kind] == (if kind == Dir then [sorted] else []) + Walk(sorted.children, IsKind(kind))
  {
    hide SortedFrom, Entries, Walk, Ids;
    sorted := SortNodeRecursive(root);
    SortedShape(sorted, root);
    nodesByType := map[];
    var i := 0;
    while i < |KINDS|
      invariant 0 <= i <= |KINDS|
      invariant forall j | 0 <= j < i :: KINDS[j] in nodesByType &&
                  nodesByType[KINDS[j]] == Walk(sorted.children, IsKind(KINDS[j]))
    {
      var list := LinearizeDirTree(sorted, KINDS[i]);
      nodesByType := nodesByType[KINDS[i] := list];
      i := i + 1;
    }
    forall kind: Kind ensures kind in nodesByType && nodesByType[kind] == Walk(sorted.children, IsKind(kind)) {
      AllKinds(kind);
    }
    nodesByType := nodesByType[Dir := [sorted] + nodesByType[Dir]];
    forall kind: Kind
      ensures nodesByType[kind] == (if kind == Dir then [sorted] else []) + Walk(sorted.children, IsKind(kind))
      ensures Ids(nodesByType[kind]) == Entries([root], IsKind(kind))
    {
      ListExact(sorted, root, kind);
      assert [] + Walk(sorted.children, IsKind(kind)) == Walk(sorted.children, IsKind(kind));
    }
  }

  lemma SortedShape(r: Node, t: Node)
    requires SortedFrom(r, t)
    ensures r.kind == t.kind && r.id == t.id
  {
  }

  lemma ListExact(r: Node, root: Node, kind: Kind)
    requires root.kind == Dir && SortedFrom(r, root)
    ensures Ids((if kind == Dir then [r] else []) + Walk(r.children, IsKind(kind))) == Entries([root], IsKind(kind))
  {
    hide SortedFrom, Walk;
    var want := IsKind(kind);
    SortedShape(r, root);
    SortKeepsNodes(r, root, want);
    WalkExact(r.children, want);
    IdsConcat(if kind == Dir then [r] else [], Walk(r.children, want));
    assert [r][1..] == [];
    assert [] + Walk(r.children, want) == Walk(r.children, want);
  }

  /* Inode numbers: the position of a node in the table. Hard links get none. */

  const hasInode: Kind -> bool := (k: Kind) => k != HardLink

  method CountInodesDfs(n: Node) returns (count: nat)
    ensures count == |Entries([n], hasInode)|
  {
    assert [n][1..] == [];
    if n.kind == HardLink {
      return 0;
    }
    if n.kind == Dir {
      var sum := 0;
      var i := 0;
      while i < |n.children|
        invariant 0 <= i <= |n.children| && sum == |Entries(n.children[..i], hasInode)|
      {
        var c := CountInodesDfs(n.children[i]);
        assert n.children[..i + 1] == n.children[..i] + [n.children[i]];
        EntriesConcat(n.children[..i], [n.children[i]], hasInode);
        sum := sum + c;
        i := i + 1;
      }
      assert n.children[..i] == n.children;
      return sum + 1;
    }
    return 1;
  }

  /** The order of the table: the root, then the nodes below as the walk comes by them. */
  ghost function InodeOrder(root: Node): seq<Node> {
    [root] + Walk(root.children, hasInode)
  }

  /** Fills the table from `index` on with all below a directory. */
  method MapInodesDfs(n: Node, table: array<Node>, index: nat) returns (next: nat)
    requires n.kind == Dir && index + |Walk(n.children, hasInode)| <= table.Length
    modifies table
    ensures next == index + |Walk(n.children, hasInode)|
    ensures table[..next] == old(table[..index]) + Walk(n.children, hasInode)
    decreases n
  {
    hide Walk, WalkBelow, Wanted;
    ghost var ns, before := n.children, table[..index];
    next := index;
    var i := 0;
    WalkEnd(ns, hasInode);
    while i < |n.children|
      invariant 0 <= i <= |ns| && next + |Wanted(ns[i..], hasInode)| == index + |Wanted(ns, hasInode)|
      invariant index <= next <= table.Length
      invariant table[..next] + Wanted(ns[i..], hasInode) == before + Wanted(ns, hasInode)
    {
      WalkNext(ns, i, hasInode);
      if n.children[i].kind != HardLink {
        table[next] := n.children[i];
        next := next + 1;
      }
      i := i + 1;
    }
    i := 0;
    assert before + Wanted(ns, hasInode) + WalkBelow(ns, hasInode) == before + Walk(ns, hasInode);
    while i < |n.children|
      invariant 0 <= i <= |ns| && next + |WalkBelow(ns[i..], hasInode)| == index + |Walk(ns, hasInode)|
      invariant index <= next <= table.Length
      invariant table[..next] + WalkBelow(ns[i..], hasInode) == before + Walk(ns, hasInode)
    {
      WalkNext(ns, i, hasInode);
      if n.children[i].kind == Dir {
        next := MapInodesDfs(n.children[i], table, next);
      }
      i := i + 1;
    }
  }

  method CreateInodeTable(root: Node) returns (table: array<Node>)
    requires root.kind == Dir
    ensures fresh(table) && table[..] == InodeOrder(root)
  {
    hide Walk, Entries;
    var numInodes := CountInodesDfs(root);
    OrderExact(root);
    table := new Node[numInodes](_ => root);
    table[0] := root;
    assert table[..1] == [root];
    var index := MapInodesDfs(root, table, 1);
    assert table[..index] == table[..];
  }

  lemma {:induction false} IdsSize(ns: seq<Node>)
    ensures |Ids(ns)| == |ns|
  {
    if ns != [] {
      IdsSize(ns[1..]);
    }
  }

  /** Each node that is no hard link has exactly one number, and the numbers are those below the count. */
  lemma OrderExact(root: Node)
    requires root.kind == Dir
    ensures Ids(InodeOrder(root)) == Entries([root], hasInode)
    ensures |InodeOrder(root)| == |Entries([root], hasInode)|
  {
    hide Walk;
    WalkExact(root.children, hasInode);
    IdsConcat([root], Walk(root.children, hasInode));
    assert [root][1..] == [];
    IdsSize(InodeOrder(root));
  }

  /** A node has a number exactly if some way from the root leads to it and it is no hard link. */
  lemma NumberedExact(root: Node, id: nat)
    requires root.kind == Dir
    ensures id in Ids(InodeOrder(root)) <==>
            exists way: seq<nat> :: Leads(root, way) && NodeAt(root, way).kind != HardLink && NodeAt(root, way).id == id
  {
    hide Entries;
    OrderExact(root);
    EntriesExact(root, hasInode, id);
    if way: seq<nat> :| LeadsTo(root, way, id, hasInode) {
      assert Leads(root, way) && NodeAt(root, way).kind != HardLink && NodeAt(root, way).id == id;
    }
    if way: seq<nat> :| Leads(root, way) && NodeAt(root, way).kind != HardLink && NodeAt(root, way).id == id {
      assert LeadsTo(root, way, id, hasInode);
    }
  }

  /** A node is in the list of its type, and in no other, exactly if some way from the root leads to it. */
  lemma ListedExact(root: Node, kind: Kind, id: nat)
    ensures id in Entries([root], IsKind(kind)) <==>
            exists way: seq<nat> :: Leads(root, way) && NodeAt(root, way).kind == kind && NodeAt(root, way).id == id
  {
    hide Entries;
    EntriesExact(root, IsKind(kind), id);
    if way: seq<nat> :| LeadsTo(root, way, id, IsKind(kind)) {
      assert Leads(root, way) && NodeAt(root, way).kind == kind && NodeAt(root, way).id == id;
    }
    if way: seq<nat> :| Leads(root, way) && NodeAt(root, way).kind == kind && NodeAt(root, way).id == id {
      assert LeadsTo(root, way, id, IsKind(kind));
    }
  }

  /* Parents come before their children, and the children of a directory come one after the other. */

  /** `part` is found in `s`, at `from` or behind. */
  ghost predicate FoundFrom(s: seq<Node>, part: seq<Node>, from: nat) {
    exists k: nat :: from <= k && At(s, part, k)
  }

  ghost predicate At(s: seq<Node>, part: seq<Node>, k: nat) {
    k + |part| <= |s| && s[k..k + |part|] == part
  }

  ghost predicate ChildrenFollow(s: seq<Node>) {
    forall i | 0 <= i < |s| && s[i].kind == Dir :: FoundFrom(s, Wanted(s[i].children, hasInode), i + 1)
  }

  lemma FoundBehind(a: seq<Node>, s: seq<Node>, b: seq<Node>, part: seq<Node>, from: nat)
    requires FoundFrom(s, part, from)
    ensures FoundFrom(a + s + b, part, |a| + from)
  {
    var k: nat :| from <= k && At(s, part, k);
    var r := a + s + b;
    assert r[|a| + k..|a| + k + |part|] == s[k..k + |part|];
    assert At(r, part, |a| + k);
  }

  lemma FoundLater(s: seq<Node>, part: seq<Node>, from: nat, to: nat)
    requires FoundFrom(s, part, to) && from <= to
    ensures FoundFrom(s, part, from)
  {
    var k: nat :| to <= k && At(s, part, k);
  }

  lemma FollowConcat(a: seq<Node>, b: seq<Node>)
    requires ChildrenFollow(a) && ChildrenFollow(b)
    ensures ChildrenFollow(a + b)
  {
    hide FoundFrom, Wanted;
    var r := a + b;
    forall i | 0 <= i < |r| && r[i].kind == Dir ensures FoundFrom(r, Wanted(r[i].children, hasInode), i + 1) {
      assert [] + a + b == r && a + b + [] == r;
      if i < |a| {
        FoundBehind([], a, b, Wanted(a[i].children, hasInode), i + 1);
      } else {
        FoundBehind(a, b, [], Wanted(b[i - |a|].children, hasInode), i - |a| + 1);
      }
    }
  }

  /** The walk below a list starts, for each directory of the list, with the children of that directory. */
  lemma {:induction false} BelowHas(ns: seq<Node>, d: Node)
    requires d in ns && d.kind == Dir
    ensures FoundFrom(WalkBelow(ns, hasInode), Wanted(d.children, hasInode), 0)
  {
    hide FoundFrom, Wanted, Walk;
    var a := if ns[0].kind == Dir then Walk(ns[0].children, hasInode) else [];
    var b := WalkBelow(ns[1..], hasInode);
    if ns[0] == d {
      WalkHas(d.children);
      FoundBehind([], a, b, Wanted(d.children, hasInode), 0);
      assert [] + a + b == a + b;
    } else {
      BelowHas(ns[1..], d);
      FoundBehind(a, b, [], Wanted(d.children, hasInode), 0);
      assert a + b + [] == a + b;
      FoundLater(a + b, Wanted(d.children, hasInode), 0, |a|);
    }
  }

  lemma WalkHas(ns: seq<Node>)
    ensures FoundFrom(Walk(ns, hasInode), Wanted(ns, hasInode), 0)
  {
    var w := Wanted(ns, hasInode);
    assert At(Walk(ns, hasInode), w, 0);
  }

  lemma {:induction false} WantedIn(ns: seq<Node>, i: nat)
    requires i < |Wanted(ns, hasInode)|
    ensures Wanted(ns, hasInode)[i] in ns
  {
    var a := if hasInode(ns[0].kind) then [ns[0]] else [];
    if i >= |a| {
      WantedIn(ns[1..], i - |a|);
    }
  }

  lemma {:induction false} WalkFollows(ns: seq<Node>)
    ensures ChildrenFollow(Walk(ns, hasInode))
    decreases ns, 1
  {
    hide FoundFrom, Wanted, WalkBelow;
    var a, b := Wanted(ns, hasInode), WalkBelow(ns, hasInode);
    var s: seq<Node> := a + b;
    BelowFollows(ns);
    forall i | 0 <= i < |s| && s[i].kind == Dir ensures FoundFrom(s, Wanted(s[i].children, hasInode), i + 1) {
      assert a + b + [] == a + b;
      if i < |a| {
        var part := Wanted(a[i].children, hasInode);
        WantedIn(ns, i);
        BelowHas(ns, a[i]);
        FoundBehind(a, b, [], part, 0);
        FoundLater(a + b, part, i + 1, |a|);
      } else {
        FoundBehind(a, b, [], Wanted(b[i - |a|].children, hasInode), i - |a| + 1);
      }
    }
  }

  lemma {:induction false} BelowFollows(ns: seq<Node>)
    ensures ChildrenFollow(WalkBelow(ns, hasInode))
    decreases ns, 0
  {
    hide ChildrenFollow, Walk;
    if ns == [] {
      NothingFollows();
    } else {
      if ns[0].kind == Dir {
        WalkFollows(ns[0].children);
      } else {
        NothingFollows();
      }
      BelowFollows(ns[1..]);
      FollowConcat(if ns[0].kind == Dir then Walk(ns[0].children, hasInode) else [], WalkBelow(ns[1..], hasInode));
    }
  }

  lemma NothingFollows()
    ensures ChildrenFollow([])
  {
  }

  /** In the inode table, the children of a directory stand together, somewhere behind the directory. */
  lemma OrderFollows(root: Node)
    requires root.kind == Dir
    ensures ChildrenFollow(InodeOrder(root))
  {
    hide FoundFrom, Wanted, Walk;
    var w := Walk(root.children, hasInode);
    WalkFollows(root.children);
    WalkHas(root.children);
    var s: seq<Node> := [root] + w;
    forall i | 0 <= i < |s| && s[i].kind == Dir ensures FoundFrom(s, Wanted(s[i].children, hasInode), i + 1) {
      assert [root] + w + [] == [root] + w;
      if i == 0 {
        FoundBehind([root], w, [], Wanted(root.children, hasInode), 0);
      } else {
        FoundBehind([root], w, [], Wanted(w[i - 1].children, hasInode), i);
      }
    }
  }
}
