// What the heap holds for the filesystem, and the steps of fs_remove on values: the node map, the
// tree it spells out and the rooms of the live heap blocks.
module FsRemoval {
  import opened Memory
  import opened Strings
  import opened HeapClient
  import opened FsTree

  // Node addresses and non-null data addresses of the nodes in s.
  ghost function Owned(nodes: Nodes, s: set<nat>): set<nat> {
    s + set q | q in s && q in nodes && nodes[q].data != NULL :: nodes[q].data
  }

  // A file's contents with their terminator fit in its buffer, a heap block that holds no node.
  ghost predicate HasRoom(nodes: Nodes, rooms: map<nat, nat>, q: nat)
    requires q in nodes
  {
    var n := nodes[q];
    if n.data == NULL then n.size == 0 == n.cap
    else n.data in rooms && n.data !in nodes && n.size < n.cap <= rooms[n.data]
  }

  ghost predicate Clash(nodes: Nodes, q: nat, r: nat)
    requires q in nodes && r in nodes
  {
    nodes[q].data == nodes[r].data != NULL
  }

  // Every node and every non-null data buffer is a live heap block of its own.
  ghost predicate Backed(nodes: Nodes, rooms: map<nat, nat>) {
    && nodes.Keys <= rooms.Keys
    && (forall q {:trigger HasRoom(nodes, rooms, q)} :: q in nodes ==> HasRoom(nodes, rooms, q))
    && (forall q, r {:trigger Clash(nodes, q, r)} :: q in nodes && r in nodes && q != r ==> !Clash(nodes, q, r))
  }

  // The same node up to its links to children and siblings.
  predicate SameNode(a: Node, b: Node) {
    a == b.(children := a.children, next := a.next)
  }

  ghost predicate SameNodes(nodes: Nodes, nodes': Nodes) {
    forall q :: q in nodes' ==> q in nodes && SameNode(nodes'[q], nodes[q])
  }

  // The bytes of a file.
  function Contents(m: seq<byte>, n: Node): seq<byte> {
    if n.data != NULL && n.data + n.size <= |m| then m[n.data..n.data + n.size] else []
  }

  // strncpy(n->name, name, FS_NAME_MAX - 1) into a zeroed node
  function Cut63(name: string): Name {
    Cut(name, NAME_MAX)
  }

  // node is tree i of the forest ts under its parent.
  ghost predicate Attached(nodes: Nodes, ts: seq<Tree>, i: nat, node: nat) {
    && i < |ts| && ts[i].p == node && node in nodes
    && var par := nodes[node].parent;
      && par != NULL && par in nodes && nodes[par].children == Head(ts)
      && ForestLinked(nodes, ts, par) && ForestDistinct(ts) && par !in ForestPtrs(ts)
  }

  // ---- fs_remove, step by step ----

  // The nodes once fs_remove(node) has removed the first m children.
  function KidsRemoved(nodes: Nodes, kids: seq<Tree>, node: nat, m: nat): Nodes
    requires node in nodes && m <= |kids|
  {
    nodes[node := nodes[node].(children := Head(kids[m..]))] - ForestPtrs(kids[..m])
  }

  // What is left of the children is a forest again, ready for the next removal.
  lemma {:induction false} KidsLeft(nodes: Nodes, kids: seq<Tree>, node: nat, m: nat)
    requires node in nodes && ForestLinked(nodes, kids, node) && ForestDistinct(kids) && node !in ForestPtrs(kids)
    requires node != NULL && m < |kids|
    ensures Attached(KidsRemoved(nodes, kids, node, m), kids[m..], 0, kids[m].p)
    ensures KidsRemoved(nodes, kids, node, m)[kids[m].p].parent == node && ForestPtrs(kids[m..]) <= ForestPtrs(kids)
    ensures Ptrs(kids[m]) !! ForestPtrs(kids[..m]) && Ptrs(kids[m]) <= ForestPtrs(kids) <= nodes.Keys
  {
    ForestPtrsAt(kids, m);
    ForestAt(nodes, kids, node, m);
    ForestDistinctFrom(kids, m);
    ForestInMap(nodes, kids, node);
    ForestFrame(nodes, KidsRemoved(nodes, kids, node, m), kids[m..], node);
  }

  lemma {:induction false} ForestDistinctFrom(ts: seq<Tree>, i: nat)
    requires ForestDistinct(ts) && i <= |ts|
    ensures ForestDistinct(ts[i..]) && ForestPtrs(ts[..i]) !! ForestPtrs(ts[i..])
    ensures ForestPtrs(ts) == ForestPtrs(ts[..i]) + ForestPtrs(ts[i..])
    decreases i
  {
    assert ts == ts[..i] + ts[i..];
    ForestPtrsAppend(ts[..i], ts[i..]);
    if i > 0 {
      ForestDistinctFrom(ts[1..], i - 1);
      assert ts[1..][i - 1..] == ts[i..] && ts[1..][..i - 1] == ts[..i][1..];
    }
  }

  lemma NoneRemoved(nodes: Nodes, kids: seq<Tree>, node: nat, rooms: map<nat, nat>)
    requires node in nodes && nodes[node].children == Head(kids)
    ensures KidsRemoved(nodes, kids, node, 0) == nodes && kids[0..] == kids
    ensures rooms - Owned(nodes, ForestPtrs(kids[..0])) == rooms
  {
    assert kids[..0] == [];
  }

  lemma {:induction false} KidsRemovedStep(nodes: Nodes, kids: seq<Tree>, node: nat, m: nat, cur: Nodes)
    requires node in nodes && ForestLinked(nodes, kids, node) && ForestDistinct(kids) && node !in ForestPtrs(kids)
    requires node != NULL && m < |kids| && cur == KidsRemoved(nodes, kids, node, m)
    ensures kids[m..][0].p in cur && node in cur
    ensures Unlink(cur, kids[m..], node, 0) - Ptrs(kids[m]) == KidsRemoved(nodes, kids, node, m + 1)
  {
    KidsLeft(nodes, kids, node, m);
    ForestAt(nodes, kids, node, m);
    PtrsUpTo(kids, m);
  }

  // With its children gone, node is still attached, now as a leaf.
  lemma LeafAttached(nodes: Nodes, ts: seq<Tree>, i: nat, node: nat, cur: Nodes)
    requires Attached(nodes, ts, i, node) && cur == KidsRemoved(nodes, ts[i].kids, node, |ts[i].kids|)
    ensures Attached(cur, ts[i := Tree(node, [])], i, node)
  {
    var kids, par := ts[i].kids, nodes[node].parent;
    ForestAt(nodes, ts, par, i);
    ForestApart(ts, i);
    PtrsIn(ts, i);
    ForestInMap(nodes, ts, par);
    assert kids[..|kids|] == kids;
    ForestReplaced(nodes, cur, ts, par, i, Tree(node, []));
    assert Head(ts[i := Tree(node, [])]) == Head(ts);
  }

  // Where the two links that unlinking can write lie.
  lemma OutsideSubtree(nodes: Nodes, ts: seq<Tree>, i: nat, node: nat)
    requires Attached(nodes, ts, i, node)
    ensures nodes[node].parent !in Ptrs(ts[i])
    ensures i > 0 ==> ts[i - 1].p in nodes && ts[i - 1].p !in Ptrs(ts[i])
    ensures Ptrs(ts[i]) == {node} + ForestPtrs(ts[i].kids)
  {
    PtrsIn(ts, i);
    if i > 0 {
      PtrsIn(ts, i - 1);
      TreesApart(ts, i - 1, i);
      ForestInMap(nodes, ts, nodes[node].parent);
    }
  }

  // Unlinking and freeing the leaf completes the removal of the subtree.
  lemma LeafUnlinked(nodes: Nodes, ts: seq<Tree>, i: nat, node: nat, cur: Nodes)
    requires Attached(nodes, ts, i, node) && cur == KidsRemoved(nodes, ts[i].kids, node, |ts[i].kids|)
    requires Attached(cur, ts[i := Tree(node, [])], i, node)
    ensures cur[node] == nodes[node].(children := NULL)
    ensures i > 0 ==> ts[i - 1].p in nodes && ts[i - 1].p in cur
    ensures Unlink(cur, ts[i := Tree(node, [])], nodes[node].parent, i) - {node}
         == Unlink(nodes, ts, nodes[node].parent, i) - Ptrs(ts[i])
  {
    OutsideSubtree(nodes, ts, i, node);
    assert ts[i].kids[..|ts[i].kids|] == ts[i].kids;
  }

  // Freeing nodes and their buffers leaves the others backed.
  lemma BackedLess(nodes: Nodes, rooms: map<nat, nat>, s: set<nat>, nodes': Nodes, rooms': map<nat, nat>)
    requires Backed(nodes, rooms) && SameNodes(nodes, nodes') && nodes'.Keys == nodes.Keys - s
    requires rooms' == rooms - Owned(nodes, s) && s <= nodes.Keys
    ensures Backed(nodes', rooms')
  {
    forall q | q in nodes' ensures SameNode(nodes'[q], nodes[q]) && q in rooms' && HasRoom(nodes', rooms', q) {
      assert HasRoom(nodes, rooms, q);
      forall r | r in s && r in nodes && nodes[r].data != NULL
        ensures nodes[r].data != q && nodes[r].data != nodes[q].data
      {
        assert HasRoom(nodes, rooms, r) && !Clash(nodes, q, r);
      }
    }
    forall q, r | q in nodes' && r in nodes' && q != r ensures !Clash(nodes', q, r) {
      assert !Clash(nodes, q, r) && SameNode(nodes'[q], nodes[q]) && SameNode(nodes'[r], nodes[r]);
    }
  }

  // A new node without a buffer, in a block that was not live.
  lemma BackedMore(nodes: Nodes, rooms: map<nat, nat>, n: nat, nodes': Nodes, rooms': map<nat, nat>)
    requires Backed(nodes, rooms) && n !in rooms && n in rooms' && rooms' == rooms[n := rooms'[n]]
    requires n in nodes' && nodes' == nodes[n := nodes'[n]] && nodes'[n].data == NULL
      && nodes'[n].size == 0 == nodes'[n].cap
    ensures Backed(nodes', rooms')
  {
    forall q | q in nodes' ensures HasRoom(nodes', rooms', q) {
      if q != n { assert HasRoom(nodes, rooms, q); }
    }
    forall q, r | q in nodes' && r in nodes' && q != r ensures !Clash(nodes', q, r) {
      if q != n && r != n { assert !Clash(nodes, q, r); }
    }
  }

  // Links and names do not matter to the heap.
  lemma BackedLike(nodes: Nodes, nodes': Nodes, rooms: map<nat, nat>)
    requires Backed(nodes, rooms) && nodes'.Keys == nodes.Keys
    requires forall q :: q in nodes ==>
      nodes'[q].data == nodes[q].data && nodes'[q].size == nodes[q].size && nodes'[q].cap == nodes[q].cap
    ensures Backed(nodes', rooms)
  {
    forall q | q in nodes' ensures HasRoom(nodes', rooms, q) { assert HasRoom(nodes, rooms, q); }
    forall q, r | q in nodes' && r in nodes' && q != r ensures !Clash(nodes', q, r) { assert !Clash(nodes, q, r); }
  }

  lemma OwnedSplit(nodes: Nodes, a: set<nat>, b: set<nat>, nodes': Nodes)
    requires b <= nodes'.Keys && SameNodes(nodes, nodes') && a !! b
    ensures Owned(nodes, a + b) == Owned(nodes, a) + Owned(nodes', b)
  {
    forall q | q in nodes' ensures SameNode(nodes'[q], nodes[q]) && nodes'[q].data == nodes[q].data {}
  }

  // The rooms around the two kfree calls that end the removal of node, its descendants s gone.
  lemma NodeFreed(nodes: Nodes, rooms: map<nat, nat>, node: nat, s: set<nat>, left: map<nat, nat>)
    requires Backed(nodes, rooms) && node in nodes && node !in s && s <= nodes.Keys
    requires left == rooms - Owned(nodes, s)
    ensures var d := nodes[node].data;
      if d == NULL then node in left && left - {node} == rooms - Owned(nodes, {node} + s)
      else d in left && node in left - {d} && left - {d} - {node} == rooms - Owned(nodes, {node} + s)
  {
    var d := nodes[node].data;
    assert HasRoom(nodes, rooms, node);
    forall r | r in s && nodes[r].data != NULL ensures nodes[r].data != node && nodes[r].data != d {
      assert HasRoom(nodes, rooms, r) && !Clash(nodes, r, node);
    }
    assert Owned(nodes, {node} + s) == Owned(nodes, s) + {node} + (if d != NULL then {d} else {});
    assert node !in Owned(nodes, s) && (d != NULL ==> d !in Owned(nodes, s) && d != node && d in rooms);
  }

  lemma SameBytesLess(m: seq<byte>, m1: seq<byte>, r: seq<byte>, rooms: map<nat, nat>, rooms': map<nat, nat>,
                      s: set<nat>)
    requires SameBytes(m, m1, rooms) && SameBytes(m1, r, rooms') && rooms' == rooms - s
    ensures SameBytes(m, r, rooms')
  {
    forall p | p in rooms' ensures p in rooms && rooms[p] == rooms'[p] {}
  }

  // What Attached says about the subtree itself.
  lemma {:induction false} SubtreeFacts(nodes: Nodes, ts: seq<Tree>, i: nat, node: nat)
    requires Attached(nodes, ts, i, node)
    ensures var kids := ts[i].kids;
      && ForestLinked(nodes, kids, node) && ForestDistinct(kids) && node !in ForestPtrs(kids) && node != NULL
      && nodes[node].children == Head(kids) && (Head(kids) == NULL <==> kids == [])
      && ForestPtrs(kids) <= ForestPtrs(ts) && ForestPtrs(kids) <= nodes.Keys
  {
    ForestAt(nodes, ts, nodes[node].parent, i);
    ForestApart(ts, i);
    PtrsIn(ts, i);
    ForestInMap(nodes, ts, nodes[node].parent);
  }

  lemma {:induction false} SameTree(ts: seq<Tree>, m: nat, i: nat)
    requires ForestDistinct(ts) && m <= i < |ts| && ts[m].p == ts[i].p
    ensures m == i
  {
    if m < i { TreesApart(ts, m, i); }
  }

  lemma KidsRemovedSame(nodes: Nodes, kids: seq<Tree>, node: nat, m: nat)
    requires node in nodes && m <= |kids|
    ensures SameNodes(nodes, KidsRemoved(nodes, kids, node, m))
  {
  }

  // c->parent = node, stored before the recursion, changes nothing.
  lemma ParentStore(nodes: Nodes, c: nat, node: nat)
    requires c in nodes && nodes[c].parent == node
    ensures nodes[c := nodes[c].(parent := node)] == nodes
  {
  }

  // Before the removal of child m.
  lemma {:induction false} BeforeKid(nodes: Nodes, rooms: map<nat, nat>, kids: seq<Tree>, node: nat, m: nat, cur: Nodes,
                                     left: map<nat, nat>)
    requires Backed(nodes, rooms) && node in nodes && node !in ForestPtrs(kids) && ForestPtrs(kids) <= nodes.Keys
    requires ForestDistinct(kids) && m < |kids|
    requires cur == KidsRemoved(nodes, kids, node, m) && left == rooms - Owned(nodes, ForestPtrs(kids[..m]))
    ensures Backed(cur, left)
  {
    ForestDistinctFrom(kids, m);
    KidsRemovedSame(nodes, kids, node, m);
    BackedLess(nodes, rooms, ForestPtrs(kids[..m]), cur, left);
  }

  // After it.
  lemma {:induction false} RoomsAfterKid(nodes: Nodes, rooms: map<nat, nat>, kids: seq<Tree>, node: nat, m: nat,
                                         cur: Nodes)
    requires node in nodes && ForestLinked(nodes, kids, node) && ForestDistinct(kids) && node !in ForestPtrs(kids)
    requires node != NULL && m < |kids| && cur == KidsRemoved(nodes, kids, node, m)
    ensures rooms - Owned(nodes, ForestPtrs(kids[..m])) - Owned(cur, Ptrs(kids[m]))
      == rooms - Owned(nodes, ForestPtrs(kids[..m + 1]))
  {
    KidsLeft(nodes, kids, node, m);
    KidsRemovedSame(nodes, kids, node, m);
    PtrsIn(kids[m..], 0);
    ForestInMap(cur, kids[m..], node);
    OwnedSplit(nodes, ForestPtrs(kids[..m]), Ptrs(kids[m]), cur);
    PtrsUpTo(kids, m);
  }

  lemma PtrsUpTo(kids: seq<Tree>, m: nat)
    requires m < |kids|
    ensures ForestPtrs(kids[..m + 1]) == ForestPtrs(kids[..m]) + Ptrs(kids[m])
  {
    assert kids[..m + 1] == kids[..m] + [kids[m]];
    ForestPtrsAppend(kids[..m], [kids[m]]);
    assert [kids[m]][1..] == [];
  }

  lemma {:induction false} NextAfterKid(nodes: Nodes, kids: seq<Tree>, node: nat, m: nat, cur: Nodes)
    requires node in nodes && ForestLinked(nodes, kids, node) && ForestDistinct(kids) && node !in ForestPtrs(kids)
    requires node != NULL && m < |kids| && cur == KidsRemoved(nodes, kids, node, m)
    ensures Head(kids[m + 1..]) == NULL <==> m + 1 == |kids|
    ensures kids[m].p in cur && cur[kids[m].p].next == Head(kids[m + 1..]) && cur[kids[m].p].parent == node
  {
    KidsLeft(nodes, kids, node, m);
    ForestAt(nodes, kids, node, m);
    if m + 1 < |kids| { ForestAt(nodes, kids, node, m + 1); }
  }

  // What remains keeps its bytes.
  lemma ContentsAt(n: Node, rooms: map<nat, nat>, m: seq<byte>, r: seq<byte>)
    requires n.data != NULL ==> n.data in rooms && n.size <= rooms[n.data]
    requires SameBytes(m, r, rooms)
    ensures n.data != NULL && n.data + rooms[n.data] <= |m| ==> Contents(r, n) == Contents(m, n)
    ensures n.data == NULL ==> Contents(r, n) == Contents(m, n)
  {
    if n.data != NULL && n.data + rooms[n.data] <= |m| {
      var room := rooms[n.data];
      assert r[n.data..n.data + room] == m[n.data..n.data + room];
      assert r[n.data..n.data + room][..n.size] == r[n.data..n.data + n.size];
      assert m[n.data..n.data + room][..n.size] == m[n.data..n.data + n.size];
    }
  }

  // A file's contents are as long as its size says.
  lemma ContentsFull(nodes: Nodes, rooms: map<nat, nat>, m: seq<byte>, q: nat)
    requires Backed(nodes, rooms) && q in nodes && forall p :: p in rooms ==> p + rooms[p] <= |m|
    ensures |Contents(m, nodes[q])| == nodes[q].size
  {
    assert HasRoom(nodes, rooms, q);
  }

  lemma KeepsContents(nodes: Nodes, nodes': Nodes, rooms: map<nat, nat>, m: seq<byte>, r: seq<byte>)
    requires Backed(nodes', rooms) && SameBytes(m, r, rooms) && SameNodes(nodes, nodes')
    requires forall p :: p in rooms ==> p + rooms[p] <= |m|
    ensures forall q :: q in nodes' ==> Contents(r, nodes'[q]) == Contents(m, nodes[q])
  {
    forall q | q in nodes' ensures Contents(r, nodes'[q]) == Contents(m, nodes[q]) {
      assert HasRoom(nodes', rooms, q);
      ContentsAt(nodes'[q], rooms, m, r);
      assert SameNode(nodes'[q], nodes[q]);
    }
  }

  // ---- The whole tree ----

  // Every node but the root is a child of the node one step up.
  lemma {:induction false} AttachedAt(nodes: Nodes, tree: Tree, pos: seq<nat>)
    requires Linked(nodes, tree, NULL, NULL) && Distinct(tree) && Reaches(tree, pos) && pos != []
    ensures Reaches(tree, pos[..|pos| - 1])
    ensures var up := Sub(tree, pos[..|pos| - 1]);
      Attached(nodes, up.kids, pos[|pos| - 1], Sub(tree, pos).p) && nodes[Sub(tree, pos).p].parent == up.p
      && tree.p !in ForestPtrs(up.kids) && up.kids[pos[|pos| - 1]] == Sub(tree, pos)
  {
    var front := pos[..|pos| - 1];
    ParentAt(nodes, tree, NULL, NULL, pos);
    SubLinked(nodes, tree, NULL, NULL, front);
    if front != [] {
      SubIn(tree.kids[front[0]], front[1..]);
      PtrsIn(tree.kids, front[0]);
    }
  }

  // The tree without the subtree at pos.
  function Prune(tree: Tree, pos: seq<nat>): Tree
    requires pos != [] && Reaches(tree, pos[..|pos| - 1]) && pos[|pos| - 1] < |Sub(tree, pos[..|pos| - 1]).kids|
  {
    var front := pos[..|pos| - 1];
    var up := Sub(tree, front);
    PutAt(tree, front, up.(kids := Without(up.kids, pos[|pos| - 1])))
  }

  // Removing the node at pos leaves exactly the pruned tree: every other node keeps its parent
  // and its place among its siblings.
  lemma {:induction false} RemovalPrunes(nodes: Nodes, tree: Tree, pos: seq<nat>, nodes': Nodes)
    requires Linked(nodes, tree, NULL, NULL) && Distinct(tree) && Ptrs(tree) == nodes.Keys && Reaches(tree, pos)
      && pos != []
    requires Reaches(tree, pos[..|pos| - 1])
    requires var up := Sub(tree, pos[..|pos| - 1]); var i := pos[|pos| - 1];
      Attached(nodes, up.kids, i, Sub(tree, pos).p) && up.p in nodes && nodes[Sub(tree, pos).p].parent == up.p
      && (i > 0 ==> up.kids[i - 1].p in nodes)
      && nodes' == Unlink(nodes, up.kids, up.p, i) - Ptrs(up.kids[i])
    ensures Linked(nodes', Prune(tree, pos), NULL, NULL) && Distinct(Prune(tree, pos))
    ensures Ptrs(Prune(tree, pos)) == nodes'.Keys == nodes.Keys - Ptrs(Sub(tree, pos)) && Prune(tree, pos).p == tree.p
    ensures SameNodes(nodes, nodes')
  {
    var front, i := pos[..|pos| - 1], pos[|pos| - 1];
    var up := Sub(tree, front);
    var u := up.(kids := Without(up.kids, i));
    SubLinked(nodes, tree, NULL, NULL, front);
    SubIn(tree, front);
    ParentAt(nodes, tree, NULL, NULL, pos);
    UnlinkedTree(nodes, up, i, nodes');
    PutLinked(nodes, nodes', tree, NULL, NULL, front, u);
  }

  // The nodes are exactly those of one tree under root.
  ghost predicate Shape(nodes: Nodes, tree: Tree, root: nat) {
    root == tree.p && Linked(nodes, tree, NULL, NULL) && Distinct(tree) && Ptrs(tree) == nodes.Keys
  }

  // The subtree at node is gone, with the blocks it owned, and the rest of the tree is as before.
  ghost predicate Removed(nodes: Nodes, tree: Tree, rooms: map<nat, nat>, node: nat,
                          nodes': Nodes, tree': Tree, rooms': map<nat, nat>)
    requires Ptrs(tree) == nodes.Keys && node in nodes
  {
    var pos := Where(tree, node);
    && pos != [] && Reaches(tree, pos[..|pos| - 1]) && pos[|pos| - 1] < |Sub(tree, pos[..|pos| - 1]).kids|
    && tree' == Prune(tree, pos)
    && nodes'.Keys == nodes.Keys - Ptrs(Sub(tree, pos))
    && rooms' == rooms - Owned(nodes, Ptrs(Sub(tree, pos)))
  }

  // node sits at pos, as child i of up.
  ghost predicate Placed(nodes: Nodes, tree: Tree, node: nat, pos: seq<nat>, up: Tree, i: nat) {
    && Ptrs(tree) == nodes.Keys && node in nodes && pos == Where(tree, node)
    && pos != [] && Reaches(tree, pos[..|pos| - 1]) && up == Sub(tree, pos[..|pos| - 1]) && i == pos[|pos| - 1]
    && Attached(nodes, up.kids, i, node) && nodes[node].parent == up.p && up.kids[i] == Sub(tree, pos)
    && tree.p !in ForestPtrs(up.kids)
  }

  lemma Place(nodes: Nodes, tree: Tree, node: nat) returns (pos: seq<nat>, up: Tree, i: nat)
    requires Shape(nodes, tree, tree.p) && node in nodes && node != tree.p
    ensures Placed(nodes, tree, node, pos, up, i)
  {
    pos := Where(tree, node);
    AttachedAt(nodes, tree, pos);
    up, i := Sub(tree, pos[..|pos| - 1]), pos[|pos| - 1];
  }

  lemma RemovalDone(nodes: Nodes, tree: Tree, rooms: map<nat, nat>, node: nat, nodes': Nodes, rooms': map<nat, nat>,
                    m: seq<byte>, r: seq<byte>, pos: seq<nat>, up: Tree, i: nat)
    requires Shape(nodes, tree, tree.p) && Backed(nodes, rooms) && Placed(nodes, tree, node, pos, up, i)
    requires (i > 0 ==> up.kids[i - 1].p in nodes) && nodes' == Unlink(nodes, up.kids, up.p, i) - Ptrs(up.kids[i])
    requires rooms' == rooms - Owned(nodes, Ptrs(up.kids[i])) && SameBytes(m, r, rooms')
    requires forall p :: p in rooms' ==> p + rooms'[p] <= |r|
    ensures Removed(nodes, tree, rooms, node, nodes', Prune(tree, pos), rooms')
    ensures Shape(nodes', Prune(tree, pos), tree.p) && Backed(nodes', rooms') && SameNodes(nodes, nodes')
    ensures forall q :: q in nodes' ==> Contents(r, nodes'[q]) == Contents(m, nodes[q])
  {
    RemovalPrunes(nodes, tree, pos, nodes');
    SubIn(tree, pos);
    BackedLess(nodes, rooms, Ptrs(up.kids[i]), nodes', rooms');
    KeepsContents(nodes, nodes', rooms', m, r);
  }

  lemma {:induction false} UnlinkedTree(nodes: Nodes, up: Tree, i: nat, nodes': Nodes)
    requires i < |up.kids| && Attached(nodes, up.kids, i, up.kids[i].p) && nodes[up.kids[i].p].parent == up.p
      && Distinct(up)
    requires Linked(nodes, up, nodes[up.p].parent, nodes[up.p].next) && (i > 0 ==> up.kids[i - 1].p in nodes)
    requires nodes' == Unlink(nodes, up.kids, up.p, i) - Ptrs(up.kids[i])
    ensures var u := up.(kids := Without(up.kids, i));
      Linked(nodes', u, nodes[up.p].parent, nodes[up.p].next) && Distinct(u) && Ptrs(u) == Ptrs(up) - Ptrs(up.kids[i])
    ensures forall q :: q in nodes && q !in Ptrs(up) ==> q in nodes' && nodes'[q] == nodes[q]
  {
    var kids := up.kids;
    OutsideSubtree(nodes, kids, i, kids[i].p);
    ForestAt(nodes, kids, up.p, i);
    ForestApart(kids, i);
    PtrsIn(kids, i);
    if i > 0 { PtrsIn(kids, i - 1); }
    var u1 := Unlink(nodes, kids, up.p, i);
    UnlinkedForest(nodes, kids, up.p, i, u1);
    ForestFrame(u1, nodes', Without(kids, i), up.p);
    if i > 0 { assert Head(Without(kids, i)) == Head(kids); }
  }
}
