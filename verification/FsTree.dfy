// The node graph of kernel/fs/ramfs.c as a value: nodes linked by parent, first child and next
// sibling, and the tree such links spell out.
module FsTree {
  import opened Memory

  const NAME_MAX: nat := 64

  // What the name field of a node can hold.
  type Name = s: string | |s| < NAME_MAX

  datatype Node = Node(
    name: Name, isDir: bool, parent: nat, children: nat, next: nat, data: nat, size: nat, cap: nat)

  type Nodes = map<nat, Node>

  // A node pointer with the trees below it, first child first.
  datatype Tree = Tree(p: nat, kids: seq<Tree>)

  function Head(ts: seq<Tree>): nat {
    if ts == [] then NULL else ts[0].p
  }

  function Ptrs(t: Tree): set<nat>
    decreases t, 1
  {
    {t.p} + ForestPtrs(t.kids)
  }

  function ForestPtrs(ts: seq<Tree>): set<nat>
    decreases ts, 0
  {
    if ts == [] then {} else Ptrs(ts[0]) + ForestPtrs(ts[1..])
  }

  // No node occurs twice.
  predicate Distinct(t: Tree)
    decreases t, 1
  {
    t.p !in ForestPtrs(t.kids) && ForestDistinct(t.kids)
  }

  predicate ForestDistinct(ts: seq<Tree>)
    decreases ts, 0
  {
    ts == [] || (Distinct(ts[0]) && Ptrs(ts[0]) !! ForestPtrs(ts[1..]) && ForestDistinct(ts[1..]))
  }

  // The links of the nodes of t, which hangs under `parent` and before its sibling `next`.
  predicate Linked(nodes: Nodes, t: Tree, parent: nat, next: nat)
    decreases t, 1
  {
    && t.p != NULL && t.p in nodes
    && nodes[t.p].parent == parent && nodes[t.p].next == next && nodes[t.p].children == Head(t.kids)
    && (t.kids != [] ==> nodes[t.p].isDir)
    && ForestLinked(nodes, t.kids, t.p)
  }

  predicate ForestLinked(nodes: Nodes, ts: seq<Tree>, parent: nat)
    decreases ts, 0
  {
    ts == [] || (Linked(nodes, ts[0], parent, Head(ts[1..])) && ForestLinked(nodes, ts[1..], parent))
  }

  // The forest without its tree i.
  function Without(ts: seq<Tree>, i: nat): seq<Tree>
    requires i < |ts|
  {
    ts[..i] + ts[i + 1..]
  }

  // ---- Facts about forests ----

  lemma {:induction false} LinkedFrame(nodes: Nodes, nodes': Nodes, t: Tree, parent: nat, next: nat)
    requires Linked(nodes, t, parent, next)
    requires forall q :: q in Ptrs(t) && q in nodes ==> q in nodes' && nodes'[q] == nodes[q]
    ensures Linked(nodes', t, parent, next)
    decreases t, 1
  {
    ForestFrame(nodes, nodes', t.kids, t.p);
  }

  lemma {:induction false} ForestFrame(nodes: Nodes, nodes': Nodes, ts: seq<Tree>, parent: nat)
    requires ForestLinked(nodes, ts, parent)
    requires forall q :: q in ForestPtrs(ts) && q in nodes ==> q in nodes' && nodes'[q] == nodes[q]
    ensures ForestLinked(nodes', ts, parent)
    decreases ts, 0
  {
    if ts != [] {
      LinkedFrame(nodes, nodes', ts[0], parent, Head(ts[1..]));
      ForestFrame(nodes, nodes', ts[1..], parent);
    }
  }

  // Only the links matter to the tree.
  ghost predicate SameLinks(nodes: Nodes, nodes': Nodes) {
    forall q {:trigger nodes'[q]} {:trigger q in nodes'} :: q in nodes ==>
      && q in nodes' && nodes'[q].isDir == nodes[q].isDir && nodes'[q].parent == nodes[q].parent
      && nodes'[q].next == nodes[q].next && nodes'[q].children == nodes[q].children
  }

  lemma {:induction false} LinkedLike(nodes: Nodes, nodes': Nodes, t: Tree, parent: nat, next: nat)
    requires Linked(nodes, t, parent, next) && SameLinks(nodes, nodes')
    ensures Linked(nodes', t, parent, next)
    decreases t, 1
  {
    assert t.p in nodes' && nodes'[t.p].parent == parent;
    ForestLike(nodes, nodes', t.kids, t.p);
  }

  lemma {:induction false} ForestLike(nodes: Nodes, nodes': Nodes, ts: seq<Tree>, parent: nat)
    requires ForestLinked(nodes, ts, parent) && SameLinks(nodes, nodes')
    ensures ForestLinked(nodes', ts, parent)
    decreases ts, 0
  {
    if ts != [] {
      LinkedLike(nodes, nodes', ts[0], parent, Head(ts[1..]));
      ForestLike(nodes, nodes', ts[1..], parent);
    }
  }

  lemma {:induction false} LinkedInMap(nodes: Nodes, t: Tree, parent: nat, next: nat)
    requires Linked(nodes, t, parent, next)
    ensures Ptrs(t) <= nodes.Keys && NULL !in Ptrs(t)
    decreases t, 1
  {
    ForestInMap(nodes, t.kids, t.p);
  }

  lemma {:induction false} ForestInMap(nodes: Nodes, ts: seq<Tree>, parent: nat)
    requires ForestLinked(nodes, ts, parent)
    ensures ForestPtrs(ts) <= nodes.Keys && NULL !in ForestPtrs(ts)
    decreases ts, 0
  {
    if ts != [] {
      LinkedInMap(nodes, ts[0], parent, Head(ts[1..]));
      ForestInMap(nodes, ts[1..], parent);
    }
  }

  lemma {:induction false} ForestPtrsAppend(a: seq<Tree>, b: seq<Tree>)
    ensures ForestPtrs(a + b) == ForestPtrs(a) + ForestPtrs(b)
    decreases |a|
  {
    if a == [] {
      assert a + b == b;
    } else {
      assert (a + b)[1..] == a[1..] + b;
      ForestPtrsAppend(a[1..], b);
    }
  }

  lemma {:induction false} OnePtrs(t: Tree)
    ensures ForestPtrs([t]) == Ptrs(t)
  {
    assert [t][1..] == [];
  }

  lemma {:induction false} ForestPtrsAt(ts: seq<Tree>, i: nat)
    requires i < |ts|
    ensures ForestPtrs(ts) == ForestPtrs(ts[..i]) + Ptrs(ts[i]) + ForestPtrs(ts[i + 1..])
    ensures ForestPtrs(Without(ts, i)) == ForestPtrs(ts[..i]) + ForestPtrs(ts[i + 1..])
  {
    var a, b, c := ts[..i], [ts[i]], ts[i + 1..];
    assert ts == (a + b) + c;
    OnePtrs(ts[i]);
    ForestPtrsAppend(a + b, c);
    ForestPtrsAppend(a, b);
    ForestPtrsAppend(a, c);
  }

  // Tree i of a distinct forest shares no node with the trees before and after it.
  lemma {:induction false} ForestApart(ts: seq<Tree>, i: nat)
    requires ForestDistinct(ts) && i < |ts|
    ensures Distinct(ts[i])
    ensures Ptrs(ts[i]) !! ForestPtrs(ts[..i]) + ForestPtrs(ts[i + 1..])
    ensures ForestDistinct(Without(ts, i))
    ensures ForestPtrs(Without(ts, i)) == ForestPtrs(ts) - Ptrs(ts[i])
    decreases i
  {
    ForestPtrsAt(ts, i);
    if i == 0 {
      assert ts[..0] == [] && Without(ts, 0) == ts[1..];
    } else {
      ForestApart(ts[1..], i - 1);
      ForestPtrsAt(ts[1..], i - 1);
      assert ts[1..][i - 1 + 1..] == ts[i + 1..] && ts[..i][1..] == ts[1..][..i - 1];
      assert Without(ts, i)[1..] == Without(ts[1..], i - 1);
    }
  }

  // The links of tree i within its forest.
  lemma {:induction false} ForestAt(nodes: Nodes, ts: seq<Tree>, parent: nat, i: nat)
    requires ForestLinked(nodes, ts, parent) && i < |ts|
    ensures Linked(nodes, ts[i], parent, Head(ts[i + 1..]))
    ensures ForestLinked(nodes, ts[i..], parent) && ForestLinked(nodes, ts[i + 1..], parent)
    decreases i
  {
    if i == 0 {
      assert ts[0..] == ts;
    } else {
      ForestAt(nodes, ts[1..], parent, i - 1);
      assert ts[1..][i - 1 + 1..] == ts[i + 1..] && ts[1..][i - 1..] == ts[i..];
    }
  }

  // ---- Taking a tree out of its sibling list ----

  // What unlink_from_parent leaves of the links when node is child i of par.
  function Unlink(nodes: Nodes, ts: seq<Tree>, par: nat, i: nat): Nodes
    requires i < |ts| && ts[i].p in nodes && par in nodes && (i > 0 ==> ts[i - 1].p in nodes)
  {
    var after := nodes[ts[i].p].next;
    if i == 0 then nodes[par := nodes[par].(children := after)]
    else nodes[ts[i - 1].p := nodes[ts[i - 1].p].(next := after)]
  }

  lemma {:induction false} UnlinkedForest(nodes: Nodes, ts: seq<Tree>, par: nat, i: nat, nodes': Nodes)
    requires ForestLinked(nodes, ts, par) && ForestDistinct(ts) && i < |ts|
    requires i == 0 ==> forall q :: q in ForestPtrs(ts) && q in nodes ==> q in nodes' && nodes'[q] == nodes[q]
    requires i > 0 ==>
      ts[i - 1].p in nodes && nodes' == nodes[ts[i - 1].p := nodes[ts[i - 1].p].(next := Head(ts[i + 1..]))]
    ensures ForestLinked(nodes', Without(ts, i), par)
    decreases i
  {
    var rest := Without(ts, i);
    if i == 0 {
      assert rest == ts[1..];
      ForestFrame(nodes, nodes', ts[1..], par);
    } else {
      assert rest[1..] == Without(ts[1..], i - 1);
      if i == 1 {
        assert rest[1..] == ts[2..] && ts[0].p !in ForestPtrs(ts[1..]);
        NextChanged(nodes, ts[0], par, Head(ts[1..]), Head(ts[2..]));
        assert ts[1..][0 + 1..] == ts[2..];
        UnlinkedForest(nodes, ts[1..], par, 0, nodes');
      } else {
        ForestPtrsAt(ts[1..], i - 2);
        assert ts[1..][i - 2] == ts[i - 1] && ts[i - 1].p in Ptrs(ts[i - 1]);
        LinkedFrame(nodes, nodes', ts[0], par, Head(ts[1..]));
        assert ts[1..][i - 1 + 1..] == ts[i + 1..];
        UnlinkedForest(nodes, ts[1..], par, i - 1, nodes');
        assert Head(rest[1..]) == Head(ts[1..]);
      }
    }
  }

  lemma NextChanged(nodes: Nodes, t: Tree, parent: nat, next: nat, next': nat)
    requires Linked(nodes, t, parent, next) && Distinct(t)
    ensures Linked(nodes[t.p := nodes[t.p].(next := next')], t, parent, next')
  {
    ForestFrame(nodes, nodes[t.p := nodes[t.p].(next := next')], t.kids, t.p);
  }

  // ---- Replacing a tree of a forest by one with the same root ----

  lemma {:induction false} PtrsReplaced(ts: seq<Tree>, i: nat, t: Tree)
    requires ForestDistinct(ts) && i < |ts| && Ptrs(t) !! ForestPtrs(ts) - Ptrs(ts[i])
    ensures ForestPtrs(ts[i := t]) == ForestPtrs(ts) - Ptrs(ts[i]) + Ptrs(t)
  {
    var r := ts[i := t];
    ForestApart(ts, i);
    ForestPtrsAt(ts, i);
    ForestPtrsAt(r, i);
    assert r[..i] == ts[..i] && r[i + 1..] == ts[i + 1..];
  }

  lemma {:induction false} ForestReplaced(nodes: Nodes, nodes': Nodes, ts: seq<Tree>, par: nat, i: nat, t: Tree)
    requires ForestLinked(nodes, ts, par) && ForestDistinct(ts) && i < |ts| && t.p == ts[i].p
    requires Linked(nodes', t, par, Head(ts[i + 1..])) && Distinct(t)
    requires Ptrs(t) !! ForestPtrs(ts) - Ptrs(ts[i])
    requires forall q :: q in ForestPtrs(ts) - Ptrs(ts[i]) && q in nodes ==> q in nodes' && nodes'[q] == nodes[q]
    ensures ForestLinked(nodes', ts[i := t], par) && ForestDistinct(ts[i := t])
    ensures ForestPtrs(ts[i := t]) == ForestPtrs(ts) - Ptrs(ts[i]) + Ptrs(t)
    decreases i
  {
    var r, rest := ts[i := t], ts[1..];
    PtrsReplaced(ts, i, t);
    ForestApart(ts, i);
    ForestPtrsAt(ts, i);
    if i == 0 {
      assert r[1..] == rest && ts[0 + 1..] == rest;
      ForestFrame(nodes, nodes', rest, par);
    } else {
      FirstApart(ts, i);
      assert r[1..] == rest[i - 1 := t] && rest[i - 1 + 1..] == ts[i + 1..];
      LinkedFrame(nodes, nodes', ts[0], par, Head(rest));
      ForestReplaced(nodes, nodes', rest, par, i - 1, t);
      PtrsReplaced(rest, i - 1, t);
      assert Head(r[1..]) == Head(rest);
    }
  }

  // The first tree shares no node with tree i behind it.
  lemma {:induction false} FirstApart(ts: seq<Tree>, i: nat)
    requires ForestDistinct(ts) && 0 < i < |ts|
    ensures Ptrs(ts[0]) !! Ptrs(ts[i]) && Ptrs(ts[0]) !! ForestPtrs(ts[1..])
    ensures ForestPtrs(ts[1..]) <= ForestPtrs(ts) && Ptrs(ts[0]) <= ForestPtrs(ts)
      && Ptrs(ts[1..][i - 1]) == Ptrs(ts[i])
    ensures Ptrs(ts[i]) <= ForestPtrs(ts[1..])
  {
    ForestPtrsAt(ts[1..], i - 1);
  }

  // ---- Positions: the child indices that lead from the root to a node ----

  predicate Reaches(t: Tree, pos: seq<nat>)
    decreases |pos|
  {
    pos == [] || (pos[0] < |t.kids| && Reaches(t.kids[pos[0]], pos[1..]))
  }

  function Sub(t: Tree, pos: seq<nat>): Tree
    requires Reaches(t, pos)
    decreases |pos|
  {
    if pos == [] then t else Sub(t.kids[pos[0]], pos[1..])
  }

  function PutAt(t: Tree, pos: seq<nat>, u: Tree): Tree
    requires Reaches(t, pos)
    decreases |pos|
  {
    if pos == [] then u else t.(kids := t.kids[pos[0] := PutAt(t.kids[pos[0]], pos[1..], u)])
  }

  // Where a node of the tree sits.
  ghost function Where(t: Tree, q: nat): (pos: seq<nat>)
    requires q in Ptrs(t)
    ensures Reaches(t, pos) && Sub(t, pos).p == q
    decreases t, 1
  {
    if q == t.p then [] else WhereIn(t.kids, q)
  }

  ghost function WhereIn(ts: seq<Tree>, q: nat): (pos: seq<nat>)
    requires q in ForestPtrs(ts)
    ensures pos != [] && pos[0] < |ts| && Reaches(ts[pos[0]], pos[1..]) && Sub(ts[pos[0]], pos[1..]).p == q
    decreases ts, 0
  {
    if q in Ptrs(ts[0]) then [0] + Where(ts[0], q)
    else var r := WhereIn(ts[1..], q); [r[0] + 1] + r[1..]
  }

  // A position is that of one node only.
  lemma {:induction false} PositionsDiffer(t: Tree, a: seq<nat>, b: seq<nat>)
    requires Distinct(t) && Reaches(t, a) && Reaches(t, b) && Sub(t, a).p == Sub(t, b).p
    ensures a == b
    decreases |a|
  {
    if a != [] { SubInForest(t.kids, a[0], a[1..]); }
    if b != [] { SubInForest(t.kids, b[0], b[1..]); }
    if a != [] && b != [] {
      SameKid(t.kids, a[0], a[1..], b[0], b[1..]);
      ForestApart(t.kids, a[0]);
      PositionsDiffer(t.kids[a[0]], a[1..], b[1..]);
      assert a == [a[0]] + a[1..] && b == [b[0]] + b[1..];
    }
  }

  lemma {:induction false} SameKid(ts: seq<Tree>, i: nat, a: seq<nat>, j: nat, b: seq<nat>)
    requires ForestDistinct(ts) && i < |ts| && j < |ts| && Reaches(ts[i], a) && Reaches(ts[j], b)
    requires Sub(ts[i], a).p == Sub(ts[j], b).p
    ensures i == j
  {
    SubIn(ts[i], a);
    SubIn(ts[j], b);
    if i < j { TreesApart(ts, i, j); } else if j < i { TreesApart(ts, j, i); }
  }

  lemma {:induction false} SubIn(t: Tree, pos: seq<nat>)
    requires Reaches(t, pos)
    ensures Ptrs(Sub(t, pos)) <= Ptrs(t) && Sub(t, pos).p in Ptrs(t)
    decreases |pos|
  {
    if pos != [] {
      SubIn(t.kids[pos[0]], pos[1..]);
      ForestPtrsAt(t.kids, pos[0]);
    }
  }

  lemma {:induction false} SubInForest(ts: seq<Tree>, i: nat, pos: seq<nat>)
    requires i < |ts| && Reaches(ts[i], pos)
    ensures Sub(ts[i], pos).p in Ptrs(ts[i]) && Sub(ts[i], pos).p in ForestPtrs(ts)
  {
    SubIn(ts[i], pos);
    ForestPtrsAt(ts, i);
  }

  lemma {:induction false} PtrsIn(ts: seq<Tree>, i: nat)
    requires i < |ts|
    ensures Ptrs(ts[i]) <= ForestPtrs(ts)
  {
    ForestPtrsAt(ts, i);
  }

  lemma {:induction false} TreesApart(ts: seq<Tree>, i: nat, j: nat)
    requires ForestDistinct(ts) && i < j < |ts|
    ensures Ptrs(ts[i]) !! Ptrs(ts[j])
  {
    ForestApart(ts, i);
    PtrsIn(ts[i + 1..], j - i - 1);
  }

  // A subtree is linked and distinct, and its root knows its parent.
  lemma {:induction false} SubLinked(nodes: Nodes, t: Tree, parent: nat, next: nat, pos: seq<nat>)
    requires Linked(nodes, t, parent, next) && Distinct(t) && Reaches(t, pos)
    ensures Sub(t, pos).p in nodes && Distinct(Sub(t, pos))
    ensures Linked(nodes, Sub(t, pos), nodes[Sub(t, pos).p].parent, nodes[Sub(t, pos).p].next)
    decreases |pos|
  {
    if pos != [] {
      ForestAt(nodes, t.kids, t.p, pos[0]);
      ForestApart(t.kids, pos[0]);
      SubLinked(nodes, t.kids[pos[0]], t.p, Head(t.kids[pos[0] + 1..]), pos[1..]);
    }
  }

  // The parent link of a node leads to the node one step up.
  lemma {:induction false} ParentAt(nodes: Nodes, t: Tree, parent: nat, next: nat, pos: seq<nat>)
    requires Linked(nodes, t, parent, next) && Reaches(t, pos) && pos != []
    ensures Reaches(t, pos[..|pos| - 1])
    ensures var up := Sub(t, pos[..|pos| - 1]); var i := pos[|pos| - 1];
      i < |up.kids| && up.kids[i] == Sub(t, pos) && Sub(t, pos).p in nodes && nodes[Sub(t, pos).p].parent == up.p
    decreases |pos|
  {
    ForestAt(nodes, t.kids, t.p, pos[0]);
    if |pos| > 1 {
      assert pos[1..][..|pos| - 2] == pos[..|pos| - 1][1..];
      ParentAt(nodes, t.kids[pos[0]], t.p, Head(t.kids[pos[0] + 1..]), pos[1..]);
    } else {
      assert pos[..0] == [];
    }
  }

  // The same one level up: child i of t becomes k.
  lemma KidReplaced(nodes: Nodes, nodes': Nodes, t: Tree, parent: nat, next: nat, i: nat, k: Tree)
    requires Linked(nodes, t, parent, next) && Distinct(t) && i < |t.kids| && k.p == t.kids[i].p
    requires Linked(nodes', k, t.p, Head(t.kids[i + 1..])) && Distinct(k)
    requires Ptrs(k) !! Ptrs(t) - Ptrs(t.kids[i])
    requires forall q :: q in Ptrs(t) - Ptrs(t.kids[i]) && q in nodes ==> q in nodes' && nodes'[q] == nodes[q]
    ensures var r := t.(kids := t.kids[i := k]);
      && Linked(nodes', r, parent, next) && Distinct(r)
      && Ptrs(r) == Ptrs(t) - Ptrs(t.kids[i]) + Ptrs(k)
  {
    ForestPtrsAt(t.kids, i);
    ForestReplaced(nodes, nodes', t.kids, t.p, i, k);
    assert Head(t.kids[i := k]) == Head(t.kids);
  }

  // Changing the links only below one node changes the tree only there.
  lemma {:induction false} PutLinked(nodes: Nodes, nodes': Nodes, t: Tree, parent: nat, next: nat, pos: seq<nat>,
                                     u: Tree)
    requires Linked(nodes, t, parent, next) && Distinct(t) && Reaches(t, pos)
    requires u.p == Sub(t, pos).p && u.p in nodes && Linked(nodes', u, nodes[u.p].parent, nodes[u.p].next)
      && Distinct(u)
    requires Ptrs(u) !! Ptrs(t) - Ptrs(Sub(t, pos))
    requires forall q :: q in Ptrs(t) - Ptrs(Sub(t, pos)) && q in nodes ==> q in nodes' && nodes'[q] == nodes[q]
    ensures Linked(nodes', PutAt(t, pos, u), parent, next) && Distinct(PutAt(t, pos, u)) && PutAt(t, pos, u).p == t.p
    ensures Ptrs(PutAt(t, pos, u)) == Ptrs(t) - Ptrs(Sub(t, pos)) + Ptrs(u)
    decreases |pos|
  {
    if pos != [] {
      var i, k := pos[0], t.kids[pos[0]];
      KidIn(nodes, t, parent, next, i);
      SubIn(k, pos[1..]);
      PutLinked(nodes, nodes', k, t.p, Head(t.kids[i + 1..]), pos[1..], u);
      KidReplaced(nodes, nodes', t, parent, next, i, PutAt(k, pos[1..], u));
    }
  }

  lemma KidIn(nodes: Nodes, t: Tree, parent: nat, next: nat, i: nat)
    requires Linked(nodes, t, parent, next) && Distinct(t) && i < |t.kids|
    ensures Linked(nodes, t.kids[i], t.p, Head(t.kids[i + 1..])) && Distinct(t.kids[i])
    ensures Ptrs(t.kids[i]) <= Ptrs(t)
  {
    ForestAt(nodes, t.kids, t.p, i);
    ForestApart(t.kids, i);
    ForestPtrsAt(t.kids, i);
  }
}
