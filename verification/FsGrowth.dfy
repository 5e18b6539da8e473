// The steps of fs_create, fs_mkdir_p and fs_write on values.
module FsGrowth {
  import opened Memory
  import opened BlockList
  import opened HeapClient
  import opened FsTree
  import opened FsPaths
  import opened FsRemoval

  const SIZEOF_NODE: nat := 92

  // The tree with a new first child at pos.
  function Grown(tree: Tree, pos: seq<nat>, n: nat): Tree
    requires Reaches(tree, pos)
  {
    var d := Sub(tree, pos);
    PutAt(tree, pos, d.(kids := [Tree(n, [])] + d.kids))
  }

  // fs_create has put the new node n at the head of dir's children.
  ghost predicate Created(nodes: Nodes, tree: Tree, pos: seq<nat>, n: nat, name: string, isDir: bool, nodes': Nodes,
                          tree': Tree) {
    && Reaches(tree, pos) && Sub(tree, pos).p in nodes && nodes[Sub(tree, pos).p].isDir && n !in nodes && n != NULL
    && var d := Sub(tree, pos);
      && nodes' == nodes[d.p := nodes[d.p].(children := n)]
                        [n := Node(Cut63(name), isDir, d.p, NULL, Head(d.kids), NULL, 0, 0)]
      && tree' == Grown(tree, pos, n)
  }

  lemma CreatedShape(nodes: Nodes, tree: Tree, pos: seq<nat>, n: nat, name: string, isDir: bool, nodes': Nodes,
                     tree': Tree)
    requires Shape(nodes, tree, tree.p) && Created(nodes, tree, pos, n, name, isDir, nodes', tree')
    ensures Shape(nodes', tree', tree.p)
  {
    var d := Sub(tree, pos);
    var u := d.(kids := [Tree(n, [])] + d.kids);
    SubLinked(nodes, tree, NULL, NULL, pos);
    SubIn(tree, pos);
    NewFirstLinked(nodes, nodes', d, nodes[d.p].parent, nodes[d.p].next, n);
    PutLinked(nodes, nodes', tree, NULL, NULL, pos, u);
  }

  lemma {:induction false} NewFirstLinked(nodes: Nodes, nodes': Nodes, d: Tree, parent: nat, next: nat, n: nat)
    requires Linked(nodes, d, parent, next) && Distinct(d) && nodes[d.p].isDir && n !in nodes && n != NULL
      && n in nodes'
    requires nodes' == nodes[d.p := nodes[d.p].(children := n)][n := nodes'[n]]
    requires nodes'[n].parent == d.p && nodes'[n].next == Head(d.kids) && nodes'[n].children == NULL
    ensures var u := d.(kids := [Tree(n, [])] + d.kids);
      Linked(nodes', u, parent, next) && Distinct(u) && Ptrs(u) == Ptrs(d) + {n}
  {
    var kids := [Tree(n, [])] + d.kids;
    ForestInMap(nodes, d.kids, d.p);
    ForestFrame(nodes, nodes', d.kids, d.p);
    assert kids[1..] == d.kids;
    assert ForestPtrs([]) == {};
    assert Ptrs(Tree(n, [])) == {n};
    assert kids[0] == Tree(n, []);
    assert Linked(nodes', kids[0], d.p, Head(kids[1..]));
    assert ForestLinked(nodes', kids, d.p) && ForestDistinct(kids);
  }

  // Every node is still there: same name, kind, parent, and the same bytes if it is a file.
  ghost predicate Extends(nodes: Nodes, m: seq<byte>, nodes': Nodes, m': seq<byte>) {
    forall q :: q in nodes ==>
      q in nodes' && SameNode(nodes'[q], nodes[q]) && Contents(m', nodes'[q]) == Contents(m, nodes[q])
  }

  lemma ExtendsThen(nodes: Nodes, m: seq<byte>, n1: Nodes, m1: seq<byte>, n2: Nodes, m2: seq<byte>)
    requires Extends(nodes, m, n1, m1) && Extends(n1, m1, n2, m2)
    ensures Extends(nodes, m, n2, m2)
  {
    forall q | q in nodes ensures q in n2 && SameNode(n2[q], nodes[q]) && Contents(m2, n2[q]) == Contents(m, nodes[q]) {
      assert SameNode(n1[q], nodes[q]);
    }
  }

  lemma ExtendsSelf(nodes: Nodes, m: seq<byte>)
    ensures Extends(nodes, m, nodes, m)
  {
  }

  lemma CreatedExtends(nodes: Nodes, tree: Tree, pos: seq<nat>, n: nat, name: string, isDir: bool, nodes': Nodes,
                       tree': Tree, rooms: map<nat, nat>, m: seq<byte>, m': seq<byte>)
    requires Created(nodes, tree, pos, n, name, isDir, nodes', tree') && Backed(nodes, rooms) && SameBytes(m, m', rooms)
    requires forall p :: p in rooms ==> p + rooms[p] <= |m|
    ensures Extends(nodes, m, nodes', m')
  {
    KeepsContents(nodes, nodes, rooms, m, m');
    forall q | q in nodes ensures q in nodes' && SameNode(nodes'[q], nodes[q]) {}
  }

  // The three stores of fs_create that hang the new node n under d.
  function Hooked(nodes: Nodes, n: nat, d: nat): Nodes
    requires n in nodes && d in nodes
  {
    var n2 := nodes[n := nodes[n].(parent := d, next := nodes[d].children)];
    n2[d := n2[d].(children := n)]
  }

  // The three stores of fs_create after new_node.
  lemma {:induction false} LinkDone(nodes: Nodes, tree: Tree, pos: seq<nat>, n: nat, name: string, isDir: bool,
                                    n1: Nodes, nodes': Nodes, rooms: map<nat, nat>)
    requires Shape(nodes, tree, tree.p) && Reaches(tree, pos) && n !in nodes && n != NULL && Sub(tree, pos).p in nodes
    requires nodes[Sub(tree, pos).p].isDir
    requires n1 == nodes[n := Node(Cut63(name), isDir, NULL, NULL, NULL, NULL, 0, 0)] && Backed(n1, rooms)
    requires nodes' == Hooked(n1, n, Sub(tree, pos).p)
    ensures Created(nodes, tree, pos, n, name, isDir, nodes', Grown(tree, pos, n))
    ensures Shape(nodes', Grown(tree, pos, n), tree.p) && Backed(nodes', rooms)
  {
    LinkStores(nodes, tree, pos, n, name, isDir, n1, nodes');
    CreatedShape(nodes, tree, pos, n, name, isDir, nodes', Grown(tree, pos, n));
    BackedLike(n1, nodes', rooms);
  }

  lemma {:induction false} LinkStores(nodes: Nodes, tree: Tree, pos: seq<nat>, n: nat, name: string, isDir: bool,
                                      n1: Nodes, nodes': Nodes)
    requires Shape(nodes, tree, tree.p) && Reaches(tree, pos) && n !in nodes && n != NULL && Sub(tree, pos).p in nodes
    requires nodes[Sub(tree, pos).p].isDir
    requires n1 == nodes[n := Node(Cut63(name), isDir, NULL, NULL, NULL, NULL, 0, 0)]
    requires nodes' == Hooked(n1, n, Sub(tree, pos).p)
    ensures Created(nodes, tree, pos, n, name, isDir, nodes', Grown(tree, pos, n))
    ensures nodes'.Keys == n1.Keys && forall q :: q in n1 ==>
      nodes'[q].data == n1[q].data && nodes'[q].size == n1[q].size && nodes'[q].cap == n1[q].cap
  {
    SubLinked(nodes, tree, NULL, NULL, pos);
  }

  // Names stay apart unless some sibling already has the name cut to 63 characters, which can
  // happen only for a longer name: the search before creating compares the whole name.
  lemma {:induction false} CreateKeepsNamesIff(nodes: Nodes, tree: Tree, pos: seq<nat>, n: nat, name: string,
                                               isDir: bool, nodes': Nodes, tree': Tree)
    requires Shape(nodes, tree, tree.p) && NamesApart(nodes, tree)
      && Created(nodes, tree, pos, n, name, isDir, nodes', tree')
    requires KidNamed(nodes, Sub(tree, pos).kids, name) == |Sub(tree, pos).kids|
    ensures NamesApart(nodes', tree') <==>
      (|name| < NAME_MAX || KidNamed(nodes, Sub(tree, pos).kids, name[..NAME_MAX - 1]) == |Sub(tree, pos).kids|)
  {
    forall q | q in Ptrs(tree) ensures NameOf(nodes', q) == NameOf(nodes, q) {}
    NewChildNames(nodes, nodes', tree, pos, n);
  }

  // A 64-character name created twice in an empty directory gives two entries with one name.
  lemma {:induction false} LongNameTwice(nodes: Nodes, tree: Tree, pos: seq<nat>, n: nat, name: string, nodes': Nodes,
                                         tree': Tree, n2: nat, nodes2: Nodes, tree2: Tree)
    requires Shape(nodes, tree, tree.p) && NamesApart(nodes, tree) && |name| == NAME_MAX
    requires Created(nodes, tree, pos, n, name, false, nodes', tree') && Sub(tree, pos).kids == []
    requires Created(nodes', tree', pos, n2, name, false, nodes2, tree2)
    ensures Sub(tree', pos).kids == [Tree(n, [])] && KidNamed(nodes', Sub(tree', pos).kids, name) == 1
    ensures !NamesApart(nodes2, tree2)
  {
    CreatedShape(nodes, tree, pos, n, name, false, nodes', tree');
    CreateKeepsNamesIff(nodes, tree, pos, n, name, false, nodes', tree');
    SubPut(tree, pos, Sub(tree, pos).(kids := [Tree(n, [])] + Sub(tree, pos).kids));
    assert Sub(tree', pos).kids == [Tree(n, [])];
    assert NameOf(nodes', n) == name[..NAME_MAX - 1] != name;
    CreateKeepsNamesIff(nodes', tree', pos, n2, name, false, nodes2, tree2);
  }

  lemma {:induction false} SubPut(t: Tree, pos: seq<nat>, u: Tree)
    requires Reaches(t, pos)
    ensures Reaches(PutAt(t, pos, u), pos) && Sub(PutAt(t, pos, u), pos) == u
    decreases |pos|
  {
    if pos != [] { SubPut(t.kids[pos[0]], pos[1..], u); }
  }

  // ---- Going down without "." and "..", as fs_mkdir_p does ----

  function Descend(nodes: Nodes, t: Tree, cs: seq<string>): (s: Spot)
    ensures s.At? ==> Reaches(t, s.pos) && |s.pos| == |cs|
    decreases |cs|
  {
    if cs == [] then At([])
    else
      var k := KidNamed(nodes, t.kids, cs[0]);
      if k == |t.kids| then Nowhere
      else
        var s := Descend(nodes, t.kids[k], cs[1..]);
        if s.At? then At([k] + s.pos) else Nowhere
  }

  lemma {:induction false} Below(t: Tree, k: nat, rest: seq<nat>)
    requires k < |t.kids| && Reaches(t.kids[k], rest)
    ensures Reaches(t, [k] + rest) && Sub(t, [k] + rest) == Sub(t.kids[k], rest)
  {
    assert ([k] + rest)[1..] == rest;
  }

  lemma {:induction false} DescendOne(nodes: Nodes, t: Tree, cs: seq<string>, c: string)
    requires Descend(nodes, t, cs).At?
    ensures var pos := Descend(nodes, t, cs).pos; var k := KidNamed(nodes, Sub(t, pos).kids, c);
      Descend(nodes, t, cs + [c]) == if k == |Sub(t, pos).kids| then Nowhere else At(pos + [k])
    decreases |cs|
  {
    if cs == [] {
      assert cs + [c] == [c] && [c][1..] == [];
    } else {
      var all, k := cs + [c], KidNamed(nodes, t.kids, cs[0]);
      var rest := Descend(nodes, t.kids[k], cs[1..]).pos;
      assert all[0] == cs[0] && all[1..] == cs[1..] + [c];
      DescendOne(nodes, t.kids[k], cs[1..], c);
      Below(t, k, rest);
      var j := KidNamed(nodes, Sub(t.kids[k], rest).kids, c);
      assert ([k] + rest) + [j] == [k] + (rest + [j]);
    }
  }

  // Changing the tree at the node reached does not change the way there.
  lemma {:induction false} DescendPut(nodes: Nodes, nodes': Nodes, t: Tree, pos: seq<nat>, u: Tree, cs: seq<string>)
    requires Descend(nodes, t, cs) == At(pos) && u.p == Sub(t, pos).p
    requires forall q :: q in Ptrs(t) ==> NameOf(nodes', q) == NameOf(nodes, q)
    ensures Descend(nodes', PutAt(t, pos, u), cs) == At(pos)
    decreases |cs|
  {
    if cs != [] {
      var k := pos[0];
      var t' := PutAt(t, pos, u);
      PtrsIn(t.kids, k);
      DescendPut(nodes, nodes', t.kids[k], pos[1..], u, cs[1..]);
      PutRoot(t.kids[k], pos[1..], u);
      forall j | 0 <= j < |t.kids|
        ensures NameOf(nodes', t'.kids[j].p) == NameOf(nodes, t.kids[j].p)
      {
        PtrsIn(t.kids, j);
      }
      var k' := KidNamed(nodes', t'.kids, cs[0]);
      assert NameOf(nodes', t'.kids[k].p) == cs[0];
      assert k' == k;
      assert pos == [k] + pos[1..];
    }
  }

  lemma OneMore(pre: seq<nat>, k: nat, post: seq<nat>)
    ensures (pre + [k]) + post == pre + ([k] + post)
  {
  }

  // The components lead to node q.
  ghost predicate Leads(nodes: Nodes, t: Tree, cs: seq<string>, q: nat) {
    var s := Descend(nodes, t, cs);
    s.At? && Sub(t, s.pos).p == q
  }

  // Below the directory that `front` leads to there is no c, and none can be made: it is a file,
  // or the heap has no room for a node.
  ghost predicate Stuck(nodes: Nodes, t: Tree, bs: seq<Block>, front: seq<string>, c: string) {
    var s := Descend(nodes, t, front);
    s.At? &&
    var d := Sub(t, s.pos);
    d.p in nodes && KidNamed(nodes, d.kids, c) == |d.kids| && (nodes[d.p].isDir ==> Exhausted(bs, SIZEOF_NODE))
  }

  ghost predicate StuckIn(nodes: Nodes, t: Tree, bs: seq<Block>, cs: seq<string>) {
    exists front, c :: Stuck(nodes, t, bs, front, c) && front + [c] <= cs
  }

  // No room for len bytes at offset off and the terminator: the file's buffer is too small, and
  // krealloc has no larger one.
  ghost predicate NoSpace(n: Node, bs: seq<Block>, off: nat, len: nat) {
    n.cap < off + len + 1 && CannotGrow(bs, n.data, off + len + 1)
  }

  lemma NoSpaceIs(n: Node, bs: seq<Block>, off: nat, len: nat, need: nat)
    requires need == off + len + 1
    ensures NoSpace(n, bs, off, len) <==> n.cap < need && CannotGrow(bs, n.data, need)
  {
  }

  // fs_create under dir has nothing to return.
  ghost predicate CreateFails(nodes: Nodes, t: Tree, bs: seq<Block>, dir: nat, name: string)
    requires dir == NULL || (dir in nodes && dir in Ptrs(t))
  {
    dir == NULL || !nodes[dir].isDir ||
    (var kids := Sub(t, Where(t, dir)).kids; KidNamed(nodes, kids, name) == |kids| && Exhausted(bs, SIZEOF_NODE))
  }

  function CutAll(cs: seq<string>): seq<string> {
    seq(|cs|, i requires 0 <= i < |cs| => Cut63(cs[i]))
  }

  lemma CutAllMore(cs: seq<string>, c: string, rest: seq<string>)
    ensures CutAll(cs + [c]) == CutAll(cs) + [Cut63(c)] && cs + ([c] + rest) == (cs + [c]) + rest
  {
  }

  lemma CutAllSplit(a: seq<string>, b: seq<string>)
    ensures CutAll(a + b) == CutAll(a) + CutAll(b)
  {
  }

  lemma StuckHere(nodes: Nodes, t: Tree, bs: seq<Block>, cs: seq<string>, c: string, rest: seq<string>)
    requires Stuck(nodes, t, bs, CutAll(cs), Cut63(c))
    ensures StuckIn(nodes, t, bs, CutAll(cs + ([c] + rest)))
  {
    assert CutAll(cs) + [Cut63(c)] <= CutAll(cs + ([c] + rest));
  }

  lemma CreateStuck(nodes: Nodes, t: Tree, bs: seq<Block>, cs: seq<string>, dir: nat, name: string)
    requires Shape(nodes, t, t.p) && dir in nodes && CreateFails(nodes, t, bs, dir, name) && Leads(nodes, t, cs, dir)
    ensures Stuck(nodes, t, bs, cs, name)
  {
    var pos := Descend(nodes, t, cs).pos;
    PositionsDiffer(t, pos, Where(t, dir));
    ParentNotNull(nodes, t, pos);
    if !nodes[dir].isDir {
      SubLinked(nodes, t, NULL, NULL, pos);
    }
  }

  // An entry just made is the one the longer path leads to.
  lemma {:induction false} DescendCreated(nodes: Nodes, tree: Tree, pos: seq<nat>, n: nat, name: string, isDir: bool,
                                          nodes': Nodes, tree': Tree, cs: seq<string>)
    requires Shape(nodes, tree, tree.p) && Created(nodes, tree, pos, n, name, isDir, nodes', tree')
    requires Descend(nodes, tree, cs) == At(pos)
    ensures Descend(nodes', tree', cs) == At(pos) && Leads(nodes', tree', cs + [Cut63(name)], n)
  {
    var d := Sub(tree, pos);
    var u := d.(kids := [Tree(n, [])] + d.kids);
    forall q | q in Ptrs(tree) ensures NameOf(nodes', q) == NameOf(nodes, q) {}
    DescendPut(nodes, nodes', tree, pos, u, cs);
    SubPut(tree, pos, u);
    DescendOne(nodes', tree', cs, Cut63(name));
    KidNamedIs(nodes', u.kids, Cut63(name), 0);
    KidReaches(tree', pos, 0);
  }

  // ---- What fs_mkdir_p makes ----

  // q is one of the nodes on the way that cs describes.
  ghost predicate OnWay(nodes: Nodes, t: Tree, cs: seq<string>, q: nat) {
    exists k :: 0 <= k <= |cs| && Leads(nodes, t, cs[..k], q)
  }

  // Every node that is not one of n0 is on that way.
  ghost predicate MadeOn(n0: Nodes, nodes: Nodes, t: Tree, cs: seq<string>) {
    forall q {:trigger q in nodes} :: q in nodes && q !in n0 ==> OnWay(nodes, t, cs, q)
  }

  // What holds between two rounds of fs_mkdir_p: n0 and m0 are the nodes and the memory at its
  // start, apart says whether names were apart then, and cs are the components done.
  ghost predicate Grew(n0: Nodes, m0: seq<byte>, apart: bool, nodes: Nodes, m: seq<byte>, t: Tree, cs: seq<string>) {
    Extends(n0, m0, nodes, m) && (apart ==> NamesApart(nodes, t)) && MadeOn(n0, nodes, t, cs)
  }

  lemma {:induction false} GrewNot(nodes: Nodes, m: seq<byte>, t: Tree)
    ensures CutAll([]) == [] && Grew(nodes, m, NamesApart(nodes, t), nodes, m, t, CutAll([]))
      && Leads(nodes, t, CutAll([]), t.p)
  {
  }

  lemma {:induction false} DescendPrefix(nodes: Nodes, t: Tree, cs: seq<string>, k: nat)
    requires Descend(nodes, t, cs).At? && k <= |cs|
    ensures var pos := Descend(nodes, t, cs).pos; Descend(nodes, t, cs[..k]) == At(pos[..k])
    decreases k
  {
    if k > 0 {
      var i := KidNamed(nodes, t.kids, cs[0]);
      DescendPrefix(nodes, t.kids[i], cs[1..], k - 1);
      assert cs[..k][1..] == cs[1..][..k - 1];
      var pos := Descend(nodes, t, cs).pos;
      assert pos[..k] == [i] + pos[1..][..k - 1];
    }
  }

  // Replacing the tree at pos leaves the roots above it.
  lemma {:induction false} PutAbove(t: Tree, pos: seq<nat>, u: Tree, k: nat)
    requires Reaches(t, pos) && u.p == Sub(t, pos).p && k <= |pos|
    ensures Reaches(t, pos[..k]) && Reaches(PutAt(t, pos, u), pos[..k])
    ensures Sub(PutAt(t, pos, u), pos[..k]).p == Sub(t, pos[..k]).p
    decreases k
  {
    if k > 0 {
      assert pos[..k][1..] == pos[1..][..k - 1];
      PutAbove(t.kids[pos[0]], pos[1..], u, k - 1);
    } else {
      PutRoot(t, pos, u);
    }
  }

  // Making an entry below the node cs leads to leaves the way there.
  lemma {:induction false} WayStays(nodes: Nodes, tree: Tree, pos: seq<nat>, n: nat, name: string, isDir: bool,
                                    nodes': Nodes, tree': Tree, cs: seq<string>, k: nat, q: nat)
    requires Shape(nodes, tree, tree.p) && Created(nodes, tree, pos, n, name, isDir, nodes', tree')
    requires Descend(nodes, tree, cs) == At(pos) && k <= |cs| && Leads(nodes, tree, cs[..k], q)
    ensures Leads(nodes', tree', cs[..k], q)
  {
    var d := Sub(tree, pos);
    DescendCreated(nodes, tree, pos, n, name, isDir, nodes', tree', cs);
    DescendPrefix(nodes, tree, cs, k);
    DescendPrefix(nodes', tree', cs, k);
    PutAbove(tree, pos, d.(kids := [Tree(n, [])] + d.kids), k);
  }

  lemma {:induction false} MadeLonger(n0: Nodes, nodes: Nodes, t: Tree, cs: seq<string>, more: seq<string>)
    requires MadeOn(n0, nodes, t, cs)
    ensures MadeOn(n0, nodes, t, cs + more)
  {
    forall q | q in nodes && q !in n0 ensures OnWay(nodes, t, cs + more, q) {
      var k :| 0 <= k <= |cs| && Leads(nodes, t, cs[..k], q);
      assert (cs + more)[..k] == cs[..k];
    }
  }

  lemma {:induction false} MadeMore(n0: Nodes, nodes: Nodes, tree: Tree, pos: seq<nat>, n: nat, name: string,
                                    isDir: bool, nodes': Nodes, tree': Tree, cs: seq<string>)
    requires Shape(nodes, tree, tree.p) && Created(nodes, tree, pos, n, name, isDir, nodes', tree')
    requires Descend(nodes, tree, cs) == At(pos) && MadeOn(n0, nodes, tree, cs)
    ensures MadeOn(n0, nodes', tree', cs + [Cut63(name)])
  {
    var all := cs + [Cut63(name)];
    DescendCreated(nodes, tree, pos, n, name, isDir, nodes', tree', cs);
    assert all[..|all|] == all;
    forall q | q in nodes' && q !in n0 ensures OnWay(nodes', tree', all, q) {
      if q == n {
        assert Leads(nodes', tree', all[..|all|], q);
      } else {
        assert q in nodes;
        var k :| 0 <= k <= |cs| && Leads(nodes, tree, cs[..k], q);
        WayStays(nodes, tree, pos, n, name, isDir, nodes', tree', cs, k, q);
        assert all[..k] == cs[..k];
      }
    }
  }

  lemma {:induction false} DescendFound(nodes: Nodes, tree: Tree, pos: seq<nat>, name: string, cs: seq<string>)
    requires Descend(nodes, tree, cs) == At(pos) && KidNamed(nodes, Sub(tree, pos).kids, name) < |Sub(tree, pos).kids|
    ensures var k := KidNamed(nodes, Sub(tree, pos).kids, name);
      Leads(nodes, tree, cs + [name], Sub(tree, pos).kids[k].p)
  {
    DescendOne(nodes, tree, cs, name);
    KidReaches(tree, pos, KidNamed(nodes, Sub(tree, pos).kids, name));
  }

  // r is the entry of this name, as far as it fits, below the directory cs leads to.
  ghost predicate Filed(nodes: Nodes, t: Tree, cs: seq<string>, name: string, r: nat) {
    Leads(nodes, t, cs + [Cut63(name)], r)
  }

  // Where fs_create's entry, found or made, can be reached.
  lemma {:induction false} EntryFiled(nodes: Nodes, tree: Tree, pos: seq<nat>, r: nat, name: string,
                                      nodes': Nodes, tree': Tree, cs: seq<string>)
    requires Shape(nodes, tree, tree.p) && Descend(nodes, tree, cs) == At(pos)
    requires var kids := Sub(tree, pos).kids; var k := KidNamed(nodes, kids, name);
      if k < |kids| then r == kids[k].p && nodes' == nodes && tree' == tree
      else Created(nodes, tree, pos, r, name, false, nodes', tree')
    ensures r in nodes' && Filed(nodes', tree', cs, name, r)
    ensures NamesApart(nodes, tree) && |name| < NAME_MAX ==> NamesApart(nodes', tree')
  {
    var k := KidNamed(nodes, Sub(tree, pos).kids, name);
    if k < |Sub(tree, pos).kids| {
      DescendFound(nodes, tree, pos, name, cs);
      KidReaches(tree, pos, k);
      SubIn(tree, pos + [k]);
    } else {
      DescendCreated(nodes, tree, pos, r, name, false, nodes', tree', cs);
      if NamesApart(nodes, tree) { CreateKeepsNamesIff(nodes, tree, pos, r, name, false, nodes', tree'); }
    }
  }

  lemma FiledFrame(nodes: Nodes, nodes': Nodes, t: Tree, cs: seq<string>, name: string, r: nat)
    requires Filed(nodes, t, cs, name, r) && forall q :: NameOf(nodes', q) == NameOf(nodes, q)
    ensures Filed(nodes', t, cs, name, r)
  {
    DescendFrame(nodes, nodes', t, cs + [Cut63(name)]);
  }

  lemma {:induction false} DescendFrame(nodes: Nodes, nodes': Nodes, t: Tree, cs: seq<string>)
    requires forall q :: NameOf(nodes', q) == NameOf(nodes, q)
    ensures Descend(nodes', t, cs) == Descend(nodes, t, cs)
    decreases |cs|
  {
    if cs != [] {
      var k := KidNamed(nodes, t.kids, cs[0]);
      KidNamedIs(nodes', t.kids, cs[0], k);
      if k < |t.kids| { DescendFrame(nodes, nodes', t.kids[k], cs[1..]); }
    }
  }

  // On components that are neither "." nor "..", fs_resolve goes the same way.
  lemma {:induction false} DescendIsWalk(nodes: Nodes, t: Tree, pre: seq<nat>, cs: seq<string>)
    requires Reaches(t, pre) && forall i :: 0 <= i < |cs| ==> cs[i] != "." && cs[i] != ".."
    ensures var s := Descend(nodes, Sub(t, pre), cs);
      Walk(nodes, t, pre, cs) == if s.At? then At(pre + s.pos) else Nowhere
    decreases |cs|
  {
    if cs == [] {
      assert pre + [] == pre;
    } else {
      var sub := Sub(t, pre);
      var k := KidNamed(nodes, sub.kids, cs[0]);
      assert cs[0] != "." && cs[0] != "..";
      if k < |sub.kids| {
        KidReaches(t, pre, k);
        assert Go(nodes, t, pre, cs[0]) == At(pre + [k]);
        var rest := cs[1..];
        assert forall i :: 0 <= i < |rest| ==> rest[i] == cs[i + 1];
        DescendIsWalk(nodes, t, pre + [k], rest);
        var s := Descend(nodes, sub.kids[k], rest);
        if s.At? { OneMore(pre, k, s.pos); }
      } else {
        assert Go(nodes, t, pre, cs[0]) == Nowhere;
      }
    }
  }

  lemma {:induction false} DescendNames(nodes: Nodes, t: Tree, cs: seq<string>)
    requires Descend(nodes, t, cs).At?
    ensures Names(nodes, t, Descend(nodes, t, cs).pos) == cs
    decreases |cs|
  {
    if cs != [] {
      var k := KidNamed(nodes, t.kids, cs[0]);
      var rest := Descend(nodes, t.kids[k], cs[1..]).pos;
      assert ([k] + rest)[1..] == rest;
      DescendNames(nodes, t.kids[k], cs[1..]);
    }
  }

  // A component that fs_mkdir_p stores as it stands and fs_resolve takes for a name.
  ghost predicate Short(name: string) {
    Spellable(name) && |name| < NAME_MAX
  }

  ghost predicate AllShort(cs: seq<string>) {
    forall i :: 0 <= i < |cs| ==> Short(cs[i])
  }

  // A path leads to a node only if it can be found.
  lemma {:induction false} LedFindable(nodes: Nodes, t: Tree, pos: seq<nat>, path: string)
    requires Distinct(t) && Reaches(t, pos)
    ensures var s := Walk(nodes, t, [], Comps(path));
      s.At? && Sub(t, s.pos).p == Sub(t, pos).p ==> Findable(nodes, t, pos)
  {
    CompsPlain(path);
    WalkFinds(nodes, t, [], Comps(path));
    var s := Walk(nodes, t, [], Comps(path));
    if s.At? && Sub(t, s.pos).p == Sub(t, pos).p { PositionsDiffer(t, s.pos, pos); }
  }

  // If fs_resolve follows components to where the same components, as stored, lead down, they were
  // stored as they stand.
  lemma {:induction false} FollowedIsShort(nodes: Nodes, t: Tree, cs: seq<string>, pos: seq<nat>)
    requires Reaches(t, pos) && Findable(nodes, t, pos) && Descend(nodes, t, CutAll(cs)) == At(pos)
    requires Walk(nodes, t, [], cs) == At(pos)
    ensures AllShort(cs)
  {
    DescendNames(nodes, t, CutAll(cs));
    forall i | 0 <= i < |cs| ensures cs[i] != "." && cs[i] != ".." && Spellable(CutAll(cs)[i]) {
      assert CutAll(cs)[i] == Cut63(cs[i]);
    }
    DescendIsWalk(nodes, t, [], cs);
    var p := Descend(nodes, t, cs).pos;
    assert [] + p == p;
    DescendNames(nodes, t, cs);
    SameIsShort(cs);
  }

  lemma SameIsShort(cs: seq<string>)
    requires CutAll(cs) == cs && forall i :: 0 <= i < |cs| ==> Spellable(CutAll(cs)[i])
    ensures AllShort(cs)
  {
    forall i | 0 <= i < |cs| ensures Short(cs[i]) { assert CutAll(cs)[i] == Cut63(cs[i]) == cs[i]; }
  }

  // The components of a path, as stored, lead down to q. fs_resolve follows the path there if and
  // only if all of them are short and can be spelled.
  lemma {:induction false} WayFoundIff(nodes: Nodes, t: Tree, path: string, q: nat)
    requires Shape(nodes, t, t.p) && Leads(nodes, t, CutAll(Comps(path)), q)
    ensures var s := Walk(nodes, t, [], Comps(path)); (s.At? && Sub(t, s.pos).p == q) <==> AllShort(Comps(path))
  {
    var cs := Comps(path);
    var pos, s := Descend(nodes, t, CutAll(cs)).pos, Walk(nodes, t, [], cs);
    if AllShort(cs) {
      assert CutAll(cs) == cs && [] + pos == pos;
      DescendIsWalk(nodes, t, [], cs);
    }
    if s.At? && Sub(t, s.pos).p == q {
      LedFindable(nodes, t, pos, path);
      PositionsDiffer(t, s.pos, pos);
      FollowedIsShort(nodes, t, cs, pos);
    }
  }

  // fs_mkdir_p("..") makes a directory of that name, which fs_resolve does not enter.
  lemma {:induction false} DotDotIsUp(nodes: Nodes, t: Tree, q: nat)
    requires Shape(nodes, t, t.p) && Leads(nodes, t, CutAll(Comps("..")), q)
    ensures Comps("..") == [".."] && Walk(nodes, t, [], Comps("..")) == At([]) && q != t.p
  {
    SpanIs("..", 2);
    assert Comps("..")[1..] == [];
    var pos := Descend(nodes, t, CutAll([".."])).pos;
    if q == t.p { PositionsDiffer(t, pos, []); }
  }

  // A path leads to an entry just made only if its name can be spelled.
  lemma {:induction false} LedSpellable(nodes: Nodes, tree: Tree, pos: seq<nat>, n: nat, name: string, isDir: bool,
                                        nodes': Nodes, tree': Tree, path: string)
    requires Shape(nodes, tree, tree.p) && Created(nodes, tree, pos, n, name, isDir, nodes', tree')
    ensures var s := Walk(nodes', tree', [], Comps(path)); s.At? && Sub(tree', s.pos).p == n ==> Spellable(Cut63(name))
  {
    var d := Sub(tree, pos);
    CreatedShape(nodes, tree, pos, n, name, isDir, nodes', tree');
    SubPut(tree, pos, d.(kids := [Tree(n, [])] + d.kids));
    KidReaches(tree', pos, 0);
    NamesMore(nodes', tree', pos, 0);
    assert Names(nodes', tree', pos + [0])[|pos|] == NameOf(nodes', n) == Cut63(name);
    LedFindable(nodes', tree', pos + [0], path);
  }

  // `mkdir a/b` in a root that is empty: the directory is one level deep, its path is "/a/b", and
  // that leads nowhere.
  lemma {:induction false} SlashNameLost(nodes: Nodes, tree: Tree, n: nat, nodes': Nodes, tree': Tree)
    requires Shape(nodes, tree, tree.p) && tree.kids == [] && Created(nodes, tree, [], n, "a/b", true, nodes', tree')
    ensures NamesApart(nodes', tree') && Reaches(tree', [0]) && Sub(tree', [0]).p == n
    ensures AbsPath(Names(nodes', tree', [0]), 256) == "/a/b" && Walk(nodes', tree', [], Comps("/a/b")) == Nowhere
  {
    assert tree'.kids == [Tree(n, [])] && [0][1..] == [] && Names(nodes', tree', [0]) == ["a/b"];
    assert Join(["a/b"]) == "/" + "a/b" + Join(["a/b"][1..]);
    var s := "/a/b";
    assert s[1..] == "a/b";
    SpanIs("a/b", 1);
    assert Comps(s)[0] == "a";
    assert KidNamed(nodes', tree'.kids, "a") == 1 by { KidNamedIs(nodes', tree'.kids, "a", 1); }
  }

  // ---- File contents ----

  // The buffer of `file` is now at q, with this size and capacity, and no other buffer moved.
  lemma BackedWritten(nodes: Nodes, rooms: map<nat, nat>, file: nat, q: nat, size: nat, cap: nat, nodes': Nodes,
                      rooms': map<nat, nat>)
    requires Backed(nodes, rooms) && file in nodes && q != NULL
    requires nodes' == nodes[file := nodes[file].(data := q, size := size, cap := cap)]
    requires q in rooms' && rooms' == (rooms - {nodes[file].data})[q := rooms'[q]] && size < cap <= rooms'[q]
    requires NULL !in rooms && (q == nodes[file].data || q !in rooms)
    ensures Backed(nodes', rooms')
  {
    assert HasRoom(nodes, rooms, file);
    forall r | r in nodes' ensures r in rooms' && HasRoom(nodes', rooms', r) {
      assert HasRoom(nodes, rooms, r);
      if r != file { assert !Clash(nodes, r, file); }
    }
    forall r, s | r in nodes' && s in nodes' && r != s ensures !Clash(nodes', r, s) {
      assert !Clash(nodes, r, s) && HasRoom(nodes, rooms, r) && HasRoom(nodes, rooms, s);
    }
  }

  // The buffer fields of a node are no links.
  lemma ShapeWritten(nodes: Nodes, tree: Tree, file: nat, n: Node, nodes': Nodes)
    requires Shape(nodes, tree, tree.p) && file in nodes && nodes' == nodes[file := n]
    requires n == nodes[file].(data := n.data, size := n.size, cap := n.cap)
    ensures Shape(nodes', tree, tree.p)
  {
    LinkedLike(nodes, nodes', tree, NULL, NULL);
  }

  // Bytes written behind the buffer of one file change no other file.
  lemma OthersKept(nodes: Nodes, rooms: map<nat, nat>, file: nat, m: seq<byte>, r: seq<byte>)
    requires Backed(nodes, rooms) && file in nodes && SameBytes(m, r, rooms - {nodes[file].data})
    requires forall p :: p in rooms ==> p + rooms[p] <= |m|
    ensures forall q :: q in nodes && q != file ==> Contents(r, nodes[q]) == Contents(m, nodes[q])
  {
    forall q | q in nodes && q != file ensures Contents(r, nodes[q]) == Contents(m, nodes[q]) {
      assert HasRoom(nodes, rooms, q) && !Clash(nodes, q, file);
      ContentsAt(nodes[q], rooms - {nodes[file].data}, m, r);
    }
  }

  // data has been copied to offset off of the buffer p, with a NUL behind it.
  ghost predicate CopiedIn(m: seq<byte>, r: seq<byte>, rooms: map<nat, nat>, p: nat, off: nat, data: seq<byte>) {
    && SameBytes(m, r, rooms - {p}) && p + off + |data| < |m|
    && r[p..p + off + |data|] == m[p..p + off] + data && r[p + off + |data|] == 0
  }

  lemma TwoStores(m: seq<byte>, m1: seq<byte>, r: seq<byte>, rooms: map<nat, nat>, p: nat, off: nat, data: seq<byte>)
    requires SameBytes(m, m1, rooms - {p}) && SameBytes(m1, r, rooms - {p}) && p + off + |data| + 1 <= |m|
    requires m1 == Patch(m, p + off, data) && r == Patch(m1, p + (off + |data|), [0])
    ensures CopiedIn(m, r, rooms, p, off, data)
  {
    SameBytesThen(m, m1, r, rooms - {p});
  }

  lemma TextDone(nodes: Nodes, tree: Tree, rooms: map<nat, nat>, m: seq<byte>, file: nat, off: nat, data: seq<byte>,
                 r: seq<byte>, nodes': Nodes)
    requires Shape(nodes, tree, tree.p) && Backed(nodes, rooms) && file in nodes && nodes[file].data != NULL
      && NULL !in rooms
    requires off <= nodes[file].size && off + |data| < nodes[file].cap
    requires forall p :: p in rooms ==> p + rooms[p] <= |m|
    requires CopiedIn(m, r, rooms, nodes[file].data, off, data)
    requires nodes' == nodes[file := nodes[file].(size := off + |data|)]
    ensures Shape(nodes', tree, tree.p) && Backed(nodes', rooms) && off <= |Contents(m, nodes[file])|
    ensures Refiled(nodes, m, nodes', r, file, Contents(m, nodes[file])[..off] + data) && Terminated(r, nodes'[file])
  {
    StoredText(nodes, rooms, m, file, off, data, r, nodes');
    ShapeWritten(nodes, tree, file, nodes'[file], nodes');
  }

  // krealloc has given the file of node n a larger buffer.
  ghost predicate Regrown(n: Node, rooms: map<nat, nat>, m: seq<byte>, q: nat, cap: nat, rooms': map<nat, nat>,
                          m': seq<byte>) {
    q != NULL && NULL !in rooms && n.cap < cap && Enlarged(n.data, cap, rooms, m, q, rooms', m')
  }

  lemma RegrownBacked(nodes: Nodes, rooms: map<nat, nat>, m: seq<byte>, file: nat, q: nat, cap: nat,
                      nodes': Nodes, rooms': map<nat, nat>, m': seq<byte>)
    requires Backed(nodes, rooms) && file in nodes && Regrown(nodes[file], rooms, m, q, cap, rooms', m')
    requires nodes' == nodes[file := nodes[file].(data := q, cap := cap)]
    ensures Backed(nodes', rooms')
  {
    assert HasRoom(nodes, rooms, file);
    BackedWritten(nodes, rooms, file, q, nodes[file].size, cap, nodes', rooms');
  }

  lemma Front(m: seq<byte>, a: nat, n: nat, k: nat)
    requires a + n <= |m| && k <= n
    ensures m[a..a + n][..k] == m[a..a + k]
  {
  }

  // Every file reads as before.
  lemma RegrownReads(nodes: Nodes, rooms: map<nat, nat>, m: seq<byte>, file: nat, q: nat, cap: nat,
                     nodes': Nodes, rooms': map<nat, nat>, m': seq<byte>)
    requires Backed(nodes, rooms) && file in nodes && Regrown(nodes[file], rooms, m, q, cap, rooms', m')
    requires nodes' == nodes[file := nodes[file].(data := q, cap := cap)]
    requires forall p :: p in rooms ==> p + rooms[p] <= |m|
    ensures Refiled(nodes, m, nodes', m', file, Contents(m, nodes[file]))
  {
    var n := nodes[file];
    assert HasRoom(nodes, rooms, file);
    OthersKept(nodes, rooms, file, m, m');
    if n.data != NULL {
      Front(m, n.data, rooms[n.data], n.size);
      Front(m', q, rooms[n.data], n.size);
    }
  }

  // Bytes stored in the buffer of `file` from offset off on, with a NUL behind them.
  lemma StoredText(nodes: Nodes, rooms: map<nat, nat>, m: seq<byte>, file: nat, off: nat, data: seq<byte>,
                   r: seq<byte>, nodes': Nodes)
    requires Backed(nodes, rooms) && file in nodes && nodes[file].data != NULL && NULL !in rooms
    requires off <= nodes[file].size && off + |data| < nodes[file].cap
    requires forall p :: p in rooms ==> p + rooms[p] <= |m|
    requires CopiedIn(m, r, rooms, nodes[file].data, off, data)
    requires nodes' == nodes[file := nodes[file].(size := off + |data|)]
    ensures Backed(nodes', rooms) && off <= |Contents(m, nodes[file])|
    ensures Refiled(nodes, m, nodes', r, file, Contents(m, nodes[file])[..off] + data) && Terminated(r, nodes'[file])
  {
    var p := nodes[file].data;
    assert HasRoom(nodes, rooms, file);
    BackedWritten(nodes, rooms, file, p, off + |data|, nodes[file].cap, nodes', rooms);
    assert m[p..p + nodes[file].size][..off] == m[p..p + off];
    OthersKept(nodes, rooms, file, m, r);
  }

  // `file` now reads text; every other node, and every other file's text, is as it was.
  ghost predicate Refiled(nodes: Nodes, m: seq<byte>, nodes': Nodes, m': seq<byte>, file: nat, text: seq<byte>) {
    && file in nodes && nodes'.Keys == nodes.Keys
    && nodes'[file] == nodes[file].(data := nodes'[file].data, size := nodes'[file].size, cap := nodes'[file].cap)
    && Contents(m', nodes'[file]) == text
    && forall q :: q in nodes && q != file ==> nodes'[q] == nodes[q] && Contents(m', nodes'[q]) == Contents(m, nodes[q])
  }

  lemma RefiledThen(nodes: Nodes, m: seq<byte>, n1: Nodes, m1: seq<byte>, n2: Nodes, m2: seq<byte>,
                    file: nat, text1: seq<byte>, text2: seq<byte>)
    requires Refiled(nodes, m, n1, m1, file, text1) && Refiled(n1, m1, n2, m2, file, text2)
    ensures Refiled(nodes, m, n2, m2, file, text2)
  {
  }

  // Behind the contents stands a NUL.
  ghost predicate Terminated(m: seq<byte>, n: Node) {
    n.data != NULL && n.data + n.size < |m| && m[n.data + n.size] == 0
  }

  ghost predicate Written(nodes: Nodes, m: seq<byte>, nodes': Nodes, m': seq<byte>, file: nat, text: seq<byte>) {
    Refiled(nodes, m, nodes', m', file, text) && file in nodes' && Terminated(m', nodes'[file])
  }

  // The file r reads text.
  ghost predicate Reads(nodes: Nodes, m: seq<byte>, r: nat, text: seq<byte>) {
    r in nodes && !nodes[r].isDir && Contents(m, nodes[r]) == text && Terminated(m, nodes[r])
  }

  // Why fs_put stored nothing: no directory, or no file in it.
  ghost predicate PutStuck(nodes: Nodes, t: Tree, bs: seq<Block>, cs: seq<string>, name: string) {
    StuckIn(nodes, t, bs, cs) || Stuck(nodes, t, bs, cs, name)
  }

  lemma {:induction false} NamesWithout(nodes: Nodes, up: Tree, i: nat)
    requires NamesApart(nodes, up) && i < |up.kids|
    ensures NamesApart(nodes, up.(kids := Without(up.kids, i)))
  {
    var kids := Without(up.kids, i);
    assert forall j :: 0 <= j < |kids| ==> kids[j] == up.kids[if j < i then j else j + 1];
  }

  // Names stay different when a subtree goes.
  lemma {:induction false} NamesPruned(nodes: Nodes, nodes': Nodes, tree: Tree, pos: seq<nat>)
    requires NamesApart(nodes, tree) && SameNodes(nodes, nodes')
    requires pos != [] && Reaches(tree, pos[..|pos| - 1]) && pos[|pos| - 1] < |Sub(tree, pos[..|pos| - 1]).kids|
    requires Ptrs(Prune(tree, pos)) <= nodes'.Keys
    ensures NamesApart(nodes', Prune(tree, pos))
  {
    var front, i := pos[..|pos| - 1], pos[|pos| - 1];
    var up := Sub(tree, front);
    SubNames(nodes, tree, front);
    NamesWithout(nodes, up, i);
    NamesPut(nodes, nodes, tree, front, up.(kids := Without(up.kids, i)));
    NamesFrame(nodes, nodes', Prune(tree, pos));
  }

  // What fs_remove did, seen from outside.
  lemma {:induction false} RemovalSeen(nodes: Nodes, tree: Tree, rooms: map<nat, nat>, node: nat,
                                       nodes': Nodes, rooms': map<nat, nat>,
                                       m: seq<byte>, r: seq<byte>, pos: seq<nat>, up: Tree, i: nat)
    requires Shape(nodes, tree, tree.p) && Backed(nodes, rooms) && Placed(nodes, tree, node, pos, up, i)
    requires (i > 0 ==> up.kids[i - 1].p in nodes) && nodes' == Unlink(nodes, up.kids, up.p, i) - Ptrs(up.kids[i])
    requires rooms' == rooms - Owned(nodes, Ptrs(up.kids[i])) && SameBytes(m, r, rooms')
    requires forall p :: p in rooms' ==> p + rooms'[p] <= |r|
    ensures Removed(nodes, tree, rooms, node, nodes', Prune(tree, pos), rooms')
    ensures Shape(nodes', Prune(tree, pos), tree.p) && Backed(nodes', rooms') && SameNodes(nodes, nodes')
    ensures forall q :: q in nodes' ==> Contents(r, nodes'[q]) == Contents(m, nodes[q])
    ensures NamesApart(nodes, tree) ==> NamesApart(nodes', Prune(tree, pos))
  {
    RemovalDone(nodes, tree, rooms, node, nodes', rooms', m, r, pos, up, i);
    if NamesApart(nodes, tree) { NamesPruned(nodes, nodes', tree, pos); }
  }

  // Every node but r is still there and reads as before.
  ghost predicate OthersStay(nodes: Nodes, m: seq<byte>, nodes': Nodes, m': seq<byte>, r: nat) {
    forall q :: q in nodes && q != r ==>
      q in nodes' && SameNode(nodes'[q], nodes[q]) && Contents(m', nodes'[q]) == Contents(m, nodes[q])
  }

  // What a finished or failed write leaves for fs_put.
  lemma WriteSeen(nodes: Nodes, m: seq<byte>, nodes': Nodes, m': seq<byte>, file: nat, text: seq<byte>, ok: bool)
    requires if ok then Written(nodes, m, nodes', m', file, text) && !nodes[file].isDir else nodes' == nodes && m' == m
    ensures OthersStay(nodes, m, nodes', m', file) && (ok ==> Reads(nodes', m', file, text))
    ensures forall q :: NameOf(nodes', q) == NameOf(nodes, q)
  {
  }

  lemma OthersStayThen(nodes: Nodes, m: seq<byte>, n1: Nodes, m1: seq<byte>, n2: Nodes, m2: seq<byte>, r: nat)
    requires Extends(nodes, m, n1, m1) && OthersStay(n1, m1, n2, m2, r)
    ensures OthersStay(nodes, m, n2, m2, r)
  {
  }

  // strrchr(path, '/'), or |path| for none
  function SlashAt(path: string): (k: nat)
    ensures k <= |path| && (k < |path| ==> path[k] == '/')
    ensures forall i :: (if k < |path| then k < i else 0 <= i) && i < |path| ==> path[i] != '/'
  {
    if path == "" || path[|path| - 1] == '/' then (if path == "" then 0 else |path| - 1)
    else
      var k := SlashAt(path[..|path| - 1]);
      if k == |path| - 1 then |path| else k
  }

  lemma {:induction false} SlashIs(path: string, k: nat)
    requires k <= |path| && (k < |path| ==> path[k] == '/')
    requires forall i :: (if k < |path| then k < i else 0 <= i) && i < |path| ==> path[i] != '/'
    ensures SlashAt(path) == k
  {
  }

  lemma {:induction false} SplitIs(dir: string, name: string)
    requires '/' !in name
    ensures var path := dir + "/" + name;
      SlashAt(path) == |dir| && path[..|dir|] == dir && path[|dir| + 1..] == name
  {
    var path := dir + "/" + name;
    forall i | |dir| < i < |path| ensures path[i] != '/' { assert path[i] == name[i - |dir| - 1]; }
    SlashIs(path, |dir|);
  }

  lemma RegrownDone(nodes: Nodes, tree: Tree, rooms: map<nat, nat>, m: seq<byte>, file: nat, q: nat, cap: nat,
                    nodes': Nodes, rooms': map<nat, nat>, m': seq<byte>)
    requires Shape(nodes, tree, tree.p) && Backed(nodes, rooms)
    requires file in nodes && Regrown(nodes[file], rooms, m, q, cap, rooms', m')
    requires nodes' == nodes[file := nodes[file].(data := q, cap := cap)]
    requires forall p :: p in rooms ==> p + rooms[p] <= |m|
    ensures Shape(nodes', tree, tree.p) && Backed(nodes', rooms')
    ensures Refiled(nodes, m, nodes', m', file, Contents(m, nodes[file]))
  {
    ShapeWritten(nodes, tree, file, nodes'[file], nodes');
    RegrownBacked(nodes, rooms, m, file, q, cap, nodes', rooms', m');
    RegrownReads(nodes, rooms, m, file, q, cap, nodes', rooms', m');
  }
}
