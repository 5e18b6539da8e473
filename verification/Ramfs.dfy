// kernel/fs/ramfs.c over the kernel heap: nodes and file contents are heap blocks. The fields of
// a node live in the map `nodes`, keyed by the node's address; a freed node has no entry, so
// every access below is also proved not to be a use after free.
module Ramfs {
  import opened Memory
  import Strings
  import opened Heap
  import opened BlockList
  import opened HeapClient
  import opened FsTree
  import opened FsPaths
  import opened FsRemoval
  import opened FsGrowth

  const DIR_MAX: nat := 256

  class Fs {
    const heap: Arena
    var nodes: Nodes
    var root: nat
    ghost var tree: Tree

    ghost predicate Valid()
      reads this, heap
    {
      heap.Valid() && Shape(nodes, tree, root) && Backed(nodes, Rooms(heap.blocks))
    }

    // ramfs_init
    constructor (h: Arena)
      requires h.Valid()
      modifies h
      ensures heap == h && h.Valid() && (root != NULL ==> Valid() && tree == Tree(root, []))
      ensures root == NULL <==> Exhausted(old(h.blocks), SIZEOF_NODE)
      ensures root == NULL ==> nodes == map[] && h.blocks == old(h.blocks)
    {
      heap := h;
      nodes := map[];
      root := 0;
      tree := Tree(0, []);
      new;
      var n := NewNode("", true);
      root := n;
      tree := Tree(n, []);
    }

    // new_node: the name is cut to 63 characters.
    method NewNode(name: string, isDir: bool) returns (n: nat)
      requires heap.Valid() && Backed(nodes, Rooms(heap.blocks))
      modifies `nodes, heap
      ensures heap.Valid() && Backed(nodes, Rooms(heap.blocks))
      ensures SameBytes(old(heap.mem), heap.mem, old(Rooms(heap.blocks)))
      ensures n == NULL <==> Exhausted(old(heap.blocks), SIZEOF_NODE)
      ensures n == NULL ==> nodes == old(nodes) && heap.blocks == old(heap.blocks) && heap.mem == old(heap.mem)
      ensures n != NULL ==>
        n !in old(nodes) && nodes == old(nodes)[n := Node(Cut63(name), isDir, NULL, NULL, NULL, NULL, 0, 0)]
    {
      n := AllocZeroed(heap, SIZEOF_NODE);
      if n == NULL { return; }
      nodes := nodes[n := Node(Cut63(name), isDir, NULL, NULL, NULL, NULL, 0, 0)];
      BackedMore(old(nodes), old(Rooms(heap.blocks)), n, nodes, Rooms(heap.blocks));
    }

    // unlink_from_parent; node is child i of its parent.
    method UnlinkFromParent(node: nat, ghost ts: seq<Tree>, ghost i: nat)
      requires Attached(nodes, ts, i, node)
      modifies `nodes
      ensures i > 0 ==> ts[i - 1].p in old(nodes)
      ensures nodes == Unlink(old(nodes), ts, old(nodes[node].parent), i)
    {
      var par := nodes[node].parent;
      if par == NULL { return; }
      var prev, cur := NULL, nodes[par].children;
      ghost var m: nat := 0;
      ForestInMap(nodes, ts, par);
      while cur != NULL
        invariant m <= i && cur == ts[m].p && prev == (if m == 0 then NULL else ts[m - 1].p)
        invariant m > 0 ==> prev in nodes && prev != NULL
        invariant nodes == old(nodes)
        decreases |ts| - m
      {
        ForestAt(nodes, ts, par, m);
        if cur == node {
          SameTree(ts, m, i);
          if prev == NULL {
            nodes := nodes[par := nodes[par].(children := nodes[node].next)];
          } else {
            nodes := nodes[prev := nodes[prev].(next := nodes[node].next)];
          }
          return;
        }
        prev := cur;
        cur := nodes[cur].next;
        m := m + 1;
      }
      assert false by { ForestAt(nodes, ts, par, m); }
    }

    // fs_remove on any node but the root: the whole subtree goes, with its buffers, and nothing
    // else changes.
    method Remove(node: nat) returns (ok: bool)
      requires Valid() && node in nodes && node != root
      modifies `nodes, `tree, heap
      ensures ok && Valid()
      ensures Removed(old(nodes), old(tree), old(Rooms(heap.blocks)), node, nodes, tree, Rooms(heap.blocks))
      ensures SameNodes(old(nodes), nodes)
      ensures forall q :: q in nodes ==> Contents(heap.mem, nodes[q]) == Contents(old(heap.mem), old(nodes)[q])
      ensures old(NamesApart(nodes, tree)) ==> NamesApart(nodes, tree)
    {
      ghost var n0, t, r0, m0 := nodes, tree, Rooms(heap.blocks), heap.mem;
      ghost var pos, up, i := Place(n0, t, node);
      tree := Prune(t, pos);
      ok := FsRemove(node, up.kids, i);
      RoomsInside(heap);
      RemovalSeen(n0, t, r0, node, nodes, Rooms(heap.blocks), m0, heap.mem, pos, up, i);
    }

    // fs_remove of child i of a forest ts: the subtree is unlinked, its nodes and its non-null
    // buffers are freed, and nothing else is. Each Free below needs its pointer to be live, so
    // no block is freed twice.
    method FsRemove(node: nat, ghost ts: seq<Tree>, ghost i: nat) returns (ok: bool)
      requires heap.Valid() && Backed(nodes, Rooms(heap.blocks))
      requires node != NULL && node != root ==> Attached(nodes, ts, i, node) && root !in ForestPtrs(ts)
      modifies `nodes, heap
      ensures heap.Valid() && (ok <==> node != NULL && node != root)
      ensures !ok ==> nodes == old(nodes) && heap.mem == old(heap.mem) && heap.blocks == old(heap.blocks)
      ensures ok ==> i > 0 ==> ts[i - 1].p in old(nodes)
      ensures ok ==> nodes == Unlink(old(nodes), ts, old(nodes[node].parent), i) - Ptrs(ts[i])
      ensures ok ==> Rooms(heap.blocks) == old(Rooms(heap.blocks)) - Owned(old(nodes), Ptrs(ts[i]))
      ensures SameBytes(old(heap.mem), heap.mem, Rooms(heap.blocks))
      decreases ts, 0
    {
      if node == NULL || node == root { return false; }
      SubtreeFacts(nodes, ts, i, node);
      RemoveKids(node, ts[i].kids);
      Detach(node, ts, i, old(nodes), old(Rooms(heap.blocks)), old(heap.mem));
      return true;
    }

    // The last three lines of fs_remove.
    method Detach(node: nat, ghost ts: seq<Tree>, ghost i: nat, ghost n0: Nodes, ghost r0: map<nat, nat>,
                  ghost m0: seq<byte>)
      requires heap.Valid() && Backed(n0, r0) && Attached(n0, ts, i, node)
        && SameBytes(m0, heap.mem, Rooms(heap.blocks))
      requires nodes == KidsRemoved(n0, ts[i].kids, node, |ts[i].kids|)
      requires Rooms(heap.blocks) == r0 - Owned(n0, ForestPtrs(ts[i].kids))
      modifies `nodes, heap
      ensures heap.Valid() && (i > 0 ==> ts[i - 1].p in n0)
      ensures nodes == Unlink(n0, ts, n0[node].parent, i) - Ptrs(ts[i])
      ensures Rooms(heap.blocks) == r0 - Owned(n0, Ptrs(ts[i]))
      ensures SameBytes(m0, heap.mem, Rooms(heap.blocks))
    {
      LeafAttached(n0, ts, i, node, nodes);
      LeafUnlinked(n0, ts, i, node, nodes);
      SubtreeFacts(n0, ts, i, node);
      UnlinkFromParent(node, ts[i := Tree(node, [])], i);
      FreeNode(node, n0, r0, ForestPtrs(ts[i].kids), m0);
    }

    // The loop of fs_remove over the children of node.
    method RemoveKids(node: nat, ghost kids: seq<Tree>)
      requires heap.Valid() && Backed(nodes, Rooms(heap.blocks))
      requires node != NULL && node in nodes && nodes[node].children == Head(kids)
        && (Head(kids) == NULL <==> kids == [])
      requires ForestLinked(nodes, kids, node) && ForestDistinct(kids) && node !in ForestPtrs(kids)
      requires root !in ForestPtrs(kids) && ForestPtrs(kids) <= nodes.Keys
      modifies `nodes, heap
      ensures heap.Valid() && nodes == KidsRemoved(old(nodes), kids, node, |kids|)
      ensures Rooms(heap.blocks) == old(Rooms(heap.blocks)) - Owned(old(nodes), ForestPtrs(kids))
      ensures SameBytes(old(heap.mem), heap.mem, Rooms(heap.blocks))
      decreases kids, 2
    {
      ghost var n0, r0, m0 := nodes, Rooms(heap.blocks), heap.mem;
      var c := nodes[node].children;
      ghost var m: nat := 0;
      NoneRemoved(nodes, kids, node, Rooms(heap.blocks));
      while c != NULL
        invariant m <= |kids| && c == Head(kids[m..]) && (c == NULL <==> m == |kids|)
        invariant nodes == KidsRemoved(n0, kids, node, m)
        invariant heap.Valid() && Rooms(heap.blocks) == r0 - Owned(n0, ForestPtrs(kids[..m]))
        invariant SameBytes(m0, heap.mem, Rooms(heap.blocks))
        decreases |kids| - m
      {
        c := RemoveKid(c, node, kids, m, n0, r0, m0);
        m := m + 1;
      }
      assert kids[..m] == kids;
    }

    // One round of that loop.
    method RemoveKid(c: nat, node: nat, ghost kids: seq<Tree>, ghost m: nat,
                     ghost n0: Nodes, ghost r0: map<nat, nat>, ghost m0: seq<byte>) returns (nxt: nat)
      requires heap.Valid() && Backed(n0, r0) && node != NULL && node in n0
      requires ForestLinked(n0, kids, node) && ForestDistinct(kids) && node !in ForestPtrs(kids)
      requires root !in ForestPtrs(kids) && ForestPtrs(kids) <= n0.Keys
      requires m < |kids| && c == kids[m].p && nodes == KidsRemoved(n0, kids, node, m)
      requires Rooms(heap.blocks) == r0 - Owned(n0, ForestPtrs(kids[..m]))
        && SameBytes(m0, heap.mem, Rooms(heap.blocks))
      modifies `nodes, heap
      ensures heap.Valid() && nxt == Head(kids[m + 1..]) && (nxt == NULL <==> m + 1 == |kids|)
      ensures nodes == KidsRemoved(n0, kids, node, m + 1)
      ensures Rooms(heap.blocks) == r0 - Owned(n0, ForestPtrs(kids[..m + 1]))
        && SameBytes(m0, heap.mem, Rooms(heap.blocks))
      decreases kids, 1
    {
      KidsLeft(n0, kids, node, m);
      BeforeKid(n0, r0, kids, node, m, nodes, Rooms(heap.blocks));
      NextAfterKid(n0, kids, node, m, nodes);
      nxt := nodes[c].next;
      ghost var r1, m1, cur := Rooms(heap.blocks), heap.mem, nodes;
      ParentStore(nodes, c, node);
      nodes := nodes[c := nodes[c].(parent := node)];
      var done := FsRemove(c, kids[m..], 0);
      KidsRemovedStep(n0, kids, node, m, cur);
      RoomsAfterKid(n0, r0, kids, node, m, cur);
      SameBytesLess(m0, m1, heap.mem, r1, Rooms(heap.blocks), Owned(cur, Ptrs(kids[m])));
    }

    // The two kfree calls at the end of fs_remove; s holds the children freed before.
    method FreeNode(node: nat, ghost n0: Nodes, ghost r0: map<nat, nat>, ghost s: set<nat>, ghost m0: seq<byte>)
      requires SameBytes(m0, heap.mem, Rooms(heap.blocks))
      requires heap.Valid() && Backed(n0, r0) && node in n0 && node !in s && s <= n0.Keys
      requires node in nodes && nodes[node].data == n0[node].data
      requires Rooms(heap.blocks) == r0 - Owned(n0, s)
      modifies `nodes, heap
      ensures heap.Valid() && nodes == old(nodes) - {node}
      ensures Rooms(heap.blocks) == r0 - Owned(n0, {node} + s)
      ensures SameBytes(m0, heap.mem, Rooms(heap.blocks))
    {
      NodeFreed(n0, r0, node, s, Rooms(heap.blocks));
      if nodes[node].data != NULL { Release(nodes[node].data, m0); }
      Release(node, m0);
      nodes := nodes - {node};
    }

    // kfree, as one more step since memory m0.
    method Release(p: nat, ghost m0: seq<byte>)
      requires heap.Valid() && p in Rooms(heap.blocks) && SameBytes(m0, heap.mem, Rooms(heap.blocks))
      modifies heap
      ensures heap.Valid() && Rooms(heap.blocks) == old(Rooms(heap.blocks)) - {p}
      ensures SameBytes(m0, heap.mem, Rooms(heap.blocks))
    {
      ghost var r1, m1 := Rooms(heap.blocks), heap.mem;
      Free(heap, p);
      SameBytesLess(m0, m1, heap.mem, r1, Rooms(heap.blocks), {p});
    }

    // ---- Names and paths ----

    // find_child
    method FindChild(dir: nat, name: string, ghost kids: seq<Tree>) returns (c: nat)
      requires dir == NULL ==> kids == []
      requires dir != NULL ==> dir in nodes && nodes[dir].children == Head(kids) && (kids != [] ==> nodes[dir].isDir)
      requires ForestLinked(nodes, kids, dir)
      ensures c == Head(kids[KidNamed(nodes, kids, name)..])
      ensures c == NULL <==> KidNamed(nodes, kids, name) == |kids|
    {
      if dir == NULL || !nodes[dir].isDir { return NULL; }
      c := nodes[dir].children;
      ghost var k: nat := 0;
      if kids != [] { ForestAt(nodes, kids, dir, 0); }
      while c != NULL
        invariant k <= |kids| && c == Head(kids[k..]) && (c == NULL <==> k == |kids|)
        invariant forall j :: 0 <= j < k ==> NameOf(nodes, kids[j].p) != name
        decreases |kids| - k
      {
        ForestAt(nodes, kids, dir, k);
        if nodes[c].name == name {
          KidNamedIs(nodes, kids, name, k);
          return;
        }
        c := nodes[c].next;
        k := k + 1;
        if k < |kids| { ForestAt(nodes, kids, dir, k); }
      }
      KidNamedIs(nodes, kids, name, k);
    }

    static method SkipSlashes(path: string, i: nat) returns (j: nat)
      requires i <= |path|
      ensures i <= j <= |path| && Comps(path[j..]) == Comps(path[i..]) && (j < |path| ==> path[j] != '/')
    {
      j := i;
      while j < |path| && path[j] == '/'
        invariant i <= j <= |path| && Comps(path[j..]) == Comps(path[i..])
      {
        assert path[j..][1..] == path[j + 1..];
        j := j + 1;
      }
    }

    static method EndOfName(path: string, i: nat) returns (j: nat)
      requires i < |path| && path[i] != '/'
      ensures i < j <= |path| && Comps(path[i..]) == [path[i..j]] + Comps(path[j..])
    {
      j := i;
      while j < |path| && path[j] != '/'
        invariant i <= j <= |path| && forall k :: i <= k < j ==> path[k] != '/'
      {
        j := j + 1;
      }
      var s := path[i..];
      SpanIs(s, j - i);
      assert s[..j - i] == path[i..j] && s[j - i..] == path[j..];
    }

    // Where fs_resolve starts.
    ghost function Start(cwd: nat, path: string): seq<nat>
      requires Shape(nodes, tree, root) && (cwd == NULL || cwd in nodes)
      reads this
      ensures Reaches(tree, Start(cwd, path))
    {
      if cwd == NULL || (path != "" && path[0] == '/') then [] else Where(tree, cwd)
    }

    // The three branches of fs_resolve's loop.
    method Enter(cur: nat, name: string, ghost pos: seq<nat>) returns (r: nat)
      requires Shape(nodes, tree, root) && Reaches(tree, pos) && Sub(tree, pos).p == cur
      ensures var s := Go(nodes, tree, pos, name); r == if s.At? then Sub(tree, s.pos).p else NULL
      ensures r != NULL <==> Go(nodes, tree, pos, name).At?
    {
      SubLinked(nodes, tree, NULL, NULL, pos);
      ParentNotNull(nodes, tree, pos);
      if name == "." { return cur; }
      if name == ".." {
        if pos != [] { ParentAt(nodes, tree, NULL, NULL, pos); }
        return if nodes[cur].parent != NULL then nodes[cur].parent else cur;
      }
      r := FindChild(cur, name, Sub(tree, pos).kids);
      if r != NULL { KidReaches(tree, pos, KidNamed(nodes, Sub(tree, pos).kids, name)); }
    }

    method FsResolve(cwd: nat, path: string) returns (r: nat)
      requires Shape(nodes, tree, root) && (cwd == NULL || cwd in nodes)
      ensures var s := Walk(nodes, tree, Start(cwd, path), Comps(path));
        r == if s.At? then Sub(tree, s.pos).p else NULL
      ensures r != NULL <==> Walk(nodes, tree, Start(cwd, path), Comps(path)).At?
    {
      ghost var pos := Start(cwd, path);
      ghost var goal := Walk(nodes, tree, pos, Comps(path));
      r := if path != "" && path[0] == '/' then root else if cwd != NULL then cwd else root;
      assert path[0..] == path;
      var i := SkipSlashes(path, 0);
      while i < |path|
        invariant i <= |path| && Reaches(tree, pos) && Sub(tree, pos).p == r
        invariant goal == Walk(nodes, tree, pos, Comps(path[i..])) && (i < |path| ==> path[i] != '/')
        decreases |path| - i
      {
        var j := EndOfName(path, i);
        r := Enter(r, path[i..j], pos);
        if r == NULL { return; }
        pos := Go(nodes, tree, pos, path[i..j]).pos;
        i := SkipSlashes(path, j);
      }
      assert path[i..] == "";
      ParentNotNull(nodes, tree, pos);
    }

    // The inner loop of fs_abspath's printing: a slash and a name, as far as the buffer goes.
    static method PutName(buf: array<char>, w: nat, name: string) returns (w': nat)
      requires w + 1 < buf.Length
      modifies buf
      ensures w <= w' == (if w + 1 + |name| < buf.Length then w + 1 + |name| else buf.Length - 1)
      ensures buf[..w'] == old(buf[..w]) + ("/" + name)[..w' - w]
    {
      var s := "/" + name;
      buf[w] := '/';
      w' := w + 1;
      var k := 0;
      while k < |name| && w' + 1 < buf.Length
        invariant k <= |name| && w' == w + 1 + k < buf.Length
        invariant buf[..w'] == old(buf[..w]) + s[..k + 1]
      {
        buf[w'] := name[k];
        assert s[..k + 2] == s[..k + 1] + [name[k]];
        w' := w' + 1;
        k := k + 1;
      }
    }

    // The names fs_abspath prints, root first.
    ghost function NamesTo(node: nat): seq<string>
      requires Shape(nodes, tree, root) && (node == NULL || node in nodes)
      reads this
    {
      if node == NULL then [] else Names(nodes, tree, Where(tree, node))
    }

    // The loop of fs_abspath that climbs to the root, or 32 names at most.
    method Climb(node: nat) returns (parts: seq<string>)
      requires Shape(nodes, tree, root) && node in nodes
      ensures var ns := NamesTo(node); |parts| == (if |ns| < DEPTH_MAX then |ns| else DEPTH_MAX)
      ensures forall k :: 0 <= k < |parts| ==> parts[k] == NamesTo(node)[|NamesTo(node)| - 1 - k]
    {
      ghost var pos := Where(tree, node);
      parts := [];
      var c := node;
      assert pos[..|pos|] == pos;
      ParentNotNull(nodes, tree, pos);
      while nodes[c].parent != NULL && |parts| < DEPTH_MAX
        invariant |parts| <= DEPTH_MAX && c in nodes && Climbed(nodes, tree, pos, c, parts)
        decreases DEPTH_MAX - |parts|
      {
        ClimbOne(nodes, tree, pos, c, parts);
        parts := parts + [nodes[c].name];
        c := nodes[c].parent;
      }
    }

    // fs_abspath. The string is terminated, unless it is the root's in a buffer of one byte.
    method FsAbspath(node: nat, buf: array<char>)
      requires Shape(nodes, tree, root) && (node == NULL || node in nodes) && buf.Length >= 1
      modifies buf
      ensures var s := AbsPath(NamesTo(node), buf.Length);
        && |s| <= buf.Length && buf[..|s|] == s && (|s| < buf.Length ==> buf[|s|] == '\0')
        && (|s| == buf.Length <==> NamesTo(node) == [] && buf.Length == 1)
    {
      if node != NULL { ParentNotNull(nodes, tree, Where(tree, node)); }
      if node == NULL || nodes[node].parent == NULL {
        PutSlash(buf);
        return;
      }
      var parts := Climb(node);
      var w := PrintNames(parts, Tail32(NamesTo(node)), buf);
      buf[w] := '\0';
    }

    // strncpy(buf, "/", bufsz)
    static method PutSlash(buf: array<char>)
      requires buf.Length >= 1
      modifies buf
      ensures buf[0] == '/' && forall k :: 1 <= k < buf.Length ==> buf[k] == '\0'
    {
      buf[0] := '/';
      var k := 1;
      while k < buf.Length
        invariant 1 <= k <= buf.Length && buf[0] == '/' && forall j :: 1 <= j < k ==> buf[j] == '\0'
      {
        buf[k] := '\0';
        k := k + 1;
      }
    }

    // The printing loop; last holds the names in the order they are printed.
    static method PrintNames(parts: seq<string>, ghost last: seq<string>, buf: array<char>) returns (w: nat)
      requires |parts| == |last| && forall k :: 0 <= k < |parts| ==> parts[k] == last[|last| - 1 - k]
      requires buf.Length >= 1
      modifies buf
      ensures w < buf.Length && buf[..w] == Strings.Cut(Join(last), buf.Length)
    {
      w := 0;
      var i := |parts|;
      while i > 0 && w + 1 < buf.Length
        invariant 0 <= i <= |parts| && w < buf.Length
        invariant buf[..w] == Strings.Cut(Join(last[..|parts| - i]), buf.Length)
      {
        ghost var m, w0 := |parts| - i, w;
        w := PutName(buf, w, parts[i - 1]);
        PrintOne(last, m, buf.Length, w0, w);
        i := i - 1;
      }
      PrintedAll(last, |parts| - i, buf.Length);
    }

    // Printing the path of any node and resolving it from any directory gives the node back if and
    // only if it is at most 32 levels deep, its path fits the buffer, the names on the way can be
    // spelled, and every node on the way is the first of its siblings with its name.
    lemma {:induction false} AbspathResolves(node: nat, cwd: nat, size: nat)
      requires Shape(nodes, tree, root) && node in nodes && (cwd == NULL || cwd in nodes) && size >= 2
      ensures var path := AbsPath(NamesTo(node), size); var s := Walk(nodes, tree, Start(cwd, path), Comps(path));
        (s.At? && Sub(tree, s.pos).p == node)
        <==> (|NamesTo(node)| <= DEPTH_MAX && |Join(NamesTo(node))| < size
              && AllSpellable(nodes, tree, Where(tree, node)) && FirstOnWay(nodes, tree, Where(tree, node)))
    {
      var pos, path := Where(tree, node), AbsPath(NamesTo(node), size);
      JoinAbsolute(NamesTo(node), size);
      ParentNotNull(nodes, tree, pos);
      PathRoundTrip(nodes, tree, pos, size);
      var s := Walk(nodes, tree, [], Comps(path));
      if s.At? && Sub(tree, s.pos).p == node { PositionsDiffer(tree, s.pos, pos); }
    }

    // What fs_mkdir_p made, fs_resolve finds if and only if the components are short and can be
    // spelled.
    lemma {:induction false} MkdirResolvesIff(path: string, dir: nat)
      requires Shape(nodes, tree, root) && Leads(nodes, tree, CutAll(Comps(path)), dir)
      ensures var s := Walk(nodes, tree, [], Comps(path));
        (s.At? && Sub(tree, s.pos).p == dir) <==> AllShort(Comps(path))
    {
      WayFoundIff(nodes, tree, path, dir);
    }

    // So it is with what fs_put filed under a name, which has no slash.
    lemma {:induction false} PutResolvesIff(dir: string, name: string, r: nat)
      requires Shape(nodes, tree, root) && Filed(nodes, tree, CutAll(Comps(dir)), name, r) && '/' !in name
      ensures var s := Walk(nodes, tree, [], Comps(dir + "/" + name));
        (s.At? && Sub(tree, s.pos).p == r) <==> AllShort(Comps(dir)) && Short(name)
    {
      var all := CutAll(Comps(dir)) + [Cut63(name)];
      var pos, path := Descend(nodes, tree, all).pos, dir + "/" + name;
      LedFindable(nodes, tree, pos, path);
      DescendNames(nodes, tree, all);
      assert all[|all| - 1] == Cut63(name);
      if name != "" {
        CutAllMore(Comps(dir), name, []);
        CompsSplit(dir, name);
        WayFoundIff(nodes, tree, path, r);
        assert Comps(path)[|Comps(dir)|] == name
          && forall i :: 0 <= i < |Comps(dir)| ==> Comps(path)[i] == Comps(dir)[i];
      }
    }

    // ---- Creating ----

    // The part of fs_create behind the search.
    method LinkNew(dir: nat, name: string, isDir: bool, ghost pos: seq<nat>) returns (n: nat)
      requires Valid() && Reaches(tree, pos) && Sub(tree, pos).p == dir && dir in nodes && nodes[dir].isDir
      modifies `nodes, `tree, heap
      ensures Valid()
      ensures n == NULL <==> Exhausted(old(heap.blocks), SIZEOF_NODE)
      ensures n == NULL ==>
        nodes == old(nodes) && tree == old(tree) && heap.blocks == old(heap.blocks) && heap.mem == old(heap.mem)
      ensures n != NULL ==> Created(old(nodes), old(tree), pos, n, name, isDir, nodes, tree)
      ensures n != NULL ==> SameBytes(old(heap.mem), heap.mem, old(Rooms(heap.blocks)))
    {
      ghost var n0 := nodes;
      n := NewNode(name, isDir);
      if n != NULL { Hook(n, dir, name, isDir, pos, n0, Rooms(heap.blocks)); }
    }

    // The new node n is hung under dir.
    method Hook(n: nat, dir: nat, ghost name: string, ghost isDir: bool, ghost pos: seq<nat>, ghost n0: Nodes,
                ghost rooms: map<nat, nat>)
      requires Shape(n0, tree, root) && Reaches(tree, pos) && Sub(tree, pos).p == dir
      requires dir in n0 && n0[dir].isDir && n !in n0 && n != NULL
      requires nodes == n0[n := Node(Cut63(name), isDir, NULL, NULL, NULL, NULL, 0, 0)] && Backed(nodes, rooms)
      modifies `nodes, `tree
      ensures Shape(nodes, tree, root) && Backed(nodes, rooms)
        && Created(n0, old(tree), pos, n, name, isDir, nodes, tree)
    {
      ghost var n1, t := nodes, tree;
      StoreLinks(n, dir);
      tree := Grown(t, pos, n);
      LinkDone(n0, t, pos, n, name, isDir, n1, nodes, rooms);
    }

    method StoreLinks(n: nat, dir: nat)
      requires n in nodes && dir in nodes
      modifies `nodes
      ensures nodes == Hooked(old(nodes), n, dir)
    {
      nodes := nodes[n := nodes[n].(parent := dir, next := nodes[dir].children)];
      nodes := nodes[dir := nodes[dir].(children := n)];
    }

    // fs_create: dir's entry of this name, or a new one at the head of its children.
    method FsCreate(dir: nat, name: string, isDir: bool) returns (n: nat)
      requires Valid() && (dir == NULL || dir in nodes)
      modifies `nodes, `tree, heap
      ensures Valid()
      ensures n == NULL <==> CreateFails(old(nodes), old(tree), old(heap.blocks), dir, name)
      ensures n == NULL ==> nodes == old(nodes) && tree == old(tree) && heap.blocks == old(heap.blocks)
      ensures n != NULL ==>
        var pos := Where(old(tree), dir); var kids := Sub(old(tree), pos).kids;
        var k := KidNamed(old(nodes), kids, name);
        if k < |kids| then n == kids[k].p && nodes == old(nodes) && tree == old(tree)
        else Created(old(nodes), old(tree), pos, n, name, isDir, nodes, tree)
      ensures Extends(old(nodes), old(heap.mem), nodes, heap.mem)
    {
      if dir == NULL || !nodes[dir].isDir { return NULL; }
      ghost var pos := Where(tree, dir);
      SubLinked(nodes, tree, NULL, NULL, pos);
      var existing := FindChild(dir, name, Sub(tree, pos).kids);
      if existing != NULL { return existing; }
      ghost var n0, t, r0, m0 := nodes, tree, Rooms(heap.blocks), heap.mem;
      RoomsInside(heap);
      n := LinkNew(dir, name, isDir, pos);
      if n != NULL { CreatedExtends(n0, t, pos, n, name, isDir, nodes, tree, r0, m0, heap.mem); }
    }

    // The fs_create call of fs_mkdir_p, for a directory that is not there.
    method MkdirNew(cur: nat, name: string, ghost pos: seq<nat>, ghost cs: seq<string>,
                    ghost n0: Nodes, ghost m0: seq<byte>, ghost apart: bool) returns (r: nat)
      requires Valid() && Descend(nodes, tree, cs) == At(pos) && Sub(tree, pos).p == cur && |name| < NAME_MAX
      requires KidNamed(nodes, Sub(tree, pos).kids, name) == |Sub(tree, pos).kids|
      requires Grew(n0, m0, apart, nodes, heap.mem, tree, cs)
      modifies `nodes, `tree, heap
      ensures Valid() && Grew(n0, m0, apart, nodes, heap.mem, tree, cs + [name])
      ensures r != NULL ==> Leads(nodes, tree, cs + [name], r)
      ensures r == NULL ==> Stuck(nodes, tree, heap.blocks, cs, name)
    {
      ghost var n1, m1, t := nodes, heap.mem, tree;
      SubIn(t, pos);
      PositionsDiffer(t, pos, Where(t, cur));
      r := FsCreate(cur, name, true);
      ExtendsThen(n0, m0, n1, m1, nodes, heap.mem);
      if r != NULL {
        DescendCreated(n1, t, pos, r, name, true, nodes, tree, cs);
        MadeMore(n0, n1, t, pos, r, name, true, nodes, tree, cs);
        if apart { CreateKeepsNamesIff(n1, t, pos, r, name, true, nodes, tree); }
      } else {
        CreateStuck(nodes, tree, heap.blocks, cs, cur, name);
        MadeLonger(n0, nodes, tree, cs, [name]);
      }
    }

    // One component of fs_mkdir_p: the entry of this name, made if it is not there.
    method MkdirStep(cur: nat, name: string, ghost cs: seq<string>, ghost n0: Nodes, ghost m0: seq<byte>,
                     ghost apart: bool)
      returns (r: nat)
      requires Valid() && |name| < NAME_MAX
      requires Leads(nodes, tree, cs, cur)
      requires Grew(n0, m0, apart, nodes, heap.mem, tree, cs)
      modifies `nodes, `tree, heap
      ensures Valid() && Grew(n0, m0, apart, nodes, heap.mem, tree, cs + [name])
      ensures r != NULL ==> Leads(nodes, tree, cs + [name], r)
      ensures r == NULL ==> Stuck(nodes, tree, heap.blocks, cs, name)
    {
      ghost var pos := Descend(nodes, tree, cs).pos;
      SubLinked(nodes, tree, NULL, NULL, pos);
      r := FindChild(cur, name, Sub(tree, pos).kids);
      if r != NULL {
        DescendFound(nodes, tree, pos, name, cs);
        MadeLonger(n0, nodes, tree, cs, [name]);
      } else {
        r := MkdirNew(cur, name, pos, cs, n0, m0, apart);
      }
    }

    // fs_mkdir_p: the directory the components, each cut to 63 characters, lead to. All nodes it
    // makes, even if it then gets stuck, lie on the way there.
    method FsMkdirP(path: string) returns (r: nat)
      requires Valid()
      modifies `nodes, `tree, heap
      ensures Valid() && Extends(old(nodes), old(heap.mem), nodes, heap.mem)
      ensures r != NULL ==> Leads(nodes, tree, CutAll(Comps(path)), r)
      ensures r == NULL ==> StuckIn(nodes, tree, heap.blocks, CutAll(Comps(path)))
      ensures MadeOn(old(nodes), nodes, tree, CutAll(Comps(path)))
      ensures old(NamesApart(nodes, tree)) ==> NamesApart(nodes, tree)
    {
      ghost var n0, m0, apart := nodes, heap.mem, NamesApart(nodes, tree);
      GrewNot(n0, m0, tree);
      r := root;
      var i := SkipSlashes(path, 0);
      assert path[0..] == path;
      ghost var cs: seq<string> := [];
      while i < |path|
        invariant i <= |path| && Comps(path) == cs + Comps(path[i..]) && (i < |path| ==> path[i] != '/')
        invariant Valid() && Grew(n0, m0, apart, nodes, heap.mem, tree, CutAll(cs))
        invariant Leads(nodes, tree, CutAll(cs), r) && r != NULL
        decreases |path| - i
      {
        r, i, cs := MkdirNext(path, i, r, cs, n0, m0, apart);
        if r == NULL { return; }
      }
      assert path[i..] == "" && cs + [] == cs;
    }

    // One round of that loop.
    method MkdirNext(path: string, i: nat, cur: nat, ghost cs: seq<string>, ghost n0: Nodes, ghost m0: seq<byte>,
                     ghost apart: bool)
      returns (r: nat, i': nat, ghost cs': seq<string>)
      requires i < |path| && path[i] != '/' && Comps(path) == cs + Comps(path[i..])
      requires Valid() && Leads(nodes, tree, CutAll(cs), cur)
      requires Grew(n0, m0, apart, nodes, heap.mem, tree, CutAll(cs))
      modifies `nodes, `tree, heap
      ensures i < i' <= |path| && (i' < |path| ==> path[i'] != '/') && Comps(path) == cs' + Comps(path[i'..])
      ensures Valid()
        && Grew(n0, m0, apart, nodes, heap.mem, tree, if r == NULL then CutAll(Comps(path)) else CutAll(cs'))
      ensures r != NULL ==> Leads(nodes, tree, CutAll(cs'), r)
      ensures r == NULL ==> StuckIn(nodes, tree, heap.blocks, CutAll(Comps(path)))
    {
      var j := EndOfName(path, i);
      var comp := path[i..j];
      CutAllMore(cs, comp, Comps(path[j..]));
      cs' := cs + [comp];
      r := MkdirStep(cur, Cut63(comp), CutAll(cs), n0, m0, apart);
      if r == NULL {
        StuckHere(nodes, tree, heap.blocks, cs, comp, Comps(path[j..]));
        CutAllSplit(cs', Comps(path[j..]));
        MadeLonger(n0, nodes, tree, CutAll(cs'), CutAll(Comps(path[j..])));
      }
      i' := SkipSlashes(path, j);
    }

    // ---- Contents ----

    // The `if (need > file->cap)` part of fs_write and fs_append.
    method EnsureCap(file: nat, need: word) returns (ok: bool)
      requires Valid() && file in nodes && 0 < need <= MAX_REQUEST
      modifies `nodes, heap
      ensures Valid()
      ensures !ok <==> old(nodes)[file].cap < need && CannotGrow(old(heap.blocks), old(nodes)[file].data, need)
      ensures !ok ==> nodes == old(nodes) && heap.mem == old(heap.mem) && heap.blocks == old(heap.blocks)
      ensures ok ==>
        && file in nodes && nodes[file].data != NULL && need <= nodes[file].cap
        && nodes[file].size == old(nodes)[file].size
      ensures ok ==>
        Refiled(old(nodes), old(heap.mem), nodes, heap.mem, file, Contents(old(heap.mem), old(nodes)[file]))
    {
      if need <= nodes[file].cap {
        assert HasRoom(nodes, Rooms(heap.blocks), file);
        return true;
      }
      ghost var r0, m0 := Rooms(heap.blocks), heap.mem;
      RoomsInside(heap);
      var nb := GrowBuffer(file, need);
      if nb == NULL { return false; }
      Adopt(file, nb, need, r0, m0);
      return true;
    }

    method GrowBuffer(file: nat, need: word) returns (nb: nat)
      requires heap.Valid() && file in nodes && Backed(nodes, Rooms(heap.blocks))
        && nodes[file].cap < need <= MAX_REQUEST
      modifies heap
      ensures heap.Valid()
      ensures nb == NULL <==> CannotGrow(old(heap.blocks), nodes[file].data, need)
      ensures nb == NULL ==> heap.mem == old(heap.mem) && heap.blocks == old(heap.blocks)
      ensures nb != NULL ==>
        Regrown(nodes[file], old(Rooms(heap.blocks)), old(heap.mem), nb, need, Rooms(heap.blocks), heap.mem)
    {
      BufferLive(file);
      nb := Grow(heap, nodes[file].data, need);
    }

    lemma BufferLive(file: nat)
      requires heap.Valid() && file in nodes && Backed(nodes, Rooms(heap.blocks))
      ensures NULL !in Rooms(heap.blocks)
      ensures nodes[file].data != NULL ==>
        nodes[file].data in Rooms(heap.blocks) && nodes[file].cap <= Rooms(heap.blocks)[nodes[file].data]
    {
      NullNotLive(heap.blocks, heap.base);
      assert HasRoom(nodes, Rooms(heap.blocks), file);
    }

    // The buffer krealloc returned becomes the file's.
    method Adopt(file: nat, nb: nat, need: nat, ghost r0: map<nat, nat>, ghost m0: seq<byte>)
      requires heap.Valid() && Shape(nodes, tree, root) && Backed(nodes, r0) && file in nodes
      requires Regrown(nodes[file], r0, m0, nb, need, Rooms(heap.blocks), heap.mem)
      requires forall p :: p in r0 ==> p + r0[p] <= |m0|
      modifies `nodes
      ensures Valid() && file in nodes && nodes[file] == old(nodes)[file].(data := nb, cap := need)
      ensures Refiled(old(nodes), m0, nodes, heap.mem, file, Contents(m0, old(nodes)[file]))
    {
      ghost var n0 := nodes;
      nodes := nodes[file := nodes[file].(data := nb, cap := need)];
      RegrownDone(n0, tree, r0, m0, file, nb, need, nodes, Rooms(heap.blocks), heap.mem);
    }

    // memcpy into the buffer p, and the terminator.
    method CopyIn(p: nat, off: nat, text: seq<byte>)
      requires heap.Valid() && p in Rooms(heap.blocks) && off + |text| < Rooms(heap.blocks)[p]
      modifies heap`mem
      ensures heap.Valid() && CopiedIn(old(heap.mem), heap.mem, Rooms(heap.blocks), p, off, text)
    {
      ghost var r0, m0 := Rooms(heap.blocks), heap.mem;
      StoreAt(heap, p, off, text);
      ghost var m1 := heap.mem;
      StoreAt(heap, p, off + |text|, [0]);
      TwoStores(m0, m1, heap.mem, r0, p, off, text);
    }

    // The end of fs_write and fs_append: the bytes, the terminator and the new size.
    method StoreText(file: nat, off: nat, text: seq<byte>)
      requires Valid() && file in nodes && nodes[file].data != NULL
      requires off <= nodes[file].size && off + |text| < nodes[file].cap
      modifies `nodes, heap
      ensures Valid() && file in nodes && Terminated(heap.mem, nodes[file])
      ensures off <= |Contents(old(heap.mem), old(nodes)[file])|
      ensures Refiled(old(nodes), old(heap.mem), nodes, heap.mem, file,
        Contents(old(heap.mem), old(nodes)[file])[..off] + text)
    {
      ghost var r0, m0 := Rooms(heap.blocks), heap.mem;
      BufferLive(file);
      RoomsInside(heap);
      CopyIn(nodes[file].data, off, text);
      SetSize(file, off, text, r0, m0);
    }

    // file->size = len, once the bytes are there; m0 is the memory before them.
    method SetSize(file: nat, off: nat, text: seq<byte>, ghost rooms: map<nat, nat>, ghost m0: seq<byte>)
      requires Shape(nodes, tree, root) && Backed(nodes, rooms) && file in nodes && nodes[file].data != NULL
        && NULL !in rooms
      requires off <= nodes[file].size && off + |text| < nodes[file].cap
      requires forall p :: p in rooms ==> p + rooms[p] <= |m0|
      requires CopiedIn(m0, heap.mem, rooms, nodes[file].data, off, text)
      modifies `nodes
      ensures Shape(nodes, tree, root) && Backed(nodes, rooms) && file in nodes && Terminated(heap.mem, nodes[file])
      ensures off <= |Contents(m0, old(nodes)[file])|
      ensures Refiled(old(nodes), m0, nodes, heap.mem, file, Contents(m0, old(nodes)[file])[..off] + text)
    {
      ghost var n0 := nodes;
      nodes := nodes[file := nodes[file].(size := off + |text|)];
      TextDone(n0, tree, rooms, m0, file, off, text, heap.mem, nodes);
    }

    // What fs_write and fs_append share: room for the bytes, then the bytes.
    method WriteAt(file: nat, off: nat, text: seq<byte>) returns (ok: bool)
      requires Valid() && file in nodes && off <= nodes[file].size && off + |text| < MAX_REQUEST
      modifies `nodes, heap
      ensures Valid() && off <= |Contents(old(heap.mem), old(nodes)[file])|
      ensures !ok <==> NoSpace(old(nodes)[file], old(heap.blocks), off, |text|)
      ensures !ok ==> nodes == old(nodes) && heap.mem == old(heap.mem) && heap.blocks == old(heap.blocks)
      ensures ok ==>
        Written(old(nodes), old(heap.mem), nodes, heap.mem, file,
          Contents(old(heap.mem), old(nodes)[file])[..off] + text)
    {
      ContentsLength(file);
      ghost var n0, m0 := nodes, heap.mem;
      var need: word := off + |text| + 1;
      NoSpaceIs(nodes[file], heap.blocks, off, |text|, need);
      ok := EnsureCap(file, need);
      if ok {
        ghost var n1, m1 := nodes, heap.mem;
        StoreText(file, off, text);
        RefiledThen(n0, m0, n1, m1, nodes, heap.mem, file, Contents(m0, n0[file]),
          Contents(m0, n0[file])[..off] + text);
      }
    }

    lemma ContentsLength(file: nat)
      requires Valid() && file in nodes
      ensures |Contents(heap.mem, nodes[file])| == nodes[file].size
    {
      RoomsInside(heap);
      ContentsFull(nodes, Rooms(heap.blocks), heap.mem, file);
    }

    // fs_write; the count returned is len, or -1.
    method FsWrite(file: nat, text: seq<byte>) returns (r: int)
      requires Valid() && (file == NULL || file in nodes) && |text| < MAX_REQUEST
      modifies `nodes, heap
      ensures Valid() && (r == -1 || r == |text|)
      ensures r == -1
        <==> file == NULL || old(nodes)[file].isDir || NoSpace(old(nodes)[file], old(heap.blocks), 0, |text|)
      ensures r == -1 ==> nodes == old(nodes) && heap.mem == old(heap.mem) && heap.blocks == old(heap.blocks)
      ensures r != -1 ==> Written(old(nodes), old(heap.mem), nodes, heap.mem, file, text)
    {
      if file == NULL || nodes[file].isDir { return -1; }
      var ok := WriteAt(file, 0, text);
      return if ok then |text| else -1;
    }

    // fs_append
    method FsAppend(file: nat, text: seq<byte>) returns (r: int)
      requires Valid() && (file == NULL || file in nodes)
      requires file != NULL ==> nodes[file].size + |text| < MAX_REQUEST
      modifies `nodes, heap
      ensures Valid() && (r == -1 || r == |text|)
      ensures r == -1 <==>
        (file == NULL || old(nodes)[file].isDir
          || NoSpace(old(nodes)[file], old(heap.blocks), old(nodes)[file].size, |text|))
      ensures r == -1 ==> nodes == old(nodes) && heap.mem == old(heap.mem) && heap.blocks == old(heap.blocks)
      ensures r != -1 ==>
        && file in old(nodes)
        && Written(old(nodes), old(heap.mem), nodes, heap.mem, file, Contents(old(heap.mem), old(nodes)[file]) + text)
    {
      if file == NULL || nodes[file].isDir { return -1; }
      ContentsLength(file);
      ghost var text0 := Contents(heap.mem, nodes[file]);
      assert text0[..nodes[file].size] == text0;
      var ok := WriteAt(file, nodes[file].size, text);
      return if ok then |text| else -1;
    }

    // strrchr(path, '/'), or |path| for none
    static method LastSlash(path: string) returns (k: nat)
      ensures k == SlashAt(path)
    {
      k := |path|;
      var i := 0;
      while i < |path|
        invariant i <= |path| && (k < i || k == |path|) && (k < |path| ==> path[k] == '/')
        invariant forall j :: (if k < |path| then k < j else 0 <= j) && j < i ==> path[j] != '/'
      {
        if path[i] == '/' { k := i; }
        i := i + 1;
      }
      SlashIs(path, k);
    }

    // The file part of fs_put: dir, reached by cs, gets an entry of this name that reads text.
    // `stored` tells whether the write went through; fs_put does not look.
    method PutFile(dir: nat, name: string, text: seq<byte>, ghost cs: seq<string>) returns (r: nat, ghost stored: bool)
      requires Valid() && Leads(nodes, tree, cs, dir) && |text| < MAX_REQUEST
      modifies `nodes, `tree, heap
      ensures Valid()
      ensures r == NULL ==> Stuck(nodes, tree, heap.blocks, cs, name)
      ensures r != NULL ==> Filed(nodes, tree, cs, name, r)
      ensures r != NULL && stored ==> Reads(nodes, heap.mem, r, text)
      ensures r != NULL && !stored ==> r in nodes && (nodes[r].isDir || NoSpace(nodes[r], heap.blocks, 0, |text|))
      ensures OthersStay(old(nodes), old(heap.mem), nodes, heap.mem, r)
      ensures old(NamesApart(nodes, tree)) && |name| < NAME_MAX ==> NamesApart(nodes, tree)
    {
      stored := false;
      r := CreateAt(dir, name, cs);
      if r != NULL {
        ghost var n1, m1 := nodes, heap.mem;
        stored := FillNew(r, name, text, cs);
        OthersStayThen(old(nodes), old(heap.mem), n1, m1, nodes, heap.mem, r);
      }
    }

    // The fs_write call of fs_put leaves the entry where it is.
    method FillNew(r: nat, ghost name: string, text: seq<byte>, ghost cs: seq<string>) returns (ghost stored: bool)
      requires Valid() && r in nodes && Filed(nodes, tree, cs, name, r) && |text| < MAX_REQUEST
      modifies `nodes, heap
      ensures Valid() && r in nodes && Filed(nodes, tree, cs, name, r)
      ensures stored ==> Reads(nodes, heap.mem, r, text)
      ensures !stored ==> nodes[r].isDir || NoSpace(nodes[r], heap.blocks, 0, |text|)
      ensures OthersStay(old(nodes), old(heap.mem), nodes, heap.mem, r)
      ensures old(NamesApart(nodes, tree)) ==> NamesApart(nodes, tree)
    {
      ghost var n1 := nodes;
      stored := FillFile(r, text);
      FiledFrame(n1, nodes, tree, cs, name, r);
      if NamesApart(n1, tree) { NamesFrame(n1, nodes, tree); }
    }

    // The fs_write call of fs_put.
    method FillFile(r: nat, text: seq<byte>) returns (ghost stored: bool)
      requires Valid() && r in nodes && |text| < MAX_REQUEST
      modifies `nodes, heap
      ensures Valid() && r in nodes
      ensures stored ==> Reads(nodes, heap.mem, r, text)
      ensures !stored ==> nodes[r].isDir || NoSpace(nodes[r], heap.blocks, 0, |text|)
      ensures OthersStay(old(nodes), old(heap.mem), nodes, heap.mem, r)
      ensures forall q :: NameOf(nodes, q) == NameOf(old(nodes), q)
    {
      ghost var n0, m0 := nodes, heap.mem;
      var n := FsWrite(r, text);
      stored := n != -1;
      WriteSeen(n0, m0, nodes, heap.mem, r, text, n != -1);
    }

    method CreateAt(dir: nat, name: string, ghost cs: seq<string>) returns (r: nat)
      requires Valid() && Leads(nodes, tree, cs, dir)
      modifies `nodes, `tree, heap
      ensures Valid() && (r == NULL || r in nodes)
      ensures r == NULL ==> Stuck(nodes, tree, heap.blocks, cs, name)
      ensures r != NULL ==> Filed(nodes, tree, cs, name, r)
      ensures Extends(old(nodes), old(heap.mem), nodes, heap.mem)
      ensures old(NamesApart(nodes, tree)) && |name| < NAME_MAX ==> NamesApart(nodes, tree)
    {
      ghost var n0, t := nodes, tree;
      ghost var pos := Descend(n0, t, cs).pos;
      SubIn(t, pos);
      r := FsCreate(dir, name, false);
      if r == NULL {
        CreateStuck(nodes, tree, heap.blocks, cs, dir, name);
      } else {
        PositionsDiffer(t, pos, Where(t, dir));
        EntryFiled(n0, t, pos, r, name, nodes, tree, cs);
      }
    }

    // fs_put: what stands before the last slash is made as by fs_mkdir_p, what stands behind it
    // names the file.
    method FsPut(path: string, text: seq<byte>) returns (r: nat, ghost stored: bool)
      requires Valid() && |text| < MAX_REQUEST
      modifies `nodes, `tree, heap
      ensures Valid()
      ensures r == NULL ==>
        (SlashAt(path) == |path| || SlashAt(path) >= DIR_MAX
         || PutStuck(nodes, tree, heap.blocks, CutAll(Comps(path[..SlashAt(path)])), path[SlashAt(path) + 1..]))
      ensures r != NULL ==>
        (SlashAt(path) < |path| && SlashAt(path) < DIR_MAX
         && Filed(nodes, tree, CutAll(Comps(path[..SlashAt(path)])), path[SlashAt(path) + 1..], r))
      ensures r != NULL && stored ==> Reads(nodes, heap.mem, r, text)
      ensures r != NULL && !stored ==> r in nodes && (nodes[r].isDir || NoSpace(nodes[r], heap.blocks, 0, |text|))
      ensures OthersStay(old(nodes), old(heap.mem), nodes, heap.mem, r)
      ensures old(NamesApart(nodes, tree)) && |path| <= SlashAt(path) + NAME_MAX ==> NamesApart(nodes, tree)
    {
      var k := LastSlash(path);
      if k == |path| || k >= DIR_MAX { return NULL, false; }
      r, stored := PutIn(path[..k], path[k + 1..], text);
    }

    // fs_put once the path is split at its last slash.
    method PutIn(dirPart: string, name: string, text: seq<byte>) returns (r: nat, ghost stored: bool)
      requires Valid() && |text| < MAX_REQUEST
      modifies `nodes, `tree, heap
      ensures Valid()
      ensures r == NULL ==> PutStuck(nodes, tree, heap.blocks, CutAll(Comps(dirPart)), name)
      ensures r != NULL ==> Filed(nodes, tree, CutAll(Comps(dirPart)), name, r)
      ensures r != NULL && stored ==> Reads(nodes, heap.mem, r, text)
      ensures r != NULL && !stored ==> r in nodes && (nodes[r].isDir || NoSpace(nodes[r], heap.blocks, 0, |text|))
      ensures OthersStay(old(nodes), old(heap.mem), nodes, heap.mem, r)
      ensures old(NamesApart(nodes, tree)) && |name| < NAME_MAX ==> NamesApart(nodes, tree)
    {
      var dir := root;
      assert root != NULL;
      if dirPart != "" {
        dir := FsMkdirP(dirPart);
      } else {
        ExtendsSelf(nodes, heap.mem);
      }
      if dir == NULL { return NULL, false; }
      ghost var n1, m1 := nodes, heap.mem;
      r, stored := PutFile(dir, name, text, CutAll(Comps(dirPart)));
      OthersStayThen(old(nodes), old(heap.mem), n1, m1, nodes, heap.mem, r);
    }
  }
}
