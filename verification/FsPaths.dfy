// Paths of kernel/fs/ramfs.c: splitting them, walking them and printing them, on the tree the
// node links spell out. A string stands for the characters before the terminating NUL.
module FsPaths {
  import opened Memory
  import opened Strings
  import opened FsTree

  const DEPTH_MAX: nat := 32

  function NameOf(nodes: Nodes, p: nat): (s: string)
    ensures |s| < NAME_MAX
  {
    if p in nodes then nodes[p].name else ""
  }

  // Index of the first tree whose root has this name, or |ts|.
  function KidNamed(nodes: Nodes, ts: seq<Tree>, name: string): (k: nat)
    ensures k <= |ts| && (k < |ts| ==> NameOf(nodes, ts[k].p) == name)
    ensures forall j :: 0 <= j < k ==> NameOf(nodes, ts[j].p) != name
  {
    if ts == [] || NameOf(nodes, ts[0].p) == name then 0 else 1 + KidNamed(nodes, ts[1..], name)
  }

  lemma {:induction false} KidNamedIs(nodes: Nodes, ts: seq<Tree>, name: string, k: nat)
    requires k <= |ts| && (k < |ts| ==> NameOf(nodes, ts[k].p) == name)
    requires forall j :: 0 <= j < k ==> NameOf(nodes, ts[j].p) != name
    ensures KidNamed(nodes, ts, name) == k
  {
  }

  // The node above any but the root is a node.
  lemma {:induction false} ParentNotNull(nodes: Nodes, t: Tree, pos: seq<nat>)
    requires Linked(nodes, t, NULL, NULL) && Distinct(t) && Reaches(t, pos)
    ensures Sub(t, pos).p in nodes && Sub(t, pos).p != NULL && (nodes[Sub(t, pos).p].parent == NULL <==> pos == [])
  {
    SubLinked(nodes, t, NULL, NULL, pos);
    if pos != [] {
      ParentAt(nodes, t, NULL, NULL, pos);
      SubLinked(nodes, t, NULL, NULL, pos[..|pos| - 1]);
    }
  }

  // Siblings have different names, at every level.
  ghost predicate SiblingsApart(nodes: Nodes, ts: seq<Tree>) {
    forall i, j :: 0 <= i < j < |ts| ==> NameOf(nodes, ts[i].p) != NameOf(nodes, ts[j].p)
  }

  ghost predicate NamesApart(nodes: Nodes, t: Tree)
    decreases t
  {
    SiblingsApart(nodes, t.kids) && forall i :: 0 <= i < |t.kids| ==> NamesApart(nodes, t.kids[i])
  }

  // ---- Splitting ----

  function Span(s: string): (n: nat)
    ensures n <= |s| && (n < |s| ==> s[n] == '/')
    ensures forall i :: 0 <= i < n ==> s[i] != '/'
  {
    if s == "" || s[0] == '/' then 0 else 1 + Span(s[1..])
  }

  // The components of a path; runs of slashes separate them.
  function Comps(s: string): seq<string>
    decreases |s|
  {
    if s == "" then []
    else if s[0] == '/' then Comps(s[1..])
    else [s[..Span(s)]] + Comps(s[Span(s)..])
  }

  lemma {:induction false} CompsSplit(dir: string, name: string)
    requires name != "" && forall i :: 0 <= i < |name| ==> name[i] != '/'
    ensures Comps(dir + "/" + name) == Comps(dir) + [name]
    decreases |dir|
  {
    var s := dir + "/" + name;
    if dir == "" {
      SpanIs(name, |name|);
      assert s[1..] == name && name[..|name|] == name && name[|name|..] == "";
    } else if dir[0] == '/' {
      CompsSplit(dir[1..], name);
      assert s[1..] == dir[1..] + "/" + name;
    } else {
      var n := Span(dir);
      SpanIs(s, n);
      CompsSplit(dir[n..], name);
      assert s[..n] == dir[..n] && s[n..] == dir[n..] + "/" + name;
    }
  }

  // ---- Walking ----

  datatype Spot = Nowhere | At(pos: seq<nat>)

  lemma {:induction false} PrefixReaches(t: Tree, pos: seq<nat>, n: nat)
    requires Reaches(t, pos) && n <= |pos|
    ensures Reaches(t, pos[..n])
    ensures n < |pos| ==> pos[n] < |Sub(t, pos[..n]).kids| && Reaches(Sub(t, pos[..n]), pos[n..])
    ensures Sub(Sub(t, pos[..n]), pos[n..]) == Sub(t, pos)
    decreases n
  {
    if n > 0 {
      PrefixReaches(t.kids[pos[0]], pos[1..], n - 1);
      assert pos[..n][1..] == pos[1..][..n - 1] && pos[1..][n - 1..] == pos[n..];
    } else {
      assert pos[..0] == [] && pos[0..] == pos;
    }
  }

  lemma {:induction false} KidReaches(t: Tree, pos: seq<nat>, k: nat)
    requires Reaches(t, pos) && k < |Sub(t, pos).kids|
    ensures Reaches(t, pos + [k]) && Sub(t, pos + [k]) == Sub(t, pos).kids[k]
    decreases |pos|
  {
    if pos != [] {
      KidReaches(t.kids[pos[0]], pos[1..], k);
      assert (pos + [k])[1..] == pos[1..] + [k];
    }
  }

  function Up(pos: seq<nat>): seq<nat> {
    if pos == [] then [] else pos[..|pos| - 1]
  }

  // One component of fs_resolve.
  function Go(nodes: Nodes, t: Tree, pos: seq<nat>, c: string): (s: Spot)
    requires Reaches(t, pos)
    ensures s.At? ==> Reaches(t, s.pos) && |s.pos| <= |pos| + 1
  {
    if c == "." then At(pos)
    else if c == ".." then
      if pos != [] then PrefixReaches(t, pos, |pos| - 1); At(Up(pos)) else At(pos)
    else
      var k := KidNamed(nodes, Sub(t, pos).kids, c);
      if k == |Sub(t, pos).kids| then Nowhere else KidReaches(t, pos, k); At(pos + [k])
  }

  function Walk(nodes: Nodes, t: Tree, pos: seq<nat>, comps: seq<string>): (s: Spot)
    requires Reaches(t, pos)
    ensures s.At? ==> Reaches(t, s.pos) && |s.pos| <= |pos| + |comps|
    decreases |comps|
  {
    if comps == [] then At(pos)
    else
      var s := Go(nodes, t, pos, comps[0]);
      if s.Nowhere? then Nowhere else Walk(nodes, t, s.pos, comps[1..])
  }

  lemma {:induction false} WalkAppend(nodes: Nodes, t: Tree, pos: seq<nat>, a: seq<string>, b: seq<string>)
    requires Reaches(t, pos)
    ensures var s := Walk(nodes, t, pos, a);
      Walk(nodes, t, pos, a + b) == if s.Nowhere? then Nowhere else Walk(nodes, t, s.pos, b)
    decreases |a|
  {
    if a == [] {
      assert a + b == b;
    } else {
      assert (a + b)[1..] == a[1..] + b;
      var s := Go(nodes, t, pos, a[0]);
      if s.At? { WalkAppend(nodes, t, s.pos, a[1..], b); }
    }
  }

  // ---- Printing ----

  // The names on the way from the root of t to pos.
  function Names(nodes: Nodes, t: Tree, pos: seq<nat>): (ns: seq<string>)
    requires Reaches(t, pos)
    ensures |ns| == |pos|
    decreases |pos|
  {
    if pos == [] then []
    else [NameOf(nodes, t.kids[pos[0]].p)] + Names(nodes, t.kids[pos[0]], pos[1..])
  }

  lemma {:induction false} NamesAt(nodes: Nodes, t: Tree, pos: seq<nat>, n: nat)
    requires Reaches(t, pos) && n < |pos|
    ensures Reaches(t, pos[..n + 1]) && Names(nodes, t, pos)[n] == NameOf(nodes, Sub(t, pos[..n + 1]).p)
    decreases n
  {
    PrefixReaches(t, pos, n + 1);
    if n > 0 {
      NamesAt(nodes, t.kids[pos[0]], pos[1..], n - 1);
      assert pos[1..][..n] == pos[..n + 1][1..];
    } else {
      assert pos[..1] == [pos[0]] && pos[..1][1..] == [];
    }
  }

  // One step of the climb from pos to the root, at depth d.
  lemma {:induction false} OneUp(nodes: Nodes, t: Tree, pos: seq<nat>, d: nat)
    requires Linked(nodes, t, NULL, NULL) && Distinct(t) && Reaches(t, pos) && 0 < d <= |pos| && Reaches(t, pos[..d])
    ensures Reaches(t, pos[..d - 1]) && Sub(t, pos[..d]).p in nodes && Sub(t, pos[..d - 1]).p in nodes
    ensures nodes[Sub(t, pos[..d]).p].parent == Sub(t, pos[..d - 1]).p
    ensures Names(nodes, t, pos)[d - 1] == nodes[Sub(t, pos[..d]).p].name
    ensures nodes[Sub(t, pos[..d - 1]).p].parent == NULL <==> d == 1
  {
    NamesAt(nodes, t, pos, d - 1);
    ParentAt(nodes, t, NULL, NULL, pos[..d]);
    assert pos[..d][..d - 1] == pos[..d - 1];
    ParentNotNull(nodes, t, pos[..d - 1]);
  }

  // The climb from pos has got to node c and collected these names.
  ghost predicate Climbed(nodes: Nodes, t: Tree, pos: seq<nat>, c: nat, parts: seq<string>)
    requires Reaches(t, pos)
  {
    var ns, d := Names(nodes, t, pos), |pos| - |parts|;
    && 0 <= d && Reaches(t, pos[..d]) && c == Sub(t, pos[..d]).p && c in nodes
    && (nodes[c].parent == NULL <==> d == 0)
    && (forall k :: 0 <= k < |parts| ==> parts[k] == ns[|ns| - 1 - k])
  }

  lemma {:induction false} ClimbOne(nodes: Nodes, t: Tree, pos: seq<nat>, c: nat, parts: seq<string>)
    requires Linked(nodes, t, NULL, NULL) && Distinct(t) && Reaches(t, pos)
    requires Climbed(nodes, t, pos, c, parts) && nodes[c].parent != NULL
    ensures Climbed(nodes, t, pos, nodes[c].parent, parts + [nodes[c].name])
  {
    OneUp(nodes, t, pos, |pos| - |parts|);
  }

  // Every component with a slash before it.
  function Join(ns: seq<string>): string {
    if ns == [] then "" else "/" + ns[0] + Join(ns[1..])
  }

  function Tail32(ns: seq<string>): seq<string> {
    if |ns| <= DEPTH_MAX then ns else ns[|ns| - DEPTH_MAX..]
  }

  // What fs_abspath leaves in a buffer of `size` bytes for a node with these names.
  function AbsPath(ns: seq<string>, size: nat): string
    requires size > 0
  {
    if ns == [] then "/"
    else Cut(Join(Tail32(ns)), size)
  }

  lemma {:induction false} JoinAppend(a: seq<string>, b: seq<string>)
    ensures Join(a + b) == Join(a) + Join(b)
    decreases |a|
  {
    if a == [] {
      assert a + b == b;
    } else {
      assert (a + b)[1..] == a[1..] + b;
      JoinAppend(a[1..], b);
    }
  }

  // Printing the next name behind those that are printed whole, as far as it fits.
  lemma {:induction false} PrintOne(ns: seq<string>, m: nat, size: nat, w: nat, w': nat)
    requires m < |ns| && w + 1 < size && w == |Cut(Join(ns[..m]), size)|
    requires w' == if w + 1 + |ns[m]| < size then w + 1 + |ns[m]| else size - 1
    ensures w <= w' <= w + 1 + |ns[m]|
    ensures Cut(Join(ns[..m + 1]), size) == Cut(Join(ns[..m]), size) + ("/" + ns[m])[..w' - w]
  {
    assert ns[..m + 1] == ns[..m] + [ns[m]];
    JoinAppend(ns[..m], [ns[m]]);
    assert Join([ns[m]]) == "/" + ns[m] + Join([ns[m]][1..]) == "/" + ns[m];
    CutAppend(Join(ns[..m]), "/" + ns[m], size);
  }

  lemma CutAppend(s: string, t: string, size: nat)
    requires |s| + 1 < size
    ensures Cut(s + t, size) == s + t[..if |s| + |t| < size then |t| else size - 1 - |s|]
  {
  }

  // The printing stops when all is printed or the buffer is full.
  lemma {:induction false} PrintedAll(ns: seq<string>, m: nat, size: nat)
    requires m <= |ns| && size > 0 && (m == |ns| || |Cut(Join(ns[..m]), size)| + 1 == size)
    ensures Cut(Join(ns[..m]), size) == Cut(Join(ns), size)
  {
    assert ns == ns[..m] + ns[m..];
    JoinAppend(ns[..m], ns[m..]);
    if m == |ns| { assert ns[..m] == ns; }
  }

  // A name a path can spell: not empty, no slash, and neither of the two special names.
  predicate Plain(name: string) {
    name != "" && (forall i :: 0 <= i < |name| ==> name[i] != '/')
  }

  predicate Spellable(name: string) {
    Plain(name) && name != "." && name != ".."
  }

  // ---- The round trip ----

  lemma {:induction false} SpanIs(s: string, n: nat)
    requires n <= |s| && (n < |s| ==> s[n] == '/') && forall i :: 0 <= i < n ==> s[i] != '/'
    ensures Span(s) == n
  {
  }

  lemma {:induction false} CompsFirst(name: string, rest: string)
    requires Plain(name) && (rest == "" || rest[0] == '/')
    ensures Comps("/" + name + rest) == [name] + Comps(rest)
  {
    var s := "/" + name + rest;
    assert s[1..] == name + rest;
    SpanIs(name + rest, |name|);
    assert (name + rest)[..|name|] == name && (name + rest)[|name|..] == rest;
  }

  lemma {:induction false} CompsJoin(ns: seq<string>)
    requires forall i :: 0 <= i < |ns| ==> Plain(ns[i])
    ensures Comps(Join(ns)) == ns
  {
    if ns != [] {
      CompsJoin(ns[1..]);
      CompsFirst(ns[0], Join(ns[1..]));
    }
  }

  // Cutting a printed path short loses components from the end and may shorten the last one left.
  lemma CompsCut(ns: seq<string>, k: nat) returns (j: nat, x: string)
    requires (forall i :: 0 <= i < |ns| ==> Plain(ns[i])) && k < |Join(ns)|
    ensures j < |ns| && x < ns[j]
    ensures Comps(Join(ns)[..k]) == if x == "" then ns[..j] else ns[..j] + [x]
  {
    var s := Join(ns)[..k];
    var n, rest := ns[0], Join(ns[1..]);
    if k <= 1 {
      j, x := 0, "";
      assert s == "" || (s[0] == '/' && s[1..] == "");
    } else if k <= |n| {
      j, x := 0, n[..k - 1];
      assert forall i :: 0 <= i < |x| ==> x[i] == n[i];
      assert s == "/" + x == "/" + x + "";
      CompsFirst(x, "");
    } else {
      var k' := k - 1 - |n|;
      assert |Join(ns)| == 1 + |n| + |rest|;
      assert s == "/" + n + rest[..k'];
      CompsFirst(n, rest[..k']);
      j, x := CompsCut(ns[1..], k');
      assert ns[..j + 1] == [n] + ns[1..][..j];
      j := j + 1;
    }
  }

  // The names on the way to pos can all be spelled.
  ghost predicate AllSpellable(nodes: Nodes, t: Tree, pos: seq<nat>)
    requires Reaches(t, pos)
  {
    forall i :: 0 <= i < |pos| ==> Spellable(Names(nodes, t, pos)[i])
  }

  // Every node on the way to pos is the first of its siblings with its name.
  ghost predicate FirstOnWay(nodes: Nodes, t: Tree, pos: seq<nat>)
    requires Reaches(t, pos)
    decreases |pos|
  {
    pos == [] ||
    (KidNamed(nodes, t.kids, NameOf(nodes, t.kids[pos[0]].p)) == pos[0] && FirstOnWay(nodes, t.kids[pos[0]], pos[1..]))
  }

  ghost predicate Findable(nodes: Nodes, t: Tree, pos: seq<nat>)
    requires Reaches(t, pos)
  {
    AllSpellable(nodes, t, pos) && FirstOnWay(nodes, t, pos)
  }

  // Where siblings have different names, each is the first of its name.
  lemma {:induction false} ApartFirst(nodes: Nodes, t: Tree, pos: seq<nat>)
    requires NamesApart(nodes, t) && Reaches(t, pos)
    ensures FirstOnWay(nodes, t, pos)
    decreases |pos|
  {
    if pos != [] {
      KidNamedIs(nodes, t.kids, NameOf(nodes, t.kids[pos[0]].p), pos[0]);
      ApartFirst(nodes, t.kids[pos[0]], pos[1..]);
    }
  }

  lemma {:induction false} NamesPrefix(nodes: Nodes, t: Tree, pos: seq<nat>, n: nat)
    requires Reaches(t, pos) && n <= |pos|
    ensures Reaches(t, pos[..n]) && Names(nodes, t, pos[..n]) == Names(nodes, t, pos)[..n]
    decreases n
  {
    PrefixReaches(t, pos, n);
    if n > 0 {
      NamesPrefix(nodes, t.kids[pos[0]], pos[1..], n - 1);
      assert pos[..n][1..] == pos[1..][..n - 1];
    }
  }

  lemma {:induction false} NamesMore(nodes: Nodes, t: Tree, pos: seq<nat>, k: nat)
    requires Reaches(t, pos) && k < |Sub(t, pos).kids|
    ensures Reaches(t, pos + [k])
    ensures Names(nodes, t, pos + [k]) == Names(nodes, t, pos) + [NameOf(nodes, Sub(t, pos).kids[k].p)]
    decreases |pos|
  {
    var all := pos + [k];
    KidReaches(t, pos, k);
    if pos == [] {
      assert all[1..] == [];
    } else {
      assert all[1..] == pos[1..] + [k];
      NamesMore(nodes, t.kids[pos[0]], pos[1..], k);
    }
  }

  lemma {:induction false} FirstMore(nodes: Nodes, t: Tree, pos: seq<nat>, k: nat)
    requires Reaches(t, pos) && FirstOnWay(nodes, t, pos) && k < |Sub(t, pos).kids|
    requires KidNamed(nodes, Sub(t, pos).kids, NameOf(nodes, Sub(t, pos).kids[k].p)) == k
    ensures Reaches(t, pos + [k]) && FirstOnWay(nodes, t, pos + [k])
    decreases |pos|
  {
    var all := pos + [k];
    KidReaches(t, pos, k);
    if pos == [] {
      assert all[1..] == [];
    } else {
      assert all[1..] == pos[1..] + [k];
      FirstMore(nodes, t.kids[pos[0]], pos[1..], k);
    }
  }

  lemma {:induction false} FirstPrefix(nodes: Nodes, t: Tree, pos: seq<nat>, n: nat)
    requires Reaches(t, pos) && FirstOnWay(nodes, t, pos) && n <= |pos|
    ensures Reaches(t, pos[..n]) && FirstOnWay(nodes, t, pos[..n])
    decreases n
  {
    PrefixReaches(t, pos, n);
    if n > 0 {
      FirstPrefix(nodes, t.kids[pos[0]], pos[1..], n - 1);
      assert pos[..n][1..] == pos[1..][..n - 1];
    }
  }

  lemma {:induction false} FindablePrefix(nodes: Nodes, t: Tree, pos: seq<nat>, n: nat)
    requires Reaches(t, pos) && Findable(nodes, t, pos) && n <= |pos|
    ensures Reaches(t, pos[..n]) && Findable(nodes, t, pos[..n])
  {
    FirstPrefix(nodes, t, pos, n);
    NamesPrefix(nodes, t, pos, n);
  }

  // One component leads from such a node to such a node.
  lemma {:induction false} GoFinds(nodes: Nodes, t: Tree, pos: seq<nat>, c: string)
    requires Reaches(t, pos) && Findable(nodes, t, pos) && Plain(c)
    ensures var s := Go(nodes, t, pos, c); s.At? ==> Findable(nodes, t, s.pos)
  {
    if c == ".." {
      if pos != [] { FindablePrefix(nodes, t, pos, |pos| - 1); }
    } else if c != "." {
      var k := KidNamed(nodes, Sub(t, pos).kids, c);
      if k < |Sub(t, pos).kids| {
        NamesMore(nodes, t, pos, k);
        FirstMore(nodes, t, pos, k);
      }
    }
  }

  // No path leads from the root to any other: the names on the way can be spelled, and each node
  // on it is the first of its siblings with its name.
  lemma {:induction false} WalkFinds(nodes: Nodes, t: Tree, pos: seq<nat>, comps: seq<string>)
    requires Reaches(t, pos) && Findable(nodes, t, pos) && forall i :: 0 <= i < |comps| ==> Plain(comps[i])
    ensures var s := Walk(nodes, t, pos, comps); s.At? ==> Findable(nodes, t, s.pos)
    decreases |comps|
  {
    if comps != [] {
      GoFinds(nodes, t, pos, comps[0]);
      var s := Go(nodes, t, pos, comps[0]);
      if s.At? { WalkFinds(nodes, t, s.pos, comps[1..]); }
    }
  }

  lemma {:induction false} CompsPlain(s: string)
    ensures forall i :: 0 <= i < |Comps(s)| ==> Plain(Comps(s)[i])
    decreases |s|
  {
    if s == "" {
    } else if s[0] == '/' {
      CompsPlain(s[1..]);
    } else {
      CompsPlain(s[Span(s)..]);
    }
  }

  // Following the names of a node that can be found leads to it.
  lemma {:induction false} WalkNames(nodes: Nodes, t: Tree, pre: seq<nat>, post: seq<nat>)
    requires Reaches(t, pre + post) && Reaches(t, pre) && Reaches(Sub(t, pre), post)
    requires Findable(nodes, Sub(t, pre), post)
    ensures Walk(nodes, t, pre, Names(nodes, Sub(t, pre), post)) == At(pre + post)
    decreases |post|
  {
    if post == [] {
      assert pre + post == pre;
    } else {
      var sub := Sub(t, pre);
      var ns, k := Names(nodes, sub, post), post[0];
      KidReaches(t, pre, k);
      assert Spellable(ns[0]) && Go(nodes, t, pre, ns[0]) == At(pre + [k]);
      var rest := Names(nodes, sub.kids[k], post[1..]);
      assert ns[1..] == rest && forall i :: 0 <= i < |rest| ==> rest[i] == ns[i + 1];
      assert (pre + [k]) + post[1..] == pre + post;
      WalkNames(nodes, t, pre + [k], post[1..]);
    }
  }

  lemma {:induction false} WalkDown(nodes: Nodes, t: Tree, pos: seq<nat>)
    requires Reaches(t, pos) && Findable(nodes, t, pos)
    ensures Walk(nodes, t, [], Names(nodes, t, pos)) == At(pos)
  {
    assert [] + pos == pos;
    WalkNames(nodes, t, [], pos);
  }

  // A path cut inside its last component does not lead to the node.
  lemma {:induction false} CutMisses(nodes: Nodes, t: Tree, pos: seq<nat>, j: nat, x: string)
    requires Reaches(t, pos) && Findable(nodes, t, pos) && j < |pos| && x < Names(nodes, t, pos)[j]
    ensures Walk(nodes, t, [], Names(nodes, t, pos)[..j] + (if x == "" then [] else [x])) != At(pos)
  {
    var ns := Names(nodes, t, pos);
    var tail := if x == "" then [] else [x];
    if j + |tail| == |pos| {
      var front := pos[..j];
      NamesPrefix(nodes, t, pos, j);
      FindablePrefix(nodes, t, pos, j);
      WalkDown(nodes, t, front);
      WalkAppend(nodes, t, [], ns[..j], tail);
      var s := Go(nodes, t, front, x);
      NamesAt(nodes, t, pos, j);
      assert tail[1..] == [];
      if s == At(pos) && x != "." && x != ".." {
        assert pos[..j + 1] == pos;
        KidReaches(t, front, pos[j]);
      }
    }
  }

  lemma {:induction false} FullPathFinds(nodes: Nodes, t: Tree, pos: seq<nat>, ns: seq<string>)
    requires Reaches(t, pos) && Findable(nodes, t, pos) && ns == Names(nodes, t, pos)
    ensures Walk(nodes, t, [], Comps(Join(ns))) == At(pos)
  {
    CompsJoin(ns);
    WalkDown(nodes, t, pos);
  }

  lemma {:induction false} CutPathMisses(nodes: Nodes, t: Tree, pos: seq<nat>, ns: seq<string>, k: nat)
    requires Reaches(t, pos) && Findable(nodes, t, pos) && ns == Names(nodes, t, pos) && k < |Join(ns)|
    ensures Walk(nodes, t, [], Comps(Join(ns)[..k])) != At(pos)
  {
    var j, x := CompsCut(ns, k);
    CutMisses(nodes, t, pos, j, x);
    if x == "" { assert ns[..j] + [] == ns[..j]; }
  }

  // What a deep node's path resolves to is never that deep.
  lemma DeepMisses(ns: seq<string>, size: nat)
    requires |ns| > DEPTH_MAX && size >= 2 && forall i :: 0 <= i < |ns| ==> Plain(ns[i])
    ensures |Comps(AbsPath(ns, size))| <= DEPTH_MAX
  {
    var last := Tail32(ns);
    assert forall i :: 0 <= i < |last| ==> last[i] == ns[|ns| - |last| + i];
    if |Join(last)| < size {
      CompsJoin(last);
    } else {
      var j, x := CompsCut(last, size - 1);
    }
  }

  // Printing the path of any node and resolving it, from anywhere, gives the node back if and only
  // if the node is at most 32 levels deep, its path fits the buffer, the names on the way can be
  // spelled, and every node on the way is the first of its siblings with its name.
  lemma {:induction false} PathRoundTrip(nodes: Nodes, t: Tree, pos: seq<nat>, size: nat)
    requires Reaches(t, pos) && size >= 2
    ensures Walk(nodes, t, [], Comps(AbsPath(Names(nodes, t, pos), size))) == At(pos)
       <==> (|pos| <= DEPTH_MAX && |Join(Names(nodes, t, pos))| < size
             && AllSpellable(nodes, t, pos) && FirstOnWay(nodes, t, pos))
  {
    var path := AbsPath(Names(nodes, t, pos), size);
    CompsPlain(path);
    WalkFinds(nodes, t, [], Comps(path));
    if Findable(nodes, t, pos) { FindablePath(nodes, t, pos, size); }
  }

  lemma {:induction false} FindablePath(nodes: Nodes, t: Tree, pos: seq<nat>, size: nat)
    requires Reaches(t, pos) && Findable(nodes, t, pos) && size >= 2
    ensures Walk(nodes, t, [], Comps(AbsPath(Names(nodes, t, pos), size))) == At(pos)
       <==> |pos| <= DEPTH_MAX && |Join(Names(nodes, t, pos))| < size
  {
    var ns := Names(nodes, t, pos);
    if ns == [] {
      assert Comps("/") == [];
    } else if |pos| <= DEPTH_MAX {
      FullPathFinds(nodes, t, pos, ns);
      if |Join(ns)| >= size { CutPathMisses(nodes, t, pos, ns, size - 1); }
    } else {
      DeepMisses(ns, size);
    }
  }

  // An absolute path does not depend on where resolution starts.
  lemma JoinAbsolute(ns: seq<string>, size: nat)
    requires size >= 2
    ensures AbsPath(ns, size) != "" && AbsPath(ns, size)[0] == '/'
  {
  }

  // ---- Names stay apart ----

  // Replacing the tree at pos, names untouched, keeps names apart exactly when the new tree does.
  lemma {:induction false} NamesPut(nodes: Nodes, nodes': Nodes, t: Tree, pos: seq<nat>, u: Tree)
    requires NamesApart(nodes, t) && Reaches(t, pos) && u.p == Sub(t, pos).p
    requires forall q :: q in Ptrs(t) ==> NameOf(nodes', q) == NameOf(nodes, q)
    ensures NamesApart(nodes', PutAt(t, pos, u)) <==> NamesApart(nodes', u)
    decreases |pos|
  {
    if pos != [] {
      var i := pos[0];
      var k' := PutAt(t.kids[i], pos[1..], u);
      var t' := PutAt(t, pos, u);
      PtrsIn(t.kids, i);
      NamesPut(nodes, nodes', t.kids[i], pos[1..], u);
      PutRoot(t.kids[i], pos[1..], u);
      forall j | 0 <= j < |t.kids| ensures t.kids[j].p in Ptrs(t) && t'.kids[j].p == t.kids[j].p { PtrsIn(t.kids, j); }
      forall j | 0 <= j < |t.kids| && j != i ensures NamesApart(nodes', t'.kids[j]) {
        PtrsIn(t.kids, j);
        NamesFrame(nodes, nodes', t.kids[j]);
      }
      assert t'.kids[i] == k';
    }
  }

  lemma {:induction false} PutRoot(t: Tree, pos: seq<nat>, u: Tree)
    requires Reaches(t, pos) && u.p == Sub(t, pos).p
    ensures PutAt(t, pos, u).p == t.p
  {
  }

  lemma {:induction false} NamesFrame(nodes: Nodes, nodes': Nodes, t: Tree)
    requires NamesApart(nodes, t) && forall q :: q in Ptrs(t) ==> NameOf(nodes', q) == NameOf(nodes, q)
    ensures NamesApart(nodes', t)
    decreases t
  {
    forall j | 0 <= j < |t.kids| ensures t.kids[j].p in Ptrs(t) && NamesApart(nodes', t.kids[j]) {
      PtrsIn(t.kids, j);
      NamesFrame(nodes, nodes', t.kids[j]);
    }
  }

  lemma KidsFramed(nodes: Nodes, nodes': Nodes, d: Tree)
    requires NamesApart(nodes, d) && forall q :: q in Ptrs(d) ==> NameOf(nodes', q) == NameOf(nodes, q)
    ensures forall j :: 0 <= j < |d.kids| ==>
      NameOf(nodes', d.kids[j].p) == NameOf(nodes, d.kids[j].p) && NamesApart(nodes', d.kids[j])
  {
    forall j | 0 <= j < |d.kids|
      ensures NameOf(nodes', d.kids[j].p) == NameOf(nodes, d.kids[j].p) && NamesApart(nodes', d.kids[j])
    {
      PtrsIn(d.kids, j);
      NamesFrame(nodes, nodes', d.kids[j]);
    }
  }

  lemma {:induction false} NewFirstApart(nodes: Nodes, kids: seq<Tree>, n: nat)
    requires SiblingsApart(nodes, kids) && forall j :: 0 <= j < |kids| ==> NamesApart(nodes, kids[j])
    requires forall j :: 0 <= j < |kids| ==> NameOf(nodes, kids[j].p) != NameOf(nodes, n)
    ensures NamesApart(nodes, Tree(0, [Tree(n, [])] + kids))
  {
    var all := [Tree(n, [])] + kids;
    forall i, j | 0 <= i < j < |all| ensures NameOf(nodes, all[i].p) != NameOf(nodes, all[j].p) {
      assert all[j] == kids[j - 1];
      if i > 0 { assert all[i] == kids[i - 1]; }
    }
    forall j | 0 <= j < |all| ensures NamesApart(nodes, all[j]) {
      if j > 0 { assert all[j] == kids[j - 1]; }
    }
  }

  lemma {:induction false} NewFirstNames(nodes: Nodes, nodes': Nodes, d: Tree, n: nat)
    requires NamesApart(nodes, d) && n in nodes'
    requires forall q :: q in Ptrs(d) ==> NameOf(nodes', q) == NameOf(nodes, q)
    ensures NamesApart(nodes', d.(kids := [Tree(n, [])] + d.kids))
      <==> KidNamed(nodes, d.kids, nodes'[n].name) == |d.kids|
  {
    var u := d.(kids := [Tree(n, [])] + d.kids);
    KidsFramed(nodes, nodes', d);
    var k := KidNamed(nodes, d.kids, nodes'[n].name);
    if k < |d.kids| {
      assert u.kids[k + 1] == d.kids[k];
      assert NameOf(nodes', u.kids[0].p) == NameOf(nodes', u.kids[k + 1].p);
      assert !SiblingsApart(nodes', u.kids);
    } else {
      assert SiblingsApart(nodes', d.kids);
      NewFirstApart(nodes', d.kids, n);
      assert Tree(0, u.kids).kids == u.kids;
    }
  }

  // A new first child keeps the names apart exactly when no sibling has its name.
  lemma {:induction false} NewChildNames(nodes: Nodes, nodes': Nodes, t: Tree, pos: seq<nat>, n: nat)
    requires NamesApart(nodes, t) && Reaches(t, pos) && n in nodes'
    requires forall q :: q in Ptrs(t) ==> NameOf(nodes', q) == NameOf(nodes, q)
    ensures var d := Sub(t, pos); var u := d.(kids := [Tree(n, [])] + d.kids);
      NamesApart(nodes', PutAt(t, pos, u)) <==> KidNamed(nodes, d.kids, nodes'[n].name) == |d.kids|
  {
    var d := Sub(t, pos);
    SubIn(t, pos);
    SubNames(nodes, t, pos);
    NewFirstNames(nodes, nodes', d, n);
    NamesPut(nodes, nodes', t, pos, d.(kids := [Tree(n, [])] + d.kids));
  }

  lemma {:induction false} SubNames(nodes: Nodes, t: Tree, pos: seq<nat>)
    requires NamesApart(nodes, t) && Reaches(t, pos)
    ensures NamesApart(nodes, Sub(t, pos))
    decreases |pos|
  {
    if pos != [] { SubNames(nodes, t.kids[pos[0]], pos[1..]); }
  }
}
