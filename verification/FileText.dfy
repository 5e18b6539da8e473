// Strings in files: what fs_put stores is the C string that config_init and theme_reload find
// behind the data pointer of the node fs_resolve returns.
module FileText {
  import opened Memory
  import opened BlockList
  import opened Heap
  import opened FsTree
  import opened FsPaths
  import opened FsGrowth
  import opened Ramfs

  // The characters a C string can hold: bytes other than NUL.
  predicate Bytewise(s: string) {
    s == "" || (0 < s[0] as int < 0x100 && Bytewise(s[1..]))
  }

  type CString = s: string | Bytewise(s)

  lemma {:induction false} BytewiseIs(s: string)
    ensures Bytewise(s) <==> Plain(s)
    decreases |s|
  {
    if s != "" {
      BytewiseIs(s[1..]);
      if Bytewise(s) {
        forall i | 0 <= i < |s| ensures 0 < s[i] as int < 0x100 {
          if i > 0 { assert s[i] == s[1..][i - 1]; }
        }
      }
    }
  }

  lemma {:induction false} BytewiseAppend(s: string, t: string)
    requires Bytewise(s) && Bytewise(t)
    ensures Bytewise(s + t)
    decreases |s|
  {
    if s == "" {
      assert s + t == t;
    } else {
      BytewiseAppend(s[1..], t);
      assert (s + t)[1..] == s[1..] + t;
    }
  }

  // The same, told of the characters one by one, for text that is given in full
  predicate Plain(s: string) {
    forall i :: 0 <= i < |s| ==> 0 < s[i] as int < 0x100
  }

  lemma PlainAppend(s: string, t: string)
    requires Plain(s) && Plain(t)
    ensures Plain(s + t)
  {
  }

  lemma {:induction false} PlainThen(s: string, t: string)
    requires Plain(s) && Bytewise(t)
    ensures Bytewise(s + t)
  {
    BytewiseIs(s);
    BytewiseAppend(s, t);
  }

  function Encoded(s: string): (b: seq<byte>)
    requires Bytewise(s)
    ensures |b| == |s|
  {
    BytewiseIs(s);
    seq(|s|, i requires 0 <= i < |s| => s[i] as int)
  }

  // The C string at address a.
  function TextAt(m: seq<byte>, a: nat): string
    decreases |m| - a
  {
    if a >= |m| || m[a] == 0 then "" else [m[a] as char] + TextAt(m, a + 1)
  }

  lemma {:induction false} TextOfBytes(m: seq<byte>, a: nat, s: string)
    requires Bytewise(s) && a + |s| < |m| && m[a..a + |s|] == Encoded(s) && m[a + |s|] == 0
    ensures TextAt(m, a) == s
    decreases |s|
  {
    if s != "" {
      assert m[a] == m[a..a + |s|][0] == s[0] as int;
      assert Encoded(s)[1..] == Encoded(s[1..]) && m[a + 1..a + |s|] == m[a..a + |s|][1..];
      TextOfBytes(m, a + 1, s[1..]);
    }
  }

  // Following the string to its terminator.
  method ReadText(heap: Arena, a: nat) returns (s: string)
    ensures s == TextAt(heap.mem, a)
  {
    s := "";
    var i := a;
    while i < |heap.mem| && heap.mem[i] != 0
      invariant i >= a && s + TextAt(heap.mem, i) == TextAt(heap.mem, a)
      decreases |heap.mem| - i
    {
      s := s + [heap.mem[i] as char];
      i := i + 1;
    }
  }

  // The node that a path leads to from the root, NULL for none.
  ghost function NodeAt(nodes: Nodes, t: Tree, path: string): nat {
    var w := Walk(nodes, t, [], Comps(path));
    if w.At? then Sub(t, w.pos).p else NULL
  }

  ghost predicate HasText(nodes: Nodes, p: nat) {
    p in nodes && !nodes[p].isDir && nodes[p].data != NULL
  }

  datatype Loaded = Missing | Found(text: string)

  // What a reader finds at this path.
  ghost function FileAt(nodes: Nodes, t: Tree, m: seq<byte>, path: string): Loaded {
    var p := NodeAt(nodes, t, path);
    if HasText(nodes, p) then Found(TextAt(m, nodes[p].data)) else Missing
  }

  // A file that reads the bytes of s has s in it.
  lemma {:induction false} FoundIs(nodes: Nodes, t: Tree, m: seq<byte>, path: string, s: string)
    requires Bytewise(s) && Reads(nodes, m, NodeAt(nodes, t, path), Encoded(s))
    ensures FileAt(nodes, t, m, path) == Found(s)
  {
    var n := nodes[NodeAt(nodes, t, path)];
    TextOfBytes(m, n.data, s);
  }

  // fs_resolve(fs_root(), path), and the text of what it finds if that is a file with contents
  method LoadText(fs: Fs, path: string) returns (l: Loaded)
    requires fs.Valid()
    ensures l == FileAt(fs.nodes, fs.tree, fs.heap.mem, path)
  {
    RootWhere(fs.tree);
    LinkedInMap(fs.nodes, fs.tree, NULL, NULL);
    var p := fs.FsResolve(fs.root, path);
    l := Missing;
    if p != NULL {
      SubIn(fs.tree, Walk(fs.nodes, fs.tree, [], Comps(path)).pos);
      if !fs.nodes[p].isDir && fs.nodes[p].data != NULL {
        var text := ReadText(fs.heap, fs.nodes[p].data);
        l := Found(text);
      }
    }
  }

  lemma {:induction false} RootWhere(t: Tree)
    ensures t.p in Ptrs(t) && Where(t, t.p) == []
  {
  }

  // The directory of the configuration and of the theme
  const CONF_DIR: string := "/etc/m1ke"

  lemma {:induction false} ConfDirComps()
    ensures Comps(CONF_DIR) == ["etc", "m1ke"]
  {
    var ns := ["etc", "m1ke"];
    assert Join(ns[1..]) == "/" + "m1ke" + Join(ns[1..][1..]);
    assert Join(ns) == CONF_DIR;
    CompsJoin(ns);
  }

  lemma ConfNamesShort()
    ensures Short("etc") && Short("m1ke")
  {
  }

  lemma {:induction false} ConfDirShort()
    ensures AllShort(Comps(CONF_DIR))
  {
    ConfDirComps();
    ConfNamesShort();
  }

  // fs_put(dir "/" name, text)
  method PutText(fs: Fs, dir: string, name: string, text: seq<byte>) returns (r: nat, ghost stored: bool)
    requires fs.Valid() && |text| < MAX_REQUEST && '/' !in name && |name| < NAME_MAX
    modifies fs`nodes, fs`tree, fs.heap
    ensures fs.Valid()
    ensures r == NULL ==> |dir| >= DIR_MAX || PutStuck(fs.nodes, fs.tree, fs.heap.blocks, CutAll(Comps(dir)), name)
    ensures r != NULL ==> Filed(fs.nodes, fs.tree, CutAll(Comps(dir)), name, r)
    ensures r != NULL && stored ==> Reads(fs.nodes, fs.heap.mem, r, text)
    ensures r != NULL && !stored ==>
      r in fs.nodes && (fs.nodes[r].isDir || NoSpace(fs.nodes[r], fs.heap.blocks, 0, |text|))
    ensures old(NamesApart(fs.nodes, fs.tree)) ==> NamesApart(fs.nodes, fs.tree)
  {
    SplitIs(dir, name);
    r, stored := fs.FsPut(dir + "/" + name, text);
  }

  // fs_mkdir_p(dir); fs_put(dir "/" name, text): done says that the text is in the file.
  method SaveText(fs: Fs, dir: string, name: string, text: CString) returns (ghost done: bool)
    requires fs.Valid() && |text| < MAX_REQUEST
    requires AllShort(Comps(dir)) && Short(name)
    modifies fs`nodes, fs`tree, fs.heap
    ensures fs.Valid()
    ensures done ==> FileAt(fs.nodes, fs.tree, fs.heap.mem, dir + "/" + name) == Found(text)
    ensures !done ==> CannotSave(fs.nodes, fs.tree, fs.heap.blocks, dir, name, |text|)
    ensures old(NamesApart(fs.nodes, fs.tree)) ==> NamesApart(fs.nodes, fs.tree)
  {
    var made := fs.FsMkdirP(dir);
    var r: nat;
    r, done := PutText(fs, dir, name, Encoded(text));
    done := done && r != NULL;
    if r != NULL { fs.PutResolvesIff(dir, name, r); }
    SaveSeen(fs.nodes, fs.tree, fs.heap.mem, fs.heap.blocks, dir, name, text, r, done);
  }

  lemma {:induction false} SaveSeen(nodes: Nodes, t: Tree, m: seq<byte>, bs: seq<Block>, dir: string, name: string,
                                    text: CString, r: nat, done: bool)
    requires r == NULL ==> !done && (|dir| >= DIR_MAX || PutStuck(nodes, t, bs, CutAll(Comps(dir)), name))
    requires r != NULL ==> NodeAt(nodes, t, dir + "/" + name) == r && r in nodes
    requires done ==> Reads(nodes, m, r, Encoded(text))
    requires r != NULL && !done ==> nodes[r].isDir || NoSpace(nodes[r], bs, 0, |text|)
    ensures done ==> FileAt(nodes, t, m, dir + "/" + name) == Found(text)
    ensures !done ==> CannotSave(nodes, t, bs, dir, name, |text|)
  {
    if done { FoundIs(nodes, t, m, dir + "/" + name, text); }
  }

  // ... for some text shorter than max
  ghost predicate CannotSaveBelow(nodes: Nodes, t: Tree, bs: seq<Block>, dir: string, name: string, max: nat) {
    exists len: nat :: len < max && CannotSave(nodes, t, bs, dir, name, len)
  }

  // Why a text is not in its file: there is no way to make the file, or it is a directory, or
  // krealloc has no room for the text.
  ghost predicate CannotSave(nodes: Nodes, t: Tree, bs: seq<Block>, dir: string, name: string, len: nat) {
    || |dir| >= DIR_MAX || PutStuck(nodes, t, bs, CutAll(Comps(dir)), name)
    || (var p := NodeAt(nodes, t, dir + "/" + name); p in nodes && (nodes[p].isDir || NoSpace(nodes[p], bs, 0, len)))
  }
}
