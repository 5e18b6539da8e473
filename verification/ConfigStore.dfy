// config_save and config_init of kernel/core/config.c over the filesystem.
module ConfigStore {
  import opened Strings
  import opened ConfigTable
  import opened ConfigRestart
  import opened ConfigBoot
  import opened Config
  import opened FileText
  import opened FsGrowth
  import opened Ramfs

  const CONFIG_NAME: string := "system.conf"
  const CONFIG_PATH: string := CONF_DIR + "/" + CONFIG_NAME

  lemma NameShort()
    ensures Short(CONFIG_NAME)
  {
  }

  // ---- Tables of C strings ----

  ghost predicate ByteTable(t: Table) {
    forall i :: 0 <= i < |t| ==> Bytewise(t[i].key) && Bytewise(t[i].val)
  }

  lemma LineBytewise(e: Entry)
    requires Bytewise(e.key) && Bytewise(e.val)
    ensures Bytewise(LineOf(e) + "\n")
  {
    BytewiseIs(e.key);
    BytewiseIs(e.val);
    BytewiseIs(LineOf(e) + "\n");
  }

  lemma {:induction false} BodyBytewise(t: Table)
    requires ByteTable(t)
    ensures Bytewise(Body(t))
    decreases |t|
  {
    if t != [] {
      BodyBytewise(t[1..]);
      LineBytewise(t[0]);
      BytewiseAppend(if t[0].used then LineOf(t[0]) + "\n" else "", Body(t[1..]));
    }
  }

  lemma SavedBytewise(t: Table)
    requires ByteTable(t)
    ensures Bytewise(Saved(t))
  {
    BodyBytewise(t);
    HeaderPlain();
    PlainThen(HEADER, Body(t));
  }

  lemma FirstPlain()
    ensures Plain(HEADER0)
  {
  }

  lemma SecondPlain()
    ensures Plain(HEADER1)
  {
  }

  lemma HeaderPlain()
    ensures Plain(HEADER)
  {
    FirstPlain();
    SecondPlain();
    PlainAppend(HEADER0, "\n");
    PlainAppend(HEADER0 + "\n", HEADER1);
    PlainAppend(HEADER0 + "\n" + HEADER1, "\n");
    PlainAppend(HEADER0 + "\n" + HEADER1 + "\n", "\n");
  }

  ghost predicate BytePairs(ds: seq<(string, string)>) {
    forall i :: 0 <= i < |ds| ==> Bytewise(ds[i].0) && Bytewise(ds[i].1)
  }

  ghost predicate PlainPairs(ds: seq<(string, string)>) {
    forall i :: 0 <= i < |ds| ==> Plain(ds[i].0) && Plain(ds[i].1)
  }

  lemma FrontPlain()
    ensures PlainPairs(DEFAULTS[..3])
  {
  }

  lemma MiddlePlain()
    ensures PlainPairs(DEFAULTS[3..6])
  {
  }

  lemma BackPlain()
    ensures PlainPairs(DEFAULTS[6..])
  {
  }

  lemma DefaultsBytewise()
    ensures BytePairs(DEFAULTS)
  {
    FrontPlain();
    MiddlePlain();
    BackPlain();
    assert DEFAULTS[3..][..3] == DEFAULTS[3..6] && DEFAULTS[3..][3..] == DEFAULTS[6..];
    BothPlain(DEFAULTS[3..], 3);
    BothPlain(DEFAULTS, 3);
    PlainIsBytewise(DEFAULTS);
  }

  lemma BothPlain(ds: seq<(string, string)>, n: nat)
    requires n <= |ds| && PlainPairs(ds[..n]) && PlainPairs(ds[n..])
    ensures PlainPairs(ds)
  {
    assert ds == ds[..n] + ds[n..];
  }

  lemma PlainIsBytewise(ds: seq<(string, string)>)
    requires PlainPairs(ds)
    ensures BytePairs(ds)
  {
    forall i | 0 <= i < |ds| ensures Bytewise(ds[i].0) && Bytewise(ds[i].1) {
      BytewiseIs(ds[i].0);
      BytewiseIs(ds[i].1);
    }
  }

  lemma {:induction false} CutBytewise(s: string, n: nat)
    requires Bytewise(s) && n > 0
    ensures Bytewise(Cut(s, n))
  {
    BytewiseIs(s);
    BytewiseIs(Cut(s, n));
  }

  lemma {:induction false} WithDefaultsBytewise(t: Table, ds: seq<(string, string)>)
    requires ByteTable(t) && BytePairs(ds)
    ensures ByteTable(WithDefaults(t, ds))
    decreases |ds|
  {
    if ds != [] {
      CutBytewise(ds[0].0, KEYLEN);
      CutBytewise(ds[0].1, VALLEN);
      assert BytePairs(ds[1..]) by { assert forall i :: 0 <= i < |ds[1..]| ==> ds[1..][i] == ds[i + 1]; }
      WithDefaultsBytewise(SetDefault(t, ds[0].0, ds[0].1), ds[1..]);
    }
  }

  // ---- Saving and loading ----

  // config_save: if done, the file reads the saved text.
  method ConfigSave(c: Config, fs: Fs) returns (ghost done: bool)
    requires c.Valid() && ByteTable(c.cfg[..]) && fs.Valid()
    modifies fs`nodes, fs`tree, fs.heap
    ensures fs.Valid()
    ensures done ==> FileAt(fs.nodes, fs.tree, fs.heap.mem, CONFIG_PATH) == Found(Saved(c.cfg[..]))
    ensures !done ==> CannotSave(fs.nodes, fs.tree, fs.heap.blocks, CONF_DIR, CONFIG_NAME, |Saved(c.cfg[..])|)
  {
    var buf := new char[BUFSIZE];
    var n := c.PrintConfig(buf);
    SavedBytewise(c.cfg[..]);
    ConfDirShort();
    NameShort();
    done := SaveText(fs, CONF_DIR, CONFIG_NAME, buf[..n]);
  }

  // config_init: the defaults, then the file if there is one with contents; if not, it is made.
  method ConfigInit(c: Config, fs: Fs) returns (ghost done: bool)
    requires c.Valid() && ByteTable(c.cfg[..]) && fs.Valid()
    modifies c.cfg, fs`nodes, fs`tree, fs.heap
    ensures c.Valid() && fs.Valid()
    ensures var start := WithDefaults(old(c.cfg[..]), DEFAULTS);
      match old(FileAt(fs.nodes, fs.tree, fs.heap.mem, CONFIG_PATH))
      case Found(text) => c.cfg[..] == Parse(start, text)
      case Missing =>
        && c.cfg[..] == start
        && (done ==> FileAt(fs.nodes, fs.tree, fs.heap.mem, CONFIG_PATH) == Found(Saved(start)))
  {
    DefaultsBytewise();
    WithDefaultsBytewise(c.cfg[..], DEFAULTS);
    done := false;
    SetDefaults(c, DEFAULTS);
    var l := LoadText(fs, CONFIG_PATH);
    match l
    case Found(text) => c.ParseText(text);
    case Missing => done := ConfigSave(c, fs);
  }

  // If t holds the defaults, t and next answer every get alike if and only if t survives.
  ghost predicate RestoredIff(t: Table, next: Table) {
    HiddenOneLine(t) && Firsts(DEFAULTS) <= KeysOf(t) ==> (SameAnswers(t, next) <==> Survives(t))
  }

  lemma {:induction false} RestartIff(t: Table, next: Table)
    requires Fits(t) && |t| == CFG_MAX && next == Parse(Boot(), Saved(t))
    ensures RestoredIff(t, next)
  {
    if HiddenOneLine(t) && Firsts(DEFAULTS) <= KeysOf(t) { BootRestoresIff(t); }
  }

  // config_init on a table that is still empty, over a filesystem that has t saved or not
  method Restart(fs: Fs, ghost t: Table) returns (next: Config)
    requires fs.Valid() && Fits(t) && |t| == CFG_MAX
    modifies fs`nodes, fs`tree, fs.heap
    ensures fresh(next) && fresh(next.cfg) && next.Valid() && fs.Valid()
    ensures old(FileAt(fs.nodes, fs.tree, fs.heap.mem, CONFIG_PATH)) == Found(Saved(t)) ==> RestoredIff(t, next.cfg[..])
  {
    ghost var file := FileAt(fs.nodes, fs.tree, fs.heap.mem, CONFIG_PATH);
    next := new Config();
    ghost var remade := ConfigInit(next, fs);
    if file == Found(Saved(t)) { RestartIff(t, next.cfg[..]); }
  }

  // A table saved and loaded into an empty one by config_init: every get answers as before if and
  // only if the table survives.
  method SaveAndRestart(c: Config, fs: Fs) returns (next: Config, ghost done: bool)
    requires c.Valid() && ByteTable(c.cfg[..]) && fs.Valid()
    modifies fs`nodes, fs`tree, fs.heap
    ensures next.Valid() && fs.Valid() && (done ==> RestoredIff(c.cfg[..], next.cfg[..]))
  {
    done := ConfigSave(c, fs);
    next := Restart(fs, c.cfg[..]);
  }
}
