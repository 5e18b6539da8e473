// config_init over a saved configuration: what survives a restart.
module ConfigBoot {
  import opened Strings
  import opened ConfigTable
  import opened ConfigExact
  import opened ConfigRestart
  import opened Config

  // ---- config_init ----

  const DEFAULTS: seq<(string, string)> := [
    ("ui.accent", "orange"), ("wm.wallpaper", "grid"), ("wm.border_radius", "8"), ("wm.titlebar_height", "22"),
    ("shell.prompt", "m1ke@m1keOS"), ("input.layout", "us"), ("scheduler.policy", "round-robin"),
    ("scheduler.quantum", "2"), ("net.enabled", "false"), ("net.hostname", "m1keos")]

  function SetDefault(t: Table, key: string, val: string): Table {
    if Find(t, key) < |t| then t else Set(t, key, val).0
  }

  // set_default for each pair
  function WithDefaults(t: Table, ds: seq<(string, string)>): Table
    decreases |ds|
  {
    if ds == [] then t else WithDefaults(SetDefault(t, ds[0].0, ds[0].1), ds[1..])
  }

  method SetOneDefault(c: Config, key: string, val: string)
    requires c.Valid()
    modifies c.cfg
    ensures c.Valid() && c.cfg[..] == SetDefault(old(c.cfg[..]), key, val)
  {
    var e := c.FindEntry(key);
    if e == CFG_MAX { var ok := c.ConfigSet(key, val); }
  }

  method SetDefaults(c: Config, ds: seq<(string, string)>)
    requires c.Valid()
    modifies c.cfg
    ensures c.Valid() && c.cfg[..] == WithDefaults(old(c.cfg[..]), ds)
  {
    var i := 0;
    assert ds[0..] == ds;
    while i < |ds|
      invariant i <= |ds| && c.Valid() && WithDefaults(c.cfg[..], ds[i..]) == WithDefaults(old(c.cfg[..]), ds)
    {
      assert ds[i..][1..] == ds[i + 1..];
      SetOneDefault(c, ds[i].0, ds[i].1);
      i := i + 1;
    }
  }

  ghost predicate ShortKeys(ds: seq<(string, string)>) {
    forall i :: 0 <= i < |ds| ==> |ds[i].0| < KEYLEN
  }

  ghost function Firsts(ds: seq<(string, string)>): set<string> {
    set i | 0 <= i < |ds| :: ds[i].0
  }

  lemma {:induction false} DefaultsKeep(t: Table, ds: seq<(string, string)>)
    requires Fits(t) && Distinct(t) && Packed(t) && ShortKeys(ds)
    ensures var r := WithDefaults(t, ds);
      Fits(r) && Distinct(r) && Packed(r) && |r| == |t| && KeysOf(r) <= KeysOf(t) + Firsts(ds)
    decreases |ds|
  {
    if ds != [] {
      var key, val := ds[0].0, ds[0].1;
      assert ShortKeys(ds[1..]) by { assert forall i :: 0 <= i < |ds[1..]| ==> ds[1..][i] == ds[i + 1]; }
      forall k | k in Firsts(ds[1..]) ensures k in Firsts(ds) {
        var i :| 0 <= i < |ds[1..]| && ds[1..][i].0 == k;
        assert ds[i + 1].0 == k;
      }
      if Find(t, key) < |t| {
        DefaultsKeep(t, ds[1..]);
      } else {
        var next := Set(t, key, val).0;
        SetKeeps(t, key, val);
        if Unused(t) < |t| { SetKeepsDistinctIff(t, key, val); }
        DefaultsKeep(next, ds[1..]);
        forall k | k in KeysOf(next) ensures k in KeysOf(t) + Firsts(ds) {
          SetKeys(t, key, val, k);
          assert ds[0].0 in Firsts(ds);
        }
      }
    }
  }

  lemma BlankTable(n: nat)
    ensures KeysOf(Blank(n)) == {} && Fits(Blank(n)) && Distinct(Blank(n)) && Packed(Blank(n))
    decreases n
  {
    if n > 0 {
      BlankTable(n - 1);
      assert Blank(n)[..n - 1] == Blank(n - 1);
    }
  }

  lemma DefaultsBelow()
    ensures forall i :: 0 <= i < |DEFAULTS| ==> |DEFAULTS[i].0| < KEYLEN - 1
  {
  }

  lemma DefaultsShort()
    ensures ShortKeys(DEFAULTS)
  {
    DefaultsBelow();
  }

  ghost predicate CleanPairs(ds: seq<(string, string)>) {
    forall i :: 0 <= i < |ds| ==> CleanKey(ds[i].0) && CleanVal(ds[i].1)
  }

  lemma FrontClean()
    ensures CleanPairs(DEFAULTS[..3])
  {
  }

  lemma MiddleClean()
    ensures CleanPairs(DEFAULTS[3..6])
  {
  }

  lemma BackClean()
    ensures CleanPairs(DEFAULTS[6..])
  {
  }

  lemma DefaultsClean()
    ensures CleanPairs(DEFAULTS)
  {
    FrontClean();
    MiddleClean();
    BackClean();
    assert DEFAULTS[3..][..3] == DEFAULTS[3..6] && DEFAULTS[3..][3..] == DEFAULTS[6..];
    BothClean(DEFAULTS[3..], 3);
    BothClean(DEFAULTS, 3);
  }

  lemma BothClean(ds: seq<(string, string)>, n: nat)
    requires n <= |ds| && CleanPairs(ds[..n]) && CleanPairs(ds[n..])
    ensures CleanPairs(ds)
  {
    assert ds == ds[..n] + ds[n..];
  }

  lemma {:induction false} DefaultsStayClean(t: Table, ds: seq<(string, string)>)
    requires Clean(t) && CleanPairs(ds)
    ensures Clean(WithDefaults(t, ds))
    decreases |ds|
  {
    if ds != [] {
      assert CleanPairs(ds[1..]) by { assert forall i :: 0 <= i < |ds[1..]| ==> ds[1..][i] == ds[i + 1]; }
      DefaultsStayClean(SetDefault(t, ds[0].0, ds[0].1), ds[1..]);
    }
  }

  // The table every machine starts with
  function Boot(): Table {
    WithDefaults(Blank(CFG_MAX), DEFAULTS)
  }

  lemma {:induction false} BootIs()
    ensures Fits(Boot()) && Distinct(Boot()) && Packed(Boot()) && Clean(Boot()) && |Boot()| == CFG_MAX
    ensures KeysOf(Boot()) <= Firsts(DEFAULTS)
  {
    DefaultsShort();
    DefaultsClean();
    BlankWith(DEFAULTS);
  }

  lemma {:induction false} BlankWith(ds: seq<(string, string)>)
    requires ShortKeys(ds) && CleanPairs(ds)
    ensures var t := WithDefaults(Blank(CFG_MAX), ds);
      Fits(t) && Distinct(t) && Packed(t) && Clean(t) && |t| == CFG_MAX && KeysOf(t) <= Firsts(ds)
  {
    BlankTable(CFG_MAX);
    DefaultsKeep(Blank(CFG_MAX), ds);
    DefaultsStayClean(Blank(CFG_MAX), ds);
  }

  lemma {:induction false} BootWithin(t: Table)
    requires |t| == CFG_MAX && Firsts(DEFAULTS) <= KeysOf(t)
    ensures Within(Boot(), t)
  {
    BootIs();
  }

  // The table a machine saved, its defaults included, answers every get after the next start as
  // before, if and only if it survives.
  lemma {:induction false} BootRestoresIff(t: Table)
    requires Fits(t) && HiddenOneLine(t) && |t| == CFG_MAX && Firsts(DEFAULTS) <= KeysOf(t)
    ensures SameAnswers(t, Parse(Boot(), Saved(t))) <==> Survives(t)
  {
    BootIs();
    RestartKeepsIff(Boot(), t);
  }

  // ---- Every table a machine can have ----

  // Keys that are there stay there.
  lemma {:induction false} KeysKept(t: Table, next: Table)
    requires |t| == |next| && forall i :: 0 <= i < |t| && t[i].used ==> Holds(next[i], t[i].key)
    ensures KeysOf(t) <= KeysOf(next)
  {
    forall k | k in KeysOf(t) ensures k in KeysOf(next) {
      KeysAre(t, k);
      KeysAre(next, k);
      assert Holds(next[Find(t, k)], k);
    }
  }

  // A table of distinct keys fills no more slots than it has keys.
  lemma {:induction false} UnusedBound(t: Table, n: nat)
    requires Distinct(t) && |KeysOf(t)| <= n
    ensures Unused(t) <= n
  {
    var front := t[..Unused(t)];
    KeysExact(front);
    forall k | k in KeysOf(front) ensures k in KeysOf(t) {
      KeysAre(front, k);
      KeysAre(t, k);
      assert Holds(t[Find(front, k)], k);
    }
    Fewer(KeysOf(front), KeysOf(t));
  }

  // What holds of the table between two calls.
  ghost predicate Usual(t: Table) {
    Fits(t) && Packed(t) && OneLine(t) && |t| == CFG_MAX && Firsts(DEFAULTS) <= KeysOf(t)
  }

  lemma {:induction false} SetKeepsKeys(t: Table, key: string, val: string)
    ensures KeysOf(t) <= KeysOf(Set(t, key, val).0)
  {
    KeysKept(t, Set(t, key, val).0);
  }

  lemma {:induction false} SetStaysUsual(t: Table, key: string, val: string)
    requires Usual(t) && '\n' !in key && '\n' !in val
    ensures Usual(Set(t, key, val).0)
  {
    SetKeeps(t, key, val);
    SetStaysOne(t, key, val);
    SetKeepsKeys(t, key, val);
  }

  lemma {:induction false} LineStaysUsual(t: Table, line: string)
    requires Usual(t) && '\n' !in line
    ensures Usual(LineDone(t, line))
  {
    LineStaysOne(t, line);
    var s := SkipBlanks(line);
    var e := Equals(s);
    if s != "" && s[0] != '#' && e < |s| {
      var k, v := TrimKey(s[..e]), TrimVal(SkipBlanks(s[e + 1..]));
      SetKeeps(t, k, v);
      SetKeepsKeys(t, k, v);
    }
  }

  lemma {:induction false} ParsedIsUsual(t: Table, line: string, text: string)
    requires Usual(t) && '\n' !in line
    ensures Usual(ParseFrom(t, line, text))
    decreases |text|
  {
    LineStaysUsual(t, line);
    if text == "" {
    } else if text[0] == '\n' {
      ParsedIsUsual(LineDone(t, line), "", text[1..]);
    } else {
      ParsedIsUsual(t, AddChar(line, text[0]), text[1..]);
    }
  }

  // config_set for each pair
  function SetEach(t: Table, kvs: seq<(string, string)>): Table
    decreases |kvs|
  {
    if kvs == [] then t else SetEach(Set(t, kvs[0].0, kvs[0].1).0, kvs[1..])
  }

  ghost predicate OneLinePairs(kvs: seq<(string, string)>) {
    forall i :: 0 <= i < |kvs| ==> '\n' !in kvs[i].0 && '\n' !in kvs[i].1
  }

  lemma {:induction false} RunIsUsual(t: Table, kvs: seq<(string, string)>)
    requires Usual(t) && OneLinePairs(kvs)
    ensures Usual(SetEach(t, kvs))
    decreases |kvs|
  {
    if kvs != [] {
      SetStaysUsual(t, kvs[0].0, kvs[0].1);
      assert OneLinePairs(kvs[1..]) by { assert forall i :: 0 <= i < |kvs| - 1 ==> kvs[1..][i] == kvs[i + 1]; }
      RunIsUsual(Set(t, kvs[0].0, kvs[0].1).0, kvs[1..]);
    }
  }

  lemma {:induction false} SetDefaultKeeps(t: Table, key: string, val: string)
    requires Fits(t) && Distinct(t) && Packed(t) && |KeysOf(t)| < |t| && |key| < KEYLEN
    ensures var next := SetDefault(t, key, val);
      && Fits(next) && Distinct(next) && Packed(next) && |next| == |t|
      && key in KeysOf(next) && KeysOf(t) <= KeysOf(next) && |KeysOf(next)| <= |KeysOf(t)| + 1
  {
    var next := SetDefault(t, key, val);
    KeysAre(t, key);
    KeysAre(next, key);
    if Find(t, key) == |t| {
      UnusedBound(t, |KeysOf(t)|);
      SetKeeps(t, key, val);
      SetKeepsDistinctIff(t, key, val);
      GetAfterSetIff(t, key, val);
      SetKeepsKeys(t, key, val);
      forall k | k in KeysOf(next) ensures k in KeysOf(t) + {key} { SetKeys(t, key, val, k); }
      Fewer(KeysOf(next), KeysOf(t) + {key});
    }
  }

  // With room for all of them, the defaults are there afterwards.
  lemma {:induction false} DefaultsHeld(t: Table, ds: seq<(string, string)>)
    requires Fits(t) && Distinct(t) && Packed(t) && ShortKeys(ds) && |KeysOf(t)| + |ds| <= |t|
    ensures KeysOf(t) + Firsts(ds) <= KeysOf(WithDefaults(t, ds))
    decreases |ds|
  {
    if ds != [] {
      var rest := ds[1..];
      assert forall i :: 0 <= i < |rest| ==> rest[i] == ds[i + 1];
      SetDefaultKeeps(t, ds[0].0, ds[0].1);
      DefaultsHeld(SetDefault(t, ds[0].0, ds[0].1), rest);
      forall k | k in Firsts(ds) && k != ds[0].0 ensures k in Firsts(rest) {
        var i :| 0 <= i < |ds| && ds[i].0 == k;
        assert rest[i - 1].0 == k;
      }
    }
  }

  lemma DefaultsLength()
    ensures |DEFAULTS| == 10
  {
  }

  lemma {:induction false} BootIsUsual()
    ensures Usual(Boot())
  {
    BootIs();
    OthersOneLine(Boot());
    DefaultsLength();
    DefaultsShort();
    BlankTable(CFG_MAX);
    DefaultsHeld(Blank(CFG_MAX), DEFAULTS);
  }

  // A machine starts with any file and any calls of config_set follow, as they come from a command
  // line: every get answers after the next start as before, if and only if the table survives.
  lemma {:induction false} RunRestoresIff(text: string, kvs: seq<(string, string)>)
    requires OneLinePairs(kvs)
    ensures var t := SetEach(Parse(Boot(), text), kvs); SameAnswers(t, Parse(Boot(), Saved(t))) <==> Survives(t)
  {
    BootIsUsual();
    ParsedIsUsual(Boot(), "", text);
    RunIsUsual(Parse(Boot(), text), kvs);
    BootRestoresIff(SetEach(Parse(Boot(), text), kvs));
  }

  // ---- A key set twice ----

  // config_set with a key that does not fit, done twice, takes two slots; a get of the key as it
  // was cut finds the first value.
  lemma {:induction false} LongKeySetTwice(t: Table, key: string)
    requires Fits(t) && Packed(t) && |key| >= KEYLEN && Find(t, Cut(key, KEYLEN)) == |t| && Unused(t) + 1 < |t|
    ensures var (t2, j, c) := (SetTwice(t, key), Unused(t), Cut(key, KEYLEN));
      && t2 == t[j := Entry(c, "1", true)][j + 1 := Entry(c, "2", true)]
      && Fits(t2) && Packed(t2) && Find(t2, c) == j && Get(t2, c, "") == "1"
  {
    var t1, j, c := Set(t, key, "1").0, Unused(t), Cut(key, KEYLEN);
    FindIs(t, key, |t|);
    FindIs(t1, key, |t|);
    UnusedIs(t1, j + 1);
    SetKeeps(t, key, "1");
    SetKeeps(t1, key, "2");
    FindIs(SetTwice(t, key), c, j);
  }

  function SetTwice(t: Table, key: string): Table {
    Set(Set(t, key, "1").0, key, "2").0
  }

  // After the next start, it finds the second.
  lemma {:induction false} LongKeyChanges(t: Table, key: string)
    requires Fits(t) && Packed(t) && Clean(t) && |t| == CFG_MAX && Firsts(DEFAULTS) <= KeysOf(t)
    requires |key| >= KEYLEN && CleanKey(Cut(key, KEYLEN)) && Find(t, Cut(key, KEYLEN)) == |t| && Unused(t) + 1 < |t|
    ensures var (t2, c) := (SetTwice(t, key), Cut(key, KEYLEN));
      Clean(t2) && Get(t2, c, "") == "1" && Get(Parse(Boot(), Saved(t2)), c, "") == "2"
  {
    LongKeySetTwice(t, key);
    TwoMoreClean(t, Unused(t), Cut(key, KEYLEN), SetTwice(t, key));
    KeysKept(t, SetTwice(t, key));
    BootWithin(SetTwice(t, key));
    LastAnswers(Boot(), SetTwice(t, key), Unused(t) + 1);
  }

  lemma {:induction false} TwoMoreClean(t: Table, j: nat, c: string, t2: Table)
    requires Clean(t) && CleanKey(c) && j + 1 < |t| && t2 == t[j := Entry(c, "1", true)][j + 1 := Entry(c, "2", true)]
    requires Find(t, c) == |t|
    ensures Clean(t2) && IsLast(t2, j + 1)
  {
    assert CleanVal("1") && CleanVal("2");
    assert forall k :: j + 1 < k < |t| ==> t2[k] == t[k] && !Holds(t[k], c);
  }

  // So it is on a machine that has just been started for the first time.
  lemma {:induction false} LongKeyOnFreshMachine(key: string)
    requires |key| >= KEYLEN && CleanKey(Cut(key, KEYLEN))
    ensures var (t, c) := (SetTwice(Boot(), key), Cut(key, KEYLEN));
      Get(t, c, "") == "1" && Get(Parse(Boot(), Saved(t)), c, "") == "2"
  {
    BootIs();
    BootIsUsual();
    BootHasRoom(Cut(key, KEYLEN));
    LongKeyChanges(Boot(), key);
  }

  lemma {:induction false} BootHasRoom(key: string)
    requires |key| == KEYLEN - 1
    ensures Find(Boot(), key) == CFG_MAX && Unused(Boot()) + 1 < CFG_MAX
  {
    BootIs();
    DefaultsLength();
    DefaultsBelow();
    FirstsBound(DEFAULTS);
    Fewer(KeysOf(Boot()), Firsts(DEFAULTS));
    UnusedBound(Boot(), |DEFAULTS|);
    KeysAre(Boot(), key);
  }

  lemma {:induction false} FirstsBound(ds: seq<(string, string)>)
    ensures |Firsts(ds)| <= |ds|
    decreases |ds|
  {
    var n := |ds| - 1;
    if ds != [] {
      FirstsBound(ds[..n]);
      assert Firsts(ds) <= Firsts(ds[..n]) + {ds[n].0} by {
        forall k | k in Firsts(ds) ensures k in Firsts(ds[..n]) + {ds[n].0} {
          var i :| 0 <= i < |ds| && ds[i].0 == k;
          if i < n { assert ds[..n][i].0 == k; }
        }
      }
      Fewer(Firsts(ds), Firsts(ds[..n]) + {ds[n].0});
    }
  }
}
