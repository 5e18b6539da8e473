// The key/value table of kernel/core/config.c and its text form, as values: what setting, saving
// and parsing do, and how the two text directions fit together.
module ConfigTable {
  import opened Strings

  const CFG_MAX: nat := 96
  const KEYLEN: nat := 48
  const VALLEN: nat := 80
  const LINE: nat := KEYLEN + VALLEN + 4

  datatype Entry = Entry(key: string, val: string, used: bool)

  type Table = seq<Entry>

  predicate Holds(e: Entry, key: string) {
    e.used && e.key == key
  }

  // find
  function Find(t: Table, key: string): (i: nat)
    ensures i <= |t| && (i < |t| ==> Holds(t[i], key))
    ensures forall j :: 0 <= j < i ==> !Holds(t[j], key)
  {
    if t == [] || Holds(t[0], key) then 0 else 1 + Find(t[1..], key)
  }

  function Unused(t: Table): (i: nat)
    ensures i <= |t| && (i < |t| ==> !t[i].used)
    ensures forall j :: 0 <= j < i ==> t[j].used
  {
    if t == [] || !t[0].used then 0 else 1 + Unused(t[1..])
  }

  // config_set
  function Set(t: Table, key: string, val: string): (Table, bool) {
    var i, j := Find(t, key), Unused(t);
    if i < |t| then (t[i := t[i].(val := Cut(val, VALLEN))], true)
    else if j < |t| then (t[j := Entry(Cut(key, KEYLEN), Cut(val, VALLEN), true)], true)
    else (t, false)
  }

  // config_get
  function Get(t: Table, key: string, def: string): string {
    if Find(t, key) < |t| then t[Find(t, key)].val else def
  }

  // ---- Parsing ----

  function TrimKey(s: string): (r: string)
    ensures r <= s
  {
    if s != "" && IsBlank(s[|s| - 1]) then TrimKey(s[..|s| - 1]) else s
  }

  function TrimVal(s: string): (r: string)
    ensures r <= s
  {
    if s != "" && (IsBlank(s[|s| - 1]) || s[|s| - 1] == '\r') then TrimVal(s[..|s| - 1]) else s
  }

  // strchr(s, '='), or |s| for none
  function Equals(s: string): (i: nat)
    ensures i <= |s| && (i < |s| ==> s[i] == '=')
    ensures forall j :: 0 <= j < i ==> s[j] != '='
  {
    if s == "" || s[0] == '=' then 0 else 1 + Equals(s[1..])
  }

  // What one complete line does.
  function LineDone(t: Table, line: string): Table {
    var s := SkipBlanks(line);
    var e := Equals(s);
    if s == "" || s[0] == '#' || e == |s| then t
    else
      var k := TrimKey(s[..e]);
      if k == "" then t else Set(t, k, TrimVal(SkipBlanks(s[e + 1..]))).0
  }

  function AddChar(line: string, c: char): string {
    if |line| < LINE - 1 then line + [c] else line
  }

  // parse, with `line` already collected; the end of the text ends the last line.
  function ParseFrom(t: Table, line: string, text: string): Table
    decreases |text|
  {
    if text == "" then LineDone(t, line)
    else if text[0] == '\n' then ParseFrom(LineDone(t, line), "", text[1..])
    else ParseFrom(t, AddChar(line, text[0]), text[1..])
  }

  function Parse(t: Table, text: string): Table {
    ParseFrom(t, "", text)
  }

  // ---- Saving ----

  const HEADER0: string := "# m1keOS system configuration"
  const HEADER1: string := "# editable text - versionable with git"
  const HEADER: string := HEADER0 + "\n" + HEADER1 + "\n" + "\n"

  function LineOf(e: Entry): string {
    e.key + " = " + e.val
  }

  function Body(t: Table): string {
    if t == [] then "" else (if t[0].used then LineOf(t[0]) + "\n" else "") + Body(t[1..])
  }

  function Saved(t: Table): string {
    HEADER + Body(t)
  }

  // ---- What every table satisfies ----

  // Strings fit their fields, and unused slots are still as the kernel image has them.
  ghost predicate Fits(t: Table) {
    forall i :: 0 <= i < |t| ==>
      |t[i].key| < KEYLEN && |t[i].val| < VALLEN && (!t[i].used ==> t[i] == Entry("", "", false))
  }

  // No slot behind an unused one is used.
  ghost predicate Packed(t: Table) {
    forall i, j :: 0 <= i < j < |t| && t[j].used ==> t[i].used
  }

  ghost predicate Distinct(t: Table) {
    forall i, j :: 0 <= i < j < |t| && t[i].used && t[j].used ==> t[i].key != t[j].key
  }

  lemma SetKeeps(t: Table, key: string, val: string)
    requires Fits(t) && Packed(t)
    ensures Fits(Set(t, key, val).0) && Packed(Set(t, key, val).0) && |Set(t, key, val).0| == |t|
  {
  }

  // Setting a key and getting its value back works exactly for keys and values that fit. A longer
  // value comes back cut; a longer key is stored cut and is never found, so every further set
  // takes another slot.
  lemma {:induction false} GetAfterSetIff(t: Table, key: string, val: string)
    requires Fits(t) && Set(t, key, val).1
    ensures var t' := Set(t, key, val).0;
      && (Find(t', key) < |t'| <==> |key| < KEYLEN)
      && (|key| < KEYLEN ==> Get(t', key, "") == Cut(val, VALLEN))
      && (Find(t', key) < |t'| && Get(t', key, "") == val <==> |key| < KEYLEN && |val| < VALLEN)
  {
    var t' := Set(t, key, val).0;
    var i := Find(t', key);
    if i < |t'| {
      assert t'[i].key == key;
    }
    if |key| < KEYLEN {
      if Find(t, key) < |t| { FindIs(t', key, Find(t, key)); } else { FindIs(t', key, Unused(t)); }
    }
  }

  lemma {:induction false} FindIs(t: Table, key: string, i: nat)
    requires i <= |t| && (i < |t| ==> Holds(t[i], key)) && forall j :: 0 <= j < i ==> !Holds(t[j], key)
    ensures Find(t, key) == i
  {
  }

  lemma {:induction false} UnusedIs(t: Table, i: nat)
    requires i <= |t| && (i < |t| ==> !t[i].used) && forall j :: 0 <= j < i ==> t[j].used
    ensures Unused(t) == i
  {
  }

  // Keys stay distinct exactly when the key fits or its cut form is not taken.
  lemma {:induction false} SetKeepsDistinctIff(t: Table, key: string, val: string)
    requires Fits(t) && Distinct(t) && Find(t, key) == |t| && Unused(t) < |t|
    ensures Distinct(Set(t, key, val).0) <==> |key| < KEYLEN || Find(t, key[..KEYLEN - 1]) == |t|
  {
    var t' := Set(t, key, val).0;
    var j := Unused(t);
    var k := Find(t, Cut(key, KEYLEN));
    if k < |t| {
      assert t'[k] == t[k] && t'[j].key == t'[k].key && j != k;
    }
  }

  // A get of any other key is not affected.
  lemma SetKeepsOthers(t: Table, key: string, val: string, other: string, def: string)
    requires other != key && other != Cut(key, KEYLEN)
    ensures Get(Set(t, key, val).0, other, def) == Get(t, other, def)
  {
    var t' := Set(t, key, val).0;
    var i := Find(t, other);
    assert i < |t| ==> t'[i] == t[i];
    forall j | 0 <= j < i ensures !Holds(t'[j], other) { assert !Holds(t[j], other); }
    FindIs(t', other, i);
  }

  // ---- The round trip ----

  predicate CleanKey(k: string) {
    && k != "" && |k| < KEYLEN && k[0] != '#' && !IsBlank(k[0]) && !IsBlank(k[|k| - 1])
    && '=' !in k && '\n' !in k
  }

  predicate CleanVal(v: string) {
    && |v| < VALLEN && '\n' !in v
    && (v != "" ==> !IsBlank(v[0]) && !IsBlank(v[|v| - 1]) && v[|v| - 1] != '\r')
  }

  ghost predicate Clean(t: Table) {
    forall i :: 0 <= i < |t| && t[i].used ==> CleanKey(t[i].key) && CleanVal(t[i].val)
  }

  // A line that fits reaches LineDone uncut.
  lemma {:induction false} LineRead(t: Table, line: string, more: string, rest: string)
    requires '\n' !in more && |line| + |more| < LINE
    ensures ParseFrom(t, line, more + "\n" + rest) == ParseFrom(LineDone(t, line + more), "", rest)
    decreases |more|
  {
    var text := more + "\n" + rest;
    if more == "" {
      assert line + more == line && text[1..] == rest;
    } else {
      assert text[1..] == more[1..] + "\n" + rest;
      assert (line + [more[0]]) + more[1..] == line + more;
      LineRead(t, line + [more[0]], more[1..], rest);
    }
  }

  lemma {:induction false} EqualsIs(s: string, i: nat)
    requires i <= |s| && (i < |s| ==> s[i] == '=') && forall j :: 0 <= j < i ==> s[j] != '='
    ensures Equals(s) == i
  {
  }

  // Where the parser cuts a saved line: at the '=' behind the key.
  lemma LineCut(e: Entry)
    requires CleanKey(e.key)
    ensures var s, n := LineOf(e), |e.key| + 1;
      && SkipBlanks(s) == s && n < |s| && Equals(s) == n && TrimKey(s[..n]) == e.key
      && SkipBlanks(s[n + 1..]) == SkipBlanks(e.val)
  {
    var s := LineOf(e);
    var n := |e.key|;
    assert s[0] == e.key[0] && SkipBlanks(s) == s;
    EqualsIs(s, n + 1);
    assert s[..n + 1] == e.key + " ";
    assert (e.key + " ")[..n] == e.key && TrimKey(e.key + " ") == TrimKey(e.key) == e.key;
    var v := " " + e.val;
    assert s[n + 2..] == v && v[1..] == e.val;
  }

  // A saved line sets its entry.
  lemma LineSets(t: Table, e: Entry)
    requires CleanKey(e.key) && CleanVal(e.val)
    ensures LineDone(t, LineOf(e)) == Set(t, e.key, e.val).0
  {
    LineCut(e);
    assert SkipBlanks(e.val) == e.val;
  }

  lemma NoNewline(e: Entry)
    requires CleanKey(e.key) && CleanVal(e.val)
    ensures '\n' !in LineOf(e) && |LineOf(e)| < LINE
  {
  }

  lemma CommentSkipped(t: Table, line: string, rest: string)
    requires '\n' !in line && |line| < LINE && (line == "" || line[0] == '#')
    ensures Parse(t, line + "\n" + rest) == Parse(t, rest)
  {
    LineRead(t, "", line, rest);
    assert "" + line == line;
  }

  lemma HeaderSkipped(t: Table, rest: string)
    ensures Parse(t, HEADER + rest) == Parse(t, rest)
  {
    var r1 := HEADER1 + "\n" + ("" + "\n" + rest);
    assert HEADER + rest == HEADER0 + "\n" + r1;
    CommentSkipped(t, HEADER0, r1);
    CommentSkipped(t, HEADER1, "" + "\n" + rest);
    CommentSkipped(t, "", rest);
  }

  // What parsing the saved entries does: each is set in turn.
  function SetAll(t: Table, es: Table): Table
    decreases |es|
  {
    if es == [] then t
    else SetAll(if es[0].used then Set(t, es[0].key, es[0].val).0 else t, es[1..])
  }

  lemma {:induction false} BodyParsed(t: Table, es: Table)
    requires Clean(es)
    ensures Parse(t, Body(es)) == SetAll(t, es)
    decreases |es|
  {
    if es == [] {
    } else if es[0].used {
      var e := es[0];
      NoNewline(e);
      assert Body(es) == LineOf(e) + "\n" + Body(es[1..]);
      LineRead(t, "", LineOf(e), Body(es[1..]));
      assert "" + LineOf(e) == LineOf(e);
      LineSets(t, e);
      BodyParsed(Set(t, e.key, e.val).0, es[1..]);
    } else {
      assert "" + Body(es[1..]) == Body(es[1..]);
      BodyParsed(t, es[1..]);
    }
  }

  lemma {:induction false} SavedParsed(t: Table, es: Table)
    requires Clean(es)
    ensures Parse(t, Saved(es)) == SetAll(t, es)
  {
    HeaderSkipped(t, Body(es));
    BodyParsed(t, es);
  }

  function Blank(n: nat): Table {
    seq(n, _ => Entry("", "", false))
  }

  // Into an empty table, the text rebuilds the table, slot for slot.
  lemma ReloadRebuilds(t: Table)
    requires Clean(t) && Distinct(t) && Packed(t) && Fits(t)
    ensures Parse(Blank(|t|), Saved(t)) == t
  {
    SavedParsed(Blank(|t|), t);
    SetAllRebuilds(t, 0);
    assert t[0..] == t && t[..0] + Blank(|t|) == Blank(|t|);
  }

  lemma SetAllRebuilds(t: Table, i: nat)
    requires Clean(t) && Distinct(t) && Packed(t) && Fits(t) && i <= |t|
    ensures SetAll(t[..i] + Blank(|t| - i), t[i..]) == t
    decreases |t| - i
  {
    var cur := t[..i] + Blank(|t| - i);
    if i < |t| {
      assert t[i..][1..] == t[i + 1..];
      var next := t[..i + 1] + Blank(|t| - (i + 1));
      if t[i].used {
        FindIs(cur, t[i].key, |t|);
        UnusedIs(cur, i);
        assert Set(cur, t[i].key, t[i].val).0 == next;
      } else {
        assert cur == next;
      }
      SetAllRebuilds(t, i + 1);
    } else {
      assert cur == t;
    }
  }

  // ---- Sizes ----

  lemma {:induction false} BodySize(t: Table)
    requires Fits(t)
    ensures |Body(t)| <= 130 * |t|
  {
    if t != [] { BodySize(t[1..]); }
  }

  // The text of any table fits the buffer of config_save, terminator included.
  lemma SavedFits(t: Table)
    requires Fits(t) && |t| == CFG_MAX
    ensures |HEADER| == 70 && |Saved(t)| < CFG_MAX * LINE
  {
    BodySize(t);
  }
}
