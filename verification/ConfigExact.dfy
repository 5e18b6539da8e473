// Which tables survive being saved and parsed: exactly those whose entries are clean and distinct.
module ConfigExact {
  import opened Strings
  import opened ConfigTable

  // ---- Parsing never stores a newline ----

  ghost predicate OneLine(t: Table) {
    forall i :: 0 <= i < |t| ==> '\n' !in t[i].key && '\n' !in t[i].val
  }

  lemma {:induction false} BlanksOff(s: string)
    ensures |SkipBlanks(s)| <= |s| && SkipBlanks(s) == s[|s| - |SkipBlanks(s)|..]
    ensures forall i :: 0 <= i < |s| - |SkipBlanks(s)| ==> IsBlank(s[i])
    decreases |s|
  {
    if s != "" && IsBlank(s[0]) {
      BlanksOff(s[1..]);
    }
  }

  lemma SetStaysOne(t: Table, key: string, val: string)
    requires OneLine(t) && '\n' !in key && '\n' !in val
    ensures OneLine(Set(t, key, val).0)
  {
  }

  lemma LineStaysOne(t: Table, line: string)
    requires OneLine(t) && '\n' !in line
    ensures OneLine(LineDone(t, line))
  {
    var s := SkipBlanks(line);
    BlanksOff(line);
    var e := Equals(s);
    if s != "" && s[0] != '#' && e < |s| {
      var k, w := TrimKey(s[..e]), s[e + 1..];
      BlanksOff(w);
      assert '\n' !in s && '\n' !in k && '\n' !in w && '\n' !in SkipBlanks(w);
      SetStaysOne(t, k, TrimVal(SkipBlanks(w)));
    }
  }

  lemma {:induction false} ParsedIsOneLine(t: Table, line: string, text: string)
    requires OneLine(t) && '\n' !in line
    ensures OneLine(ParseFrom(t, line, text))
    decreases |text|
  {
    LineStaysOne(t, line);
    if text == "" {
    } else if text[0] == '\n' {
      ParsedIsOneLine(LineDone(t, line), "", text[1..]);
    } else {
      ParsedIsOneLine(t, AddChar(line, text[0]), text[1..]);
    }
  }

  // ---- Without newlines, every entry is one line, read whole ----

  function DoneAll(t: Table, es: Table): Table
    decreases |es|
  {
    if es == [] then t
    else DoneAll(if es[0].used then LineDone(t, LineOf(es[0])) else t, es[1..])
  }

  lemma {:induction false} BodyDone(t: Table, es: Table)
    requires Fits(es) && OneLine(es)
    ensures Parse(t, Body(es)) == DoneAll(t, es)
    decreases |es|
  {
    if es == [] {
    } else if es[0].used {
      var e := es[0];
      assert Body(es) == LineOf(e) + "\n" + Body(es[1..]);
      LineRead(t, "", LineOf(e), Body(es[1..]));
      assert "" + LineOf(e) == LineOf(e);
      BodyDone(LineDone(t, LineOf(e)), es[1..]);
    } else {
      assert "" + Body(es[1..]) == Body(es[1..]);
      BodyDone(t, es[1..]);
    }
  }

  lemma {:induction false} NoneDone(t: Table, es: Table)
    requires forall i :: 0 <= i < |es| ==> !es[i].used
    ensures DoneAll(t, es) == t
    decreases |es|
  {
    if es != [] { NoneDone(t, es[1..]); }
  }

  // ---- What one line does ----

  // The line sets key k to v.
  ghost predicate Reads(line: string, k: string, v: string) {
    var s := SkipBlanks(line);
    var e := Equals(s);
    s != "" && s[0] != '#' && e < |s| && k != "" && k == TrimKey(s[..e]) && v == TrimVal(SkipBlanks(s[e + 1..]))
  }

  // A line takes at most one slot, the first unused one, and only for a key it does not find.
  lemma LineTakes(t: Table, line: string) returns (k: string, v: string)
    requires Fits(t) && Packed(t)
    ensures var r := LineDone(t, line);
      && Fits(r) && Packed(r) && |r| == |t|
      && (Unused(r) == Unused(t)
          || (Unused(t) < |t| && Unused(r) == Unused(t) + 1 && Reads(line, k, v) && Find(t, k) == |t|
              && r == t[Unused(t) := Entry(Cut(k, KEYLEN), Cut(v, VALLEN), true)]))
  {
    var s := SkipBlanks(line);
    var e := Equals(s);
    k, v := "", "";
    if s != "" && s[0] != '#' && e < |s| {
      k, v := TrimKey(s[..e]), TrimVal(SkipBlanks(s[e + 1..]));
      if k != "" {
        SetKeeps(t, k, v);
        var j := Unused(t);
        var r := Set(t, k, v).0;
        UnusedIs(r, if Find(t, k) == |t| && j < |t| then j + 1 else j);
      }
    }
  }

  lemma {:induction false} KeyTrimmed(s: string)
    ensures TrimKey(s) != "" ==> !IsBlank(TrimKey(s)[|TrimKey(s)| - 1])
    ensures s != "" && IsBlank(s[|s| - 1]) ==> |TrimKey(s)| < |s|
    decreases |s|
  {
    if s != "" && IsBlank(s[|s| - 1]) { KeyTrimmed(s[..|s| - 1]); }
  }

  lemma {:induction false} ValTrimmed(s: string)
    ensures var r := TrimVal(s); r != "" ==> !IsBlank(r[|r| - 1]) && r[|r| - 1] != '\r'
    decreases |s|
  {
    if s != "" && (IsBlank(s[|s| - 1]) || s[|s| - 1] == '\r') { ValTrimmed(s[..|s| - 1]); }
  }

  // A key without '=' is read no longer than it is: the '=' of the line ends it, and the blank
  // before that is dropped.
  lemma KeyEnds(e: Entry, k: string, v: string)
    requires '=' !in e.key && Reads(LineOf(e), k, v)
    ensures |k| <= |e.key|
  {
    var line, n := LineOf(e), |e.key|;
    var s := SkipBlanks(line);
    var m := Equals(s);
    BlanksOff(line);
    var b := |line| - |s|;
    assert line[n + 1] == '=' && b <= n + 1 && s[n + 1 - b] == '=';
    KeyTrimmed(s[..m]);
    if m == n + 1 { assert s[m - 1] == line[n] == ' '; }
  }

  lemma KeyShape(line: string, k: string, v: string)
    requires Reads(line, k, v)
    ensures k != "" && '=' !in k && k[0] != '#' && !IsBlank(k[0]) && !IsBlank(k[|k| - 1])
  {
    var s := SkipBlanks(line);
    KeyTrimmed(s[..Equals(s)]);
    assert k <= s[..Equals(s)] && k[0] == s[0];
  }

  // A key that its own saved line sets is clean, and so is the value.
  lemma KeyReadBack(e: Entry, k: string, v: string)
    requires |e.key| < KEYLEN && '\n' !in e.key && Reads(LineOf(e), k, v) && e.key == Cut(k, KEYLEN)
    ensures CleanKey(e.key) && k == e.key
  {
    KeyShape(LineOf(e), k, v);
    KeyEnds(e, k, v);
  }

  lemma ValReadBack(e: Entry, v: string)
    requires CleanKey(e.key) && |e.val| < VALLEN && '\n' !in e.val
    requires Reads(LineOf(e), e.key, v) && e.val == Cut(v, VALLEN)
    ensures CleanVal(e.val)
  {
    LineCut(e);
    ValTrimmed(SkipBlanks(e.val));
    assert v <= SkipBlanks(e.val) && |v| < VALLEN;
  }

  ghost predicate CleanFrom(t: Table, i: nat) {
    forall j :: i <= j < |t| && t[j].used ==> CleanKey(t[j].key) && CleanVal(t[j].val)
  }

  ghost predicate DistinctFrom(t: Table, i: nat) {
    forall a, b :: 0 <= a < b < |t| && i <= b && t[a].used && t[b].used ==> t[a].key != t[b].key
  }

  // If the lines from i on complete `cur` to t, then each of them filled the slot it came from.
  lemma {:induction false} SlotsFilled(cur: Table, t: Table, i: nat)
    requires Fits(t) && Packed(t) && OneLine(t) && Fits(cur) && Packed(cur) && |cur| == |t|
    requires Unused(cur) <= i <= Unused(t) && DoneAll(cur, t[i..]) == t
    ensures Unused(cur) == i && cur[..i] == t[..i] && CleanFrom(t, i) && DistinctFrom(t, i)
    decreases |t| - i
  {
    if i == Unused(t) {
      assert forall j :: i <= j < |t| ==> !t[j].used;
      NoneDone(cur, t[i..]);
    } else {
      assert t[i].used && t[i..][0] == t[i] && t[i..][1..] == t[i + 1..];
      var next := LineDone(cur, LineOf(t[i]));
      var k, v := LineTakes(cur, LineOf(t[i]));
      SlotsFilled(next, t, i + 1);
      SlotFilled(cur, t, i, next, k, v);
    }
  }

  lemma {:induction false} SlotFilled(cur: Table, t: Table, i: nat, next: Table, k: string, v: string)
    requires Fits(t) && OneLine(t) && |cur| == |t| && i == Unused(cur) < |t| && t[i].used
    requires next == cur[i := Entry(Cut(k, KEYLEN), Cut(v, VALLEN), true)] && next[..i + 1] == t[..i + 1]
    requires Reads(LineOf(t[i]), k, v) && Find(cur, k) == |cur|
    ensures cur[..i] == t[..i] && CleanKey(t[i].key) && CleanVal(t[i].val)
    ensures forall a :: 0 <= a < i ==> t[a].key != t[i].key
  {
    assert next[i] == next[..i + 1][i] == t[i];
    KeyReadBack(t[i], k, v);
    ValReadBack(t[i], v);
    forall a | 0 <= a < i ensures cur[a] == t[a] && t[a].key != t[i].key {
      assert next[..i + 1][a] == t[..i + 1][a] && next[a] == cur[a];
      assert cur[a].used && !Holds(cur[a], k);
    }
  }

  // Every table config_set can make: saved and parsed into an empty table it comes back, slot
  // for slot, if and only if its used entries are clean and no key occurs twice.
  lemma ReloadRebuildsIff(t: Table)
    requires Fits(t) && Packed(t)
    ensures Parse(Blank(|t|), Saved(t)) == t <==> Clean(t) && Distinct(t)
  {
    if Clean(t) && Distinct(t) { ReloadRebuilds(t); }
    if Parse(Blank(|t|), Saved(t)) == t {
      HeaderSkipped(Blank(|t|), Body(t));
      ParsedIsOneLine(Blank(|t|), "", Body(t));
      BodyDone(Blank(|t|), t);
      UnusedIs(Blank(|t|), 0);
      assert t[0..] == t;
      SlotsFilled(Blank(|t|), t, 0);
    }
  }

  // ---- Keys without '=' ----

  ghost predicate NoEquals(t: Table) {
    forall i :: 0 <= i < |t| && t[i].used ==> '=' !in t[i].key
  }

  // No key that parsing stores contains '='.
  lemma LineStoresNoEquals(t: Table, line: string)
    requires NoEquals(t)
    ensures NoEquals(LineDone(t, line))
  {
    var s := SkipBlanks(line);
    var e := Equals(s);
    if e < |s| { assert '=' !in s[..e] && TrimKey(s[..e]) <= s[..e]; }
  }

  lemma {:induction false} ParsedHasNoEquals(t: Table, line: string, text: string)
    requires NoEquals(t)
    ensures NoEquals(ParseFrom(t, line, text))
    decreases |text|
  {
    LineStoresNoEquals(t, line);
    if text == "" {
    } else if text[0] == '\n' {
      ParsedHasNoEquals(LineDone(t, line), "", text[1..]);
    } else {
      ParsedHasNoEquals(t, AddChar(line, text[0]), text[1..]);
    }
  }

  // What its line sets the key of an entry to, if the key has no '=' to stop the parser early.
  lemma ValEnds(e: Entry, k: string, v: string)
    requires '=' !in e.key && Reads(LineOf(e), k, v)
    ensures v == TrimVal(SkipBlanks(e.val))
  {
    var line, n := LineOf(e), |e.key|;
    var s := SkipBlanks(line);
    BlanksOff(line);
    var b := |line| - |s|;
    assert line[n + 1] == '=' && b <= n + 1;
    EqualsIs(s, n + 1 - b);
    var w := " " + e.val;
    Behind(e.key + " =", w, b);
    assert line == e.key + " =" + w && w[1..] == e.val;
  }

  lemma Behind(front: string, w: string, b: nat)
    requires b <= |front|
    ensures (front + w)[b..][|front| - b..] == w
  {
  }

  lemma ReadsOneLine(line: string, k: string, v: string)
    requires '\n' !in line && Reads(line, k, v)
    ensures '\n' !in k
  {
    BlanksOff(line);
    var s := SkipBlanks(line);
    assert k <= s[..Equals(s)];
  }

  lemma {:induction false} TrimmedIsClean(val: string)
    requires |val| < VALLEN && '\n' !in val
    ensures CleanVal(TrimVal(SkipBlanks(val)))
  {
    ValTrimmed(SkipBlanks(val));
    BlanksOff(val);
    assert TrimVal(SkipBlanks(val)) <= SkipBlanks(val);
  }

  // The line of an entry without newlines and with no '=' in its key stores only clean text.
  lemma CleanLine(e: Entry, k: string, v: string)
    requires |e.key| < KEYLEN && |e.val| < VALLEN && '\n' !in e.key && '\n' !in e.val && '=' !in e.key
    requires Reads(LineOf(e), k, v)
    ensures CleanKey(k) && CleanVal(v)
  {
    KeyShape(LineOf(e), k, v);
    KeyEnds(e, k, v);
    ReadsOneLine(LineOf(e), k, v);
    ValEnds(e, k, v);
    TrimmedIsClean(e.val);
  }

  lemma SetStaysClean(t: Table, k: string, v: string)
    requires Clean(t) && CleanKey(k) && CleanVal(v)
    ensures Clean(Set(t, k, v).0)
  {
    assert Cut(k, KEYLEN) == k && Cut(v, VALLEN) == v;
  }

  lemma LineStaysClean(t: Table, e: Entry)
    requires Clean(t) && |e.key| < KEYLEN && |e.val| < VALLEN && '\n' !in e.key && '\n' !in e.val && '=' !in e.key
    ensures Clean(LineDone(t, LineOf(e)))
  {
    var s := SkipBlanks(LineOf(e));
    var m := Equals(s);
    if s != "" && s[0] != '#' && m < |s| {
      var k, v := TrimKey(s[..m]), TrimVal(SkipBlanks(s[m + 1..]));
      if k != "" {
        CleanLine(e, k, v);
        SetStaysClean(t, k, v);
      }
    }
  }

  lemma {:induction false} DoneStaysClean(t: Table, es: Table)
    requires Clean(t) && Fits(es) && OneLine(es) && NoEquals(es)
    ensures Clean(DoneAll(t, es))
    decreases |es|
  {
    if es != [] {
      if es[0].used { LineStaysClean(t, es[0]); }
      DoneStaysClean(if es[0].used then LineDone(t, LineOf(es[0])) else t, es[1..]);
    }
  }

  const ODD: Entry := Entry("a=b", "c", true)

  // config_set accepts the key "a=b", but its line sets "a" to "b = c".
  lemma EqualsSignMoves(t: Table)
    ensures Set(Blank(CFG_MAX), "a=b", "c").0 == [ODD] + Blank(CFG_MAX - 1)
    ensures LineDone(t, LineOf(ODD)) == Set(t, "a", "b = c").0
  {
    FindIs(Blank(CFG_MAX), "a=b", CFG_MAX);
    UnusedIs(Blank(CFG_MAX), 0);
    var line := LineOf(ODD);
    assert line == "a=b = c" && SkipBlanks(line) == line;
    EqualsIs(line, 1);
    assert line[..1] == "a" && line[2..] == "b = c" && SkipBlanks("b = c") == "b = c";
  }

  // So a machine that has set it has another key and another value after the next start.
  lemma OddKeyLost()
    ensures Parse(Blank(CFG_MAX), Saved([ODD] + Blank(CFG_MAX - 1))) == [Entry("a", "b = c", true)] + Blank(CFG_MAX - 1)
  {
    var blank, saved := Blank(CFG_MAX), [ODD] + Blank(CFG_MAX - 1);
    EqualsSignMoves(blank);
    FindIs(blank, "a", CFG_MAX);
    UnusedIs(blank, 0);
    HeaderSkipped(blank, Body(saved));
    BodyDone(blank, saved);
    assert saved[1..] == Blank(CFG_MAX - 1);
    NoneDone(LineDone(blank, LineOf(ODD)), saved[1..]);
  }
}
