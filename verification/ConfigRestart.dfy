// Loading the text of a saved table over another: when do all gets answer as before?
module ConfigRestart {
  import opened Strings
  import opened ConfigTable
  import opened ConfigExact

  ghost function KeysOf(t: Table): set<string> {
    if t == [] then {} else KeysOf(t[..|t| - 1]) + (if t[|t| - 1].used then {t[|t| - 1].key} else {})
  }

  lemma {:induction false} KeysAre(t: Table, key: string)
    ensures key in KeysOf(t) <==> Find(t, key) < |t|
    decreases |t|
  {
    var n := |t| - 1;
    if t != [] {
      KeysAre(t[..n], key);
      var i := Find(t[..n], key);
      if i < n { FindIs(t, key, i); } else { FindIs(t, key, if Holds(t[n], key) then n else |t|); }
    }
  }

  lemma {:induction false} KeysBound(t: Table)
    ensures |KeysOf(t)| <= |t|
    decreases |t|
  {
    if t != [] { KeysBound(t[..|t| - 1]); }
  }

  lemma {:induction false} KeysExact(t: Table)
    requires Distinct(t) && forall i :: 0 <= i < |t| ==> t[i].used
    ensures |KeysOf(t)| == |t|
    decreases |t|
  {
    var n := |t| - 1;
    if t != [] {
      KeysExact(t[..n]);
      KeysAre(t[..n], t[n].key);
      forall j | 0 <= j < n ensures !Holds(t[..n][j], t[n].key) { assert t[j].key != t[n].key; }
      FindIs(t[..n], t[n].key, n);
    }
  }

  lemma Fewer(a: set<string>, b: set<string>)
    requires a <= b
    ensures |a| <= |b|
  {
    assert b == a + (b - a);
  }

  // A table whose keys are some but not all of another's of its size has a free slot.
  lemma {:induction false} RoomLeft(cur: Table, t: Table, key: string)
    requires Distinct(cur) && |cur| == |t| && KeysOf(cur) <= KeysOf(t) && key in KeysOf(t) && key !in KeysOf(cur)
    ensures Unused(cur) < |cur|
  {
    if Unused(cur) == |cur| {
      KeysExact(cur);
      KeysBound(t);
      Fewer(KeysOf(cur) + {key}, KeysOf(t));
      assert false;
    }
  }

  // ---- Loading a saved table over another ----

  // A value as the parser stores it
  function Trimmed(val: string): string {
    TrimVal(SkipBlanks(val))
  }

  // The value that the last used entry with this key is read back with, def if there is none.
  function LastRead(es: Table, key: string, def: string): string
    decreases |es|
  {
    if es == [] then def
    else LastRead(es[1..], key, if Holds(es[0], key) then Trimmed(es[0].val) else def)
  }

  lemma {:induction false} KeyPresent(t: Table, i: nat)
    requires i < |t| && t[i].used
    ensures t[i].key in KeysOf(t)
  {
    KeysAre(t, t[i].key);
    assert Holds(t[i], t[i].key);
  }

  lemma {:induction false} SetKnownDistinct(cur: Table, key: string, val: string)
    requires Distinct(cur) && Find(cur, key) < |cur|
    ensures Distinct(Set(cur, key, val).0)
  {
  }

  lemma {:induction false} SetKeys(cur: Table, key: string, val: string, k: string)
    requires |key| < KEYLEN && k in KeysOf(Set(cur, key, val).0)
    ensures k == key || k in KeysOf(cur)
  {
    var next := Set(cur, key, val).0;
    KeysAre(next, k);
    KeysAre(cur, k);
    var i := Find(next, k);
    if k != key { assert Holds(cur[i], k); }
  }

  // cur is a table that has only keys of all, and room for the rest of them.
  ghost predicate Within(cur: Table, all: Table) {
    Fits(cur) && Distinct(cur) && Packed(cur) && |cur| == |all| && KeysOf(cur) <= KeysOf(all)
  }

  // Setting a key of such a table never fails, so every get answers as it should.
  lemma {:induction false} SetWithin(cur: Table, all: Table, key: string, val: string)
    requires Within(cur, all) && key in KeysOf(all) && |key| < KEYLEN && |val| < VALLEN
    ensures Within(Set(cur, key, val).0, all)
    ensures forall k, def :: Get(Set(cur, key, val).0, k, def) == if k == key then val else Get(cur, k, def)
  {
    var next := Set(cur, key, val).0;
    SetKeeps(cur, key, val);
    KeysAre(cur, key);
    if Find(cur, key) == |cur| {
      RoomLeft(cur, all, key);
      SetKeepsDistinctIff(cur, key, val);
    } else {
      SetKnownDistinct(cur, key, val);
    }
    forall k | k in KeysOf(next) ensures k in KeysOf(all) { SetKeys(cur, key, val, k); }
    GetAfterSetIff(cur, key, val);
    forall k, def | k != key ensures Get(next, k, def) == Get(cur, k, def) { SetKeepsOthers(cur, key, val, k, def); }
  }

  // A line with a clean key sets it to the trimmed value.
  lemma {:induction false} LineSetsTrimmed(cur: Table, e: Entry)
    requires CleanKey(e.key)
    ensures LineDone(cur, LineOf(e)) == Set(cur, e.key, Trimmed(e.val)).0
  {
    LineCut(e);
  }

  ghost predicate CleanKeys(es: Table) {
    forall i :: 0 <= i < |es| && es[i].used ==> CleanKey(es[i].key)
  }

  ghost predicate KeysIn(es: Table, all: Table) {
    forall i :: 0 <= i < |es| && es[i].used ==> es[i].key in KeysOf(all)
  }

  // After all lines, the last one with a key says what a get of it answers.
  lemma {:induction false} DoneGets(cur: Table, es: Table, all: Table, key: string, def: string)
    requires Within(cur, all) && Fits(es) && OneLine(es) && CleanKeys(es) && KeysIn(es, all)
    ensures Get(DoneAll(cur, es), key, def) == LastRead(es, key, Get(cur, key, def))
    decreases |es|
  {
    if es != [] {
      var e, rest := es[0], es[1..];
      assert CleanKeys(rest) && KeysIn(rest, all) by { assert forall i :: 0 <= i < |rest| ==> rest[i] == es[i + 1]; }
      if e.used {
        LineSetsTrimmed(cur, e);
        TrimmedIsClean(e.val);
        SetWithin(cur, all, e.key, Trimmed(e.val));
      }
      DoneGets(if e.used then LineDone(cur, LineOf(e)) else cur, rest, all, key, def);
    }
  }

  // No later entry has the key of entry i.
  ghost predicate IsLast(t: Table, i: nat)
    requires i < |t|
  {
    t[i].used && forall j :: i < j < |t| ==> !Holds(t[j], t[i].key)
  }

  lemma {:induction false} NotRead(es: Table, key: string, def: string)
    requires forall j :: 0 <= j < |es| ==> !Holds(es[j], key)
    ensures LastRead(es, key, def) == def
    decreases |es|
  {
    if es != [] { NotRead(es[1..], key, def); }
  }

  lemma {:induction false} LastReadIs(es: Table, i: nat, def: string)
    requires i < |es| && IsLast(es, i)
    ensures LastRead(es, es[i].key, def) == Trimmed(es[i].val)
    decreases i
  {
    var key, rest := es[i].key, es[1..];
    if i == 0 {
      assert Holds(es[0], key);
      forall j | 0 <= j < |rest| ensures !Holds(rest[j], key) { assert !Holds(es[j + 1], key); }
      NotRead(rest, key, Trimmed(es[0].val));
    } else {
      forall j | i - 1 < j < |rest| ensures !Holds(rest[j], key) { assert !Holds(es[j + 1], key); }
      LastReadIs(rest, i - 1, if Holds(es[0], key) then Trimmed(es[0].val) else def);
    }
  }

  lemma {:induction false} HasLast(t: Table, key: string) returns (i: nat)
    requires Find(t, key) < |t|
    ensures i < |t| && t[i].key == key && IsLast(t, i)
  {
    i := Find(t, key);
    while exists j :: i < j < |t| && Holds(t[j], key)
      invariant i < |t| && Holds(t[i], key)
      decreases |t| - i
    {
      var j :| i < j < |t| && Holds(t[j], key);
      i := j;
    }
  }

  // ---- What a restart keeps ----

  // What the next machine answers.
  ghost predicate SameAnswers(t: Table, next: Table) {
    forall key, def :: Get(next, key, def) == Get(t, key, def)
  }

  // The last value under a key is read back as the one a get finds.
  ghost predicate LastsReadBack(t: Table) {
    forall i :: 0 <= i < |t| && IsLast(t, i) ==> Trimmed(t[i].val) == Get(t, t[i].key, "")
  }

  // Every key is clean, so is every value that a get finds, and the last ones are read back as
  // these.
  ghost predicate Survives(t: Table) {
    CleanKeys(t) && (forall i :: 0 <= i < |t| && t[i].used ==> CleanVal(Get(t, t[i].key, ""))) && LastsReadBack(t)
  }

  // A value that no get finds, being behind another under its key, has no newline in it.
  ghost predicate HiddenOneLine(t: Table) {
    forall i :: 0 <= i < |t| && t[i].used && Find(t, t[i].key) < i ==> '\n' !in t[i].val
  }

  // The last value under a key is the first one.
  ghost predicate LastIsFirst(t: Table) {
    forall i :: 0 <= i < |t| && IsLast(t, i) ==> t[i].val == Get(t, t[i].key, "")
  }

  lemma {:induction false} CleanTrimmed(val: string)
    requires CleanVal(val)
    ensures Trimmed(val) == val
  {
  }

  // Where no key occurs twice, that is that all entries are clean; where all entries are clean, it
  // is that the last value under a key is the first one.
  lemma {:induction false} SurvivesIff(t: Table)
    ensures Distinct(t) ==> (Survives(t) <==> Clean(t))
    ensures Clean(t) ==> (Survives(t) <==> LastIsFirst(t))
  {
    forall i | 0 <= i < |t| && t[i].used
      ensures var f := Find(t, t[i].key); f <= i && Get(t, t[i].key, "") == t[f].val
    {
      assert Holds(t[i], t[i].key);
    }
    forall i | 0 <= i < |t| && t[i].used && CleanVal(t[i].val)
      ensures Trimmed(t[i].val) == t[i].val
    {
      CleanTrimmed(t[i].val);
    }
    if Distinct(t) {
      forall i | 0 <= i < |t| && t[i].used ensures Find(t, t[i].key) == i { assert Holds(t[i], t[i].key); }
    }
  }

  // What a get finds, the parser stored, or it was there before.
  lemma {:induction false} FoundStored(r: Table, t: Table, i: nat)
    requires SameAnswers(t, r) && i < |t| && t[i].used
    ensures var (f, g) := (Find(r, t[i].key), Find(t, t[i].key));
      f < |r| && g <= i && r[f].key == t[i].key && r[f].val == t[g].val == Get(t, t[i].key, "")
  {
    var key := t[i].key;
    assert Holds(t[i], key);
    var val := Get(t, key, "");
    assert Get(r, key, val + "x") == Get(t, key, val + "x") == val;
  }

  lemma OthersOneLine(t: Table)
    requires Clean(t) && Fits(t)
    ensures OneLine(t) && NoEquals(t)
  {
  }

  // Loading t's text over t0 makes every get answer as t does only if t's entries are lines.
  lemma {:induction false} SameMeansOneLine(t0: Table, t: Table)
    requires Clean(t0) && Fits(t0) && Fits(t) && HiddenOneLine(t) && SameAnswers(t, Parse(t0, Saved(t)))
    ensures OneLine(t) && NoEquals(t)
  {
    var r := Parse(t0, Saved(t));
    HeaderSkipped(t0, Body(t));
    OthersOneLine(t0);
    ParsedIsOneLine(t0, "", Body(t));
    ParsedHasNoEquals(t0, "", Body(t));
    forall i | 0 <= i < |t| && t[i].used ensures '=' !in t[i].key && '\n' !in t[i].key && '\n' !in t[i].val {
      FoundStored(r, t, i);
    }
  }

  lemma {:induction false} SurvivorIsOneLine(t: Table, i: nat)
    requires Survives(t) && HiddenOneLine(t) && i < |t| && t[i].used
    ensures '\n' !in t[i].key && '\n' !in t[i].val
  {
    assert Holds(t[i], t[i].key);
    assert CleanKey(t[i].key);
    if Find(t, t[i].key) == i { assert CleanVal(Get(t, t[i].key, "")); }
  }

  lemma {:induction false} SurvivesIsOneLine(t: Table)
    requires Survives(t) && Fits(t) && HiddenOneLine(t)
    ensures OneLine(t) && CleanKeys(t)
  {
    forall i | 0 <= i < |t| && t[i].used ensures '\n' !in t[i].key && '\n' !in t[i].val { SurvivorIsOneLine(t, i); }
    assert forall i :: 0 <= i < |t| && !t[i].used ==> t[i] == Entry("", "", false);
  }

  lemma {:induction false} LoadedGets(t0: Table, t: Table, key: string, def: string)
    requires Within(t0, t) && Fits(t) && OneLine(t) && CleanKeys(t)
    ensures Get(Parse(t0, Saved(t)), key, def) == LastRead(t, key, Get(t0, key, def))
  {
    HeaderSkipped(t0, Body(t));
    BodyDone(t0, t);
    forall i | 0 <= i < |t| && t[i].used ensures t[i].key in KeysOf(t) { KeyPresent(t, i); }
    DoneGets(t0, t, t, key, def);
  }

  lemma {:induction false} SurvivorsAnswer(t0: Table, t: Table, key: string, def: string)
    requires Within(t0, t) && Fits(t) && OneLine(t) && Survives(t)
    ensures Get(Parse(t0, Saved(t)), key, def) == Get(t, key, def)
  {
    LoadedGets(t0, t, key, def);
    if Find(t, key) < |t| {
      var i := HasLast(t, key);
      LastReadIs(t, i, Get(t0, key, def));
    } else {
      NotRead(t, key, Get(t0, key, def));
      KeysAre(t0, key);
      KeysAre(t, key);
    }
  }

  lemma {:induction false} AnswersSurvive(t0: Table, t: Table, i: nat)
    requires Within(t0, t) && Clean(t0) && Fits(t) && OneLine(t) && NoEquals(t) && i < |t| && t[i].used
    requires SameAnswers(t, Parse(t0, Saved(t)))
    ensures CleanKey(t[i].key) && CleanVal(Get(t, t[i].key, ""))
  {
    HeaderSkipped(t0, Body(t));
    BodyDone(t0, t);
    DoneStaysClean(t0, t);
    FoundStored(Parse(t0, Saved(t)), t, i);
  }

  // With clean entries, what the last one under a key says is what counts.
  lemma {:induction false} LastAnswers(t0: Table, t: Table, i: nat)
    requires Within(t0, t) && Fits(t) && Clean(t) && i < |t| && IsLast(t, i)
    ensures Get(Parse(t0, Saved(t)), t[i].key, "") == t[i].val
  {
    OthersOneLine(t);
    LoadedGets(t0, t, t[i].key, "");
    LastReadIs(t, i, Get(t0, t[i].key, ""));
    CleanTrimmed(t[i].val);
  }

  // A restart: over any table with no key that t lacks, loading t's text gives a table that answers
  // every get as t does, if and only if t survives.
  lemma {:induction false} RestartKeepsIff(t0: Table, t: Table)
    requires Within(t0, t) && Clean(t0) && Fits(t) && HiddenOneLine(t)
    ensures SameAnswers(t, Parse(t0, Saved(t))) <==> Survives(t)
  {
    var r := Parse(t0, Saved(t));
    if Survives(t) {
      SurvivesIsOneLine(t);
      forall key, def ensures Get(r, key, def) == Get(t, key, def) { SurvivorsAnswer(t0, t, key, def); }
    }
    if SameAnswers(t, r) {
      SameMeansOneLine(t0, t);
      forall i | 0 <= i < |t| && t[i].used ensures CleanKey(t[i].key) && CleanVal(Get(t, t[i].key, "")) {
        AnswersSurvive(t0, t, i);
      }
      forall i | 0 <= i < |t| && IsLast(t, i) ensures Trimmed(t[i].val) == Get(t, t[i].key, "") {
        LoadedGets(t0, t, t[i].key, "");
        LastReadIs(t, i, Get(t0, t[i].key, ""));
      }
    }
  }

  // ---- Into the table itself ----

  // cur is t, but for the values that gets find: those are what `es` says last.
  ghost predicate Overlaid(cur: Table, t: Table, es: Table) {
    |cur| == |t| && forall j :: 0 <= j < |t| ==>
      cur[j] == if t[j].used && Find(t, t[j].key) == j then t[j].(val := LastRead(es, t[j].key, t[j].val)) else t[j]
  }

  lemma {:induction false} LastReadMore(es: Table, e: Entry, key: string, def: string)
    ensures LastRead(es + [e], key, def) == if Holds(e, key) then Trimmed(e.val) else LastRead(es, key, def)
    decreases |es|
  {
    var all := es + [e];
    if es == [] {
      assert all[1..] == [];
    } else {
      assert all[1..] == es[1..] + [e];
      LastReadMore(es[1..], e, key, if Holds(es[0], key) then Trimmed(es[0].val) else def);
    }
  }

  lemma {:induction false} OverlayMore(cur: Table, t: Table, i: nat)
    requires i < |t| && Overlaid(cur, t, t[..i]) && Fits(t) && OneLine(t) && CleanKeys(t)
    ensures Overlaid(if t[i].used then LineDone(cur, LineOf(t[i])) else cur, t, t[..i + 1])
  {
    var e := t[i];
    assert t[..i + 1] == t[..i] + [e];
    forall j | 0 <= j < |t| { LastReadMore(t[..i], e, t[j].key, t[j].val); }
    if e.used {
      assert Holds(e, e.key);
      var f := Find(t, e.key);
      LineSetsTrimmed(cur, e);
      TrimmedIsClean(e.val);
      forall j | 0 <= j < f ensures !Holds(cur[j], e.key) { assert !Holds(t[j], e.key); }
      FindIs(cur, e.key, f);
      assert LineDone(cur, LineOf(e)) == cur[f := cur[f].(val := Trimmed(e.val))];
    }
  }

  lemma {:induction false} OverlayDone(cur: Table, t: Table, i: nat)
    requires i <= |t| && Overlaid(cur, t, t[..i]) && Fits(t) && OneLine(t) && CleanKeys(t)
    ensures Overlaid(DoneAll(cur, t[i..]), t, t)
    decreases |t| - i
  {
    if i == |t| {
      assert t[..i] == t;
    } else {
      assert t[i..][1..] == t[i + 1..];
      OverlayMore(cur, t, i);
      OverlayDone(if t[i].used then LineDone(cur, LineOf(t[i])) else cur, t, i + 1);
    }
  }

  lemma {:induction false} IdleIfReadBack(r: Table, t: Table)
    requires Overlaid(r, t, t) && LastsReadBack(t)
    ensures r == t
  {
    forall j | 0 <= j < |t| ensures r[j] == t[j] {
      if t[j].used && Find(t, t[j].key) == j {
        var i := HasLast(t, t[j].key);
        LastReadIs(t, i, t[j].val);
      }
    }
  }

  lemma {:induction false} ReadBackIfIdle(t: Table, i: nat)
    requires Overlaid(t, t, t) && i < |t| && IsLast(t, i)
    ensures Trimmed(t[i].val) == Get(t, t[i].key, "")
  {
    assert Holds(t[i], t[i].key);
    var f := Find(t, t[i].key);
    assert t[f] == t[f].(val := LastRead(t, t[f].key, t[f].val));
    LastReadIs(t, i, t[f].val);
  }

  // Into the table it was saved from, the text changes nothing if and only if the last value under
  // a key is read back as the first.
  lemma {:induction false} ReloadIsIdleIff(t: Table)
    requires Fits(t) && OneLine(t) && CleanKeys(t)
    ensures Parse(t, Saved(t)) == t <==> LastsReadBack(t)
  {
    HeaderSkipped(t, Body(t));
    BodyDone(t, t);
    assert t[0..] == t && t[..0] == [];
    OverlayDone(t, t, 0);
    if LastsReadBack(t) { IdleIfReadBack(Parse(t, Saved(t)), t); }
    if Parse(t, Saved(t)) == t {
      forall i | 0 <= i < |t| && IsLast(t, i)
        ensures Trimmed(t[i].val) == Get(t, t[i].key, "")
      {
        ReadBackIfIdle(t, i);
      }
    }
  }
}
