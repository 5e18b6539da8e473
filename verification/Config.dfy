// kernel/core/config.c: the table filled slot by slot, the parser's loops over the text, and the
// printer into its fixed buffer, each proved against its function in ConfigTable.
module Config {
  import opened Strings
  import opened Printf
  import opened ConfigTable

  const BUFSIZE: nat := CFG_MAX * LINE

  // "%s = %s\n"
  lemma EntryPrinted(e: Entry)
    ensures Expand("%s = %s\n", [Text(e.key), Text(e.val)]) == LineOf(e) + "\n"
  {
    var r2 := "%s" + "\n";
    var r1 := " = " + r2;
    assert "%s = %s\n" == "%s" + r1;
    assert [Text(e.key)] + [Text(e.val)] == [Text(e.key), Text(e.val)];
    ExpandText(r1, e.key, [Text(e.val)]);
    ExpandPlain(" = ", r2, [Text(e.val)]);
    assert [Text(e.val)] + [] == [Text(e.val)];
    ExpandText("\n", e.val, []);
    ExpandPlain("\n", "", []);
    assert "\n" + "" == "\n";
    assert LineOf(e) + "\n" == e.key + (" = " + (e.val + "\n"));
  }

  lemma HeaderPrinted()
    ensures Expand(HEADER, []) == HEADER
  {
    ExpandPlain(HEADER, "", []);
    assert HEADER + "" == HEADER;
  }

  class Config {
    const cfg: array<Entry>

    ghost predicate Valid()
      reads this, cfg
    {
      cfg.Length == CFG_MAX && Fits(cfg[..]) && Packed(cfg[..])
    }

    constructor ()
      ensures Valid() && fresh(cfg) && cfg[..] == Blank(CFG_MAX)
    {
      cfg := new Entry[CFG_MAX](_ => Entry("", "", false));
      new;
      assert cfg[..] == Blank(CFG_MAX);
    }

    // find; an index instead of a pointer, CFG_MAX for none
    method FindEntry(key: string) returns (i: nat)
      requires Valid()
      ensures i == Find(cfg[..], key)
    {
      i := 0;
      while i < CFG_MAX
        invariant i <= CFG_MAX && forall j :: 0 <= j < i ==> !Holds(cfg[j], key)
      {
        if cfg[i].used && cfg[i].key == key { break; }
        i := i + 1;
      }
      FindIs(cfg[..], key, i);
    }

    method ConfigGet(key: string, def: string) returns (val: string)
      requires Valid()
      ensures val == Get(cfg[..], key, def)
    {
      var i := FindEntry(key);
      val := if i < CFG_MAX then cfg[i].val else def;
    }

    method ConfigSet(key: string, val: string) returns (ok: bool)
      requires Valid()
      modifies cfg
      ensures Valid() && (cfg[..], ok) == Set(old(cfg[..]), key, val)
    {
      SetKeeps(cfg[..], key, val);
      var e := FindEntry(key);
      if e == CFG_MAX {
        var i := 0;
        while i < CFG_MAX && cfg[i].used
          invariant i <= CFG_MAX && forall j :: 0 <= j < i ==> cfg[j].used
        {
          i := i + 1;
        }
        UnusedIs(cfg[..], i);
        if i == CFG_MAX { return false; }
        e := i;
        cfg[e] := Entry(Cut(key, KEYLEN), cfg[e].val, true);
      }
      cfg[e] := cfg[e].(val := Cut(val, VALLEN));
      assert cfg[..] == old(cfg[..])[e := cfg[e]];
      return true;
    }

    // The body of parse's loop at the end of a line.
    method ParseLine(line: string)
      requires Valid()
      modifies cfg
      ensures Valid() && cfg[..] == LineDone(old(cfg[..]), line)
    {
      var s := DropBlanks(line);
      if s == "" || s[0] == '#' { return; }
      var e := Chr(s);
      if e == |s| { return; }
      var k := DropKeyBlanks(s[..e]);
      var v := DropBlanks(s[e + 1..]);
      v := DropValBlanks(v);
      if k != "" { var ok := ConfigSet(k, v); }
    }

    static method DropKeyBlanks(k: string) returns (r: string)
      ensures r == TrimKey(k)
    {
      var ke := |k|;
      assert k[..ke] == k;
      while ke > 0 && IsBlank(k[ke - 1])
        invariant 0 <= ke <= |k| && TrimKey(k[..ke]) == TrimKey(k)
      {
        assert k[..ke][..ke - 1] == k[..ke - 1];
        ke := ke - 1;
      }
      r := k[..ke];
    }

    static method DropValBlanks(v: string) returns (r: string)
      ensures r == TrimVal(v)
    {
      var ve := |v|;
      assert v[..ve] == v;
      while ve > 0 && (IsBlank(v[ve - 1]) || v[ve - 1] == '\r')
        invariant 0 <= ve <= |v| && TrimVal(v[..ve]) == TrimVal(v)
      {
        assert v[..ve][..ve - 1] == v[..ve - 1];
        ve := ve - 1;
      }
      r := v[..ve];
    }

    // strchr(s, '=')
    static method Chr(s: string) returns (i: nat)
      ensures i == Equals(s)
    {
      i := 0;
      while i < |s| && s[i] != '='
        invariant i <= |s| && forall j :: 0 <= j < i ==> s[j] != '='
      {
        i := i + 1;
      }
      EqualsIs(s, i);
    }

    method ParseText(text: string)
      requires Valid()
      modifies cfg
      ensures Valid() && cfg[..] == Parse(old(cfg[..]), text)
    {
      var line := "";
      var p := 0;
      assert text[0..] == text;
      while p < |text|
        invariant Valid() && p <= |text|
        invariant ParseFrom(cfg[..], line, text[p..]) == Parse(old(cfg[..]), text)
      {
        assert text[p..][1..] == text[p + 1..];
        if text[p] == '\n' {
          ParseLine(line);
          line := "";
        } else if |line| < LINE - 1 {
          line := line + [text[p]];
        }
        p := p + 1;
      }
      ParseLine(line);
    }

    // The printing of config_save: the text is in buf, and nothing of it was cut.
    method PrintConfig(buf: array<char>) returns (n: nat)
      requires Valid() && buf.Length == BUFSIZE
      modifies buf
      ensures n == |Saved(cfg[..])| < BUFSIZE && Reads(buf, Saved(cfg[..]))
    {
      HeaderPrinted();
      SavedFits(cfg[..]);
      n := Kvsnprintf(buf, 0, BUFSIZE, HEADER, []);
      var i := 0;
      NothingYet(cfg[..]);
      while i < CFG_MAX
        invariant i <= CFG_MAX && n == |HEADER + Body(cfg[..i])| && Reads(buf, HEADER + Body(cfg[..i]))
      {
        n := SaveSlot(buf, n, i);
        i := i + 1;
      }
      assert cfg[..CFG_MAX] == cfg[..];
    }

    // One round of that loop.
    method SaveSlot(buf: array<char>, n: nat, i: nat) returns (n': nat)
      requires Valid() && buf.Length == BUFSIZE && i < CFG_MAX
      requires n == |HEADER + Body(cfg[..i])| && Reads(buf, HEADER + Body(cfg[..i]))
      modifies buf
      ensures n' == |HEADER + Body(cfg[..i + 1])| && Reads(buf, HEADER + Body(cfg[..i + 1]))
    {
      n' := n;
      BodyPrefix(cfg[..], i);
      assert cfg[..][..i] == cfg[..i] && cfg[..][..i + 1] == cfg[..i + 1];
      if cfg[i].used {
        Glue(HEADER, Body(cfg[..i]), LineOf(cfg[i]) + "\n");
        var m := PrintEntry(buf, n, cfg[i]);
        n' := n + m;
      }
    }

    // ksnprintf(buf + n, sizeof(buf) - n, ...) of a text that fits
    static method PrintAt(buf: array<char>, n: nat, fmt: string, args: seq<Arg>, ghost text: string) returns (m: nat)
      requires Expand(fmt, args) == text && n + |text| < buf.Length && forall i :: 0 <= i < |args| ==> args[i].Text?
      modifies buf
      ensures m == |text| && buf[..n + m] == old(buf[..n]) + text && buf[n + m] == '\0'
    {
      m := Kvsnprintf(buf, n, buf.Length - n, fmt, args);
      assert buf[..n + m] == buf[..n] + buf[n..n + m];
    }

    // One "%s = %s\n" of config_save.
    method PrintEntry(buf: array<char>, n: nat, e: Entry) returns (m: nat)
      requires n + |LineOf(e)| + 1 < buf.Length
      modifies buf
      ensures m == |LineOf(e) + "\n"| && n + m < buf.Length
      ensures buf[..n + m] == old(buf[..n]) + (LineOf(e) + "\n") && buf[n + m] == '\0'
    {
      EntryPrinted(e);
      m := PrintAt(buf, n, "%s = %s\n", [Text(e.key), Text(e.val)], LineOf(e) + "\n");
    }
  }

  // The string in buf is s.
  ghost predicate Reads(buf: array<char>, s: string)
    reads buf
  {
    |s| < buf.Length && buf[..|s|] == s && buf[|s|] == '\0'
  }

  lemma NothingYet(t: Table)
    ensures HEADER + Body(t[..0]) == HEADER
  {
    assert t[..0] == [] && HEADER + "" == HEADER;
  }

  lemma BodyPrefix(t: Table, i: nat)
    requires i < |t| && Fits(t) && |t| == CFG_MAX
    ensures Body(t[..i + 1]) == Body(t[..i]) + if t[i].used then LineOf(t[i]) + "\n" else ""
    ensures |HEADER + Body(t[..i + 1])| < BUFSIZE
  {
    BodyAppend(t[..i], [t[i]]);
    assert t[..i + 1] == t[..i] + [t[i]];
    assert [t[i]][1..] == [];
    BodySize(t[..i + 1]);
    SavedFits(t);
  }

  lemma {:induction false} BodyAppend(a: Table, b: Table)
    ensures Body(a + b) == Body(a) + Body(b)
    decreases |a|
  {
    if a == [] {
      assert a + b == b;
    } else {
      assert (a + b)[1..] == a[1..] + b;
      BodyAppend(a[1..], b);
    }
  }
}
