// kernel/gui/m1ss.c over the text by index, with its fixed token buffers. Every read is at or
// before the terminator and every store inside a buffer; each loop moves towards the end of the
// text. The methods are proved against the functions of Sheet.
module M1ss {
  import opened Strings
  import opened Printf
  import S = Sheet

  // ---- Colours ----

  // Reading the w hex digits of v leaves v in the accumulator.
  lemma {:induction false} HexRead(v: nat, w: nat, n: nat, rest: string)
    requires v < Pow16(w) && w <= n
    ensures S.HexDigits(Hex(v, w) + rest, n, 0) == S.HexDigits(rest, n - w, v)
    decreases w
  {
    if w == 0 {
      assert Hex(v, w) + rest == rest;
    } else {
      var d := DIGITS[v % 16];
      QuotientFits(v, Pow16(w - 1));
      HexRead(v / 16, w - 1, n, [d] + rest);
      assert Hex(v, w) + rest == Hex(v / 16, w - 1) + ([d] + rest);
      assert ([d] + rest)[1..] == rest;
      HexDigit(v % 16);
    }
  }

  lemma HexDigit(d: nat)
    requires d < 16
    ensures S.HexVal(DIGITS[d]) == d
  {
  }

  // m1ss_parse_color undoes "#%06x" on every 24-bit colour.
  lemma ColourRoundTrip(c: nat)
    requires c < S.RGB
    ensures S.ParseColour("#" + Expand("%06x", [Num(c)])) == S.Rgb(c)
  {
    HexPrinted(c);
    Pow16Six();
    HexRead(c, 6, 6, "");
    assert Hex(c, 6) + "" == Hex(c, 6);
    AfterHash(Hex(c, 6), c);
  }

  lemma {:induction false} AfterHash(h: string, c: nat)
    requires S.HexDigits(h, 6, 0) == (c, 0) && c < S.RGB
    ensures S.ParseColour("#" + h) == S.Rgb(c)
  {
    var s := "#" + h;
    assert s[0] == '#' && SkipBlanks(s) == s && s[1..] == h;
  }

  method ParseColour(text: string) returns (r: S.Colour)
    ensures r == S.ParseColour(text)
  {
    var s := DropBlanks(text);
    if s != "" && s[0] == '#' {
      var v, n := ReadHex(s[1..]);
      return if n == 6 then S.Rgb(v % S.RGB) else S.NoColour;
    }
    r := S.Named(s);
  }

  method ReadHex(s: string) returns (v: nat, n: nat)
    ensures n <= 6 && S.HexDigits(s, 6, 0) == (v, 6 - n)
  {
    v, n := 0, 0;
    assert s[0..] == s;
    while n < 6 && n < |s| && S.HexVal(s[n]) >= 0
      invariant n <= 6 && n <= |s| && S.HexDigits(s[n..], 6 - n, v) == S.HexDigits(s, 6, 0)
      decreases 6 - n
    {
      assert s[n..][1..] == s[n + 1..];
      v := v * 16 + S.HexVal(s[n]);
      n := n + 1;
    }
  }

  // ---- Tokenizer ----

  method SkipWs(text: string, i: nat) returns (j: nat)
    requires i <= |text|
    ensures i <= j <= |text| && text[j..] == S.SkipWs(text[i..])
  {
    j := i;
    while true
      invariant i <= j <= |text| && S.SkipWs(text[j..]) == S.SkipWs(text[i..])
      decreases |text| - j
    {
      j := SkipSpaces(text, j);
      if j + 1 < |text| && text[j] == '/' && text[j + 1] == '*' {
        assert S.StartsBlock(text[j..]) && text[j..][2..] == text[j + 2..];
        j := SkipBlock(text, j + 2);
        continue;
      }
      if j < |text| && ((j + 1 < |text| && text[j] == '/' && text[j + 1] == '/') || text[j] == '#') {
        assert S.StartsLine(text[j..]) && !S.StartsBlock(text[j..]);
        j := SkipLine(text, j);
        continue;
      }
      break;
    }
  }

  method SkipSpaces(text: string, i: nat) returns (j: nat)
    requires i <= |text|
    ensures i <= j <= |text| && S.SkipWs(text[j..]) == S.SkipWs(text[i..]) && (j < |text| ==> !S.IsWs(text[j]))
  {
    j := i;
    while j < |text| && S.IsWs(text[j])
      invariant i <= j <= |text| && S.SkipWs(text[j..]) == S.SkipWs(text[i..])
    {
      assert text[j..][1..] == text[j + 1..];
      j := j + 1;
    }
  }

  method SkipBlock(text: string, i: nat) returns (j: nat)
    requires i <= |text|
    ensures i <= j <= |text| && text[j..] == S.EndOfBlock(text[i..])
  {
    j := i;
    while j < |text| && !(text[j] == '*' && j + 1 < |text| && text[j + 1] == '/')
      invariant i <= j <= |text| && S.EndOfBlock(text[j..]) == S.EndOfBlock(text[i..])
    {
      assert text[j..][1..] == text[j + 1..];
      j := j + 1;
    }
    if j < |text| {
      assert text[j..][2..] == text[j + 2..];
      j := j + 2;
    }
  }

  method SkipLine(text: string, i: nat) returns (j: nat)
    requires i < |text| && text[i] != '\n'
    ensures i < j <= |text| && text[j..] == S.EndOfLine(text[i..])
  {
    j := i;
    while j < |text| && text[j] != '\n'
      invariant i <= j <= |text| && S.EndOfLine(text[j..]) == S.EndOfLine(text[i..])
    {
      assert text[j..][1..] == text[j + 1..];
      j := j + 1;
    }
  }

  // Storing one more character, or dropping it when the buffer is full.
  lemma CutMore(s: string, c: char, cap: nat)
    requires cap > 0
    ensures Cut(s + [c], cap) == if |Cut(s, cap)| < cap - 1 then Cut(s, cap) + [c] else Cut(s, cap)
  {
  }

  // if (n < cap - 1) out[n++] = c; the buffer holds what fits of s.
  method PutChar(out: array<char>, n: nat, cap: nat, c: char, ghost s: string) returns (n': nat)
    requires 0 < cap <= out.Length && n == |Cut(s, cap)| && out[..n] == Cut(s, cap)
    modifies out
    ensures n' == |Cut(s + [c], cap)| < cap && out[..n'] == Cut(s + [c], cap)
  {
    CutMore(s, c, cap);
    n' := n;
    if n < cap - 1 {
      out[n] := c;
      n' := n + 1;
    }
  }

  // The C string in out is s.
  ghost predicate Reads(out: array<char>, n: nat, s: string)
    reads out
  {
    n == |s| < out.Length && out[..n] == s && out[n] == '\0'
  }

  // The next character of text[i..] into the buffer
  method PutNext(text: string, i: nat, j: nat, out: array<char>, n: nat, cap: nat) returns (n': nat)
    requires i <= j < |text| && 0 < cap <= out.Length
    requires n == |Cut(text[i..j], cap)| && out[..n] == Cut(text[i..j], cap)
    modifies out
    ensures n' == |Cut(text[i..j + 1], cap)| < cap && out[..n'] == Cut(text[i..j + 1], cap)
  {
    NextChar(text, i, j);
    n' := PutChar(out, n, cap, text[j], text[i..j]);
  }

  method ReadToken(text: string, i: nat, out: array<char>, cap: nat, stops: string) returns (j: nat, n: nat)
    requires i <= |text| && 0 < cap <= out.Length
    modifies out
    ensures var len := S.TokenLength(text[i..], stops);
      j == i + len && n < cap && Reads(out, n, Cut(text[i..j], cap))
  {
    j, n := i, 0;
    while j < |text| && !S.Ends(text[j], stops)
      invariant i <= j <= |text| && j + S.TokenLength(text[j..], stops) == i + S.TokenLength(text[i..], stops)
      invariant n == |Cut(text[i..j], cap)| < cap && out[..n] == Cut(text[i..j], cap)
    {
      TokenStep(text, j, stops);
      n := PutNext(text, i, j, out, n, cap);
      j := j + 1;
    }
    out[n] := '\0';
  }

  lemma {:induction false} TokenStep(text: string, j: nat, stops: string)
    requires j < |text| && !S.Ends(text[j], stops)
    ensures S.TokenLength(text[j..], stops) == 1 + S.TokenLength(text[j + 1..], stops)
  {
    assert text[j..][1..] == text[j + 1..];
  }

  lemma NextChar(text: string, i: nat, j: nat)
    requires i <= j < |text|
    ensures text[i..j + 1] == text[i..j] + [text[j]] && text[j..][1..] == text[j + 1..]
  {
  }

  // read_token and the skip_ws that always follows it
  method ReadWord(text: string, i: nat, out: array<char>, stops: string) returns (q: nat, n: nat)
    requires i <= |text| && out.Length == S.TOKEN
    modifies out
    ensures var p := text[i..]; var len := S.TokenLength(p, stops);
      i + len <= q <= |text| && text[q..] == S.SkipWs(p[len..]) && Reads(out, n, Cut(p[..len], S.TOKEN))
  {
    var j;
    j, n := ReadToken(text, i, out, S.TOKEN, stops);
    assert text[i..][..j - i] == text[i..j] && text[i..][j - i..] == text[j..];
    q := SkipWs(text, j);
  }

  lemma {:induction false} ValueIs(p: string, n: nat)
    requires n <= |p| && (n < |p| ==> p[n] == ';' || p[n] == '}')
      && forall i :: 0 <= i < n ==> p[i] != ';' && p[i] != '}'
    ensures S.ValueLength(p) == n
  {
  }

  // The value loop of m1ss_parse, and its trimming loop
  method ReadValue(text: string, i: nat, val: array<char>) returns (j: nat, n: nat)
    requires i <= |text| && val.Length == S.VALUE
    modifies val
    ensures j == i + S.ValueLength(text[i..]) && Reads(val, n, S.TrimEnd(Cut(text[i..j], S.VALUE)))
  {
    j, n := CopyValue(text, i, val);
    n := TrimBuffer(val, n, Cut(text[i..j], S.VALUE));
  }

  method CopyValue(text: string, i: nat, val: array<char>) returns (j: nat, n: nat)
    requires i <= |text| && val.Length == S.VALUE
    modifies val
    ensures j == i + S.ValueLength(text[i..]) <= |text|
    ensures n == |Cut(text[i..j], S.VALUE)| < S.VALUE && val[..n] == Cut(text[i..j], S.VALUE)
  {
    j, n := i, 0;
    while j < |text| && text[j] != ';' && text[j] != '}'
      invariant i <= j <= |text| && j + S.ValueLength(text[j..]) == i + S.ValueLength(text[i..])
      invariant n == |Cut(text[i..j], S.VALUE)| < S.VALUE && val[..n] == Cut(text[i..j], S.VALUE)
    {
      ValueStep(text, j);
      n := PutNext(text, i, j, val, n, S.VALUE);
      j := j + 1;
    }
  }

  lemma {:induction false} ValueStep(text: string, j: nat)
    requires j < |text| && text[j] != ';' && text[j] != '}'
    ensures S.ValueLength(text[j..]) == 1 + S.ValueLength(text[j + 1..])
  {
    assert text[j..][1..] == text[j + 1..];
  }

  method TrimBuffer(val: array<char>, len: nat, ghost s: string) returns (n: nat)
    requires len == |s| < val.Length && val[..len] == s
    modifies val
    ensures Reads(val, n, S.TrimEnd(s))
  {
    n := len;
    val[n] := '\0';
    while n > 0 && (IsBlank(val[n - 1]) || val[n - 1] == '\r')
      invariant n < val.Length && S.TrimEnd(val[..n]) == S.TrimEnd(s) && val[n] == '\0'
    {
      assert val[..n][..n - 1] == val[..n - 1];
      n := n - 1;
      val[n] := '\0';
    }
  }

  // while (*p && *p != ';' && *p != '}') p++; if (*p == ';') p++;
  method SkipBad(text: string, i: nat) returns (j: nat)
    requires i <= |text|
    ensures i <= j <= |text| && text[j..] == S.Recover(text[i..])
  {
    j := i;
    while j < |text| && text[j] != ';' && text[j] != '}'
      invariant i <= j <= |text| && forall k :: i <= k < j ==> text[k] != ';' && text[k] != '}'
    {
      j := j + 1;
    }
    ValueIs(text[i..], j - i);
    assert text[i..][j - i..] == text[j..];
    if j < |text| && text[j] == ';' {
      assert text[j..][1..] == text[j + 1..];
      j := j + 1;
    }
  }

  // ---- Parser ----

  // One round of the inner for (;;). The theme is handed through, as g is in the source.
  method Declaration(text: string, i: nat, g: S.Theme, sel: string, prop: array<char>, val: array<char>)
    returns (g': S.Theme, j: nat)
    requires i < |text| && text[i] != '}' && S.SkipWs(text[i..]) == text[i..]
    requires prop.Length == S.TOKEN && val.Length == S.VALUE && prop != val
    modifies prop, val
    ensures i < j <= |text| && (g', text[j..]) == S.Declaration(g, sel, text[i..])
  {
    var q, n := ReadWord(text, i, prop, ":}");
    g', j := AtValue(text, q, g, sel, prop[..n], val);
  }

  method AtValue(text: string, i: nat, g: S.Theme, sel: string, prop: string, val: array<char>)
    returns (g': S.Theme, j: nat)
    requires i <= |text| && val.Length == S.VALUE
    modifies val
    ensures i <= j <= |text| && (g', text[j..]) == S.ValueAt(g, sel, prop, text[i..])
  {
    if i == |text| || text[i] != ':' {
      g' := g;
      j := SkipBad(text, i);
    } else {
      assert text[i..][1..] == text[i + 1..];
      g', j := Assign(text, i + 1, g, sel, prop, val);
    }
  }

  // The part behind ':'
  method Assign(text: string, i: nat, g: S.Theme, sel: string, prop: string, val: array<char>)
    returns (g': S.Theme, j: nat)
    requires i <= |text| && val.Length == S.VALUE
    modifies val
    ensures i <= j <= |text| && (g', text[j..]) == S.Assigned(g, sel, prop, text[i..])
  {
    var p := SkipWs(text, i);
    ghost var v := text[p..];
    var q, m := ReadValue(text, p, val);
    assert v[..q - p] == text[p..q] && v[q - p..] == text[q..];
    var value := val[..m];
    j := q;
    if j < |text| && text[j] == ';' {
      assert text[j..][1..] == text[j + 1..];
      j := j + 1;
    }
    AssignedIs(g, sel, prop, text[i..], v, q - p, value, text[j..]);
    g' := if prop != "" then S.Apply(g, sel, prop, value) else g;
  }

  lemma {:induction false} AssignedIs(t: S.Theme, sel: string, prop: string, p: string, v: string, m: nat, val: string,
                                      rest: string)
    requires v == S.SkipWs(p) && m == S.ValueLength(v) && val == S.TrimEnd(Cut(v[..m], S.VALUE))
      && rest == S.DropSemi(v[m..])
    ensures S.Assigned(t, sel, prop, p) == (if prop != "" then S.Apply(t, sel, prop, val) else t, rest)
  {
  }

  // One round, seen from the character behind the blanks and comments
  lemma {:induction false} BlockRound(g: S.Theme, sel: string, p: string)
    ensures var q := S.SkipWs(p); S.SkipWs(q) == q
    ensures var q := S.SkipWs(p);
      S.Block(g, sel, p) ==
        if q == "" then (g, "") else if q[0] == '}' then (g, q[1..])
        else S.Block(S.Declaration(g, sel, q).0, sel, S.Declaration(g, sel, q).1)
  {
  }

  method Block(text: string, i: nat, g: S.Theme, sel: string, prop: array<char>, val: array<char>)
    returns (g': S.Theme, j: nat)
    requires i <= |text| && prop.Length == S.TOKEN && val.Length == S.VALUE && prop != val
    modifies prop, val
    ensures i <= j <= |text| && (g', text[j..]) == S.Block(g, sel, text[i..])
  {
    g', j := g, i;
    ghost var all := S.Block(g, sel, text[i..]);
    while true
      invariant i <= j <= |text| && S.Block(g', sel, text[j..]) == all
      decreases |text| - j
    {
      BlockRound(g', sel, text[j..]);
      j := SkipWs(text, j);
      if j == |text| { return; }
      if text[j] == '}' {
        assert text[j..][1..] == text[j + 1..];
        j := j + 1;
        return;
      }
      g', j := Declaration(text, j, g', sel, prop, val);
    }
  }

  // One round of the outer loop
  method Selector(text: string, i: nat, g: S.Theme, sel: array<char>, prop: array<char>, val: array<char>)
    returns (g': S.Theme, j: nat)
    requires i < |text| && sel.Length == S.TOKEN && prop.Length == S.TOKEN && val.Length == S.VALUE
    requires sel != prop && prop != val && sel != val
    modifies sel, prop, val
    ensures i < j <= |text| && (g', text[j..]) == S.Selector(g, text[i..])
  {
    j := SkipWs(text, i);
    var n;
    j, n := ReadWord(text, j, sel, "{");
    g', j := AtBlock(text, j, g, sel[..n], prop, val);
  }

  method AtBlock(text: string, i: nat, g: S.Theme, sel: string, prop: array<char>, val: array<char>)
    returns (g': S.Theme, j: nat)
    requires i <= |text| && prop.Length == S.TOKEN && val.Length == S.VALUE && prop != val
    modifies prop, val
    ensures i <= j <= |text| && (g', text[j..]) == S.BlockAt(g, sel, text[i..])
  {
    g', j := g, i;
    if j == |text| { return; }
    assert text[i..][1..] == text[i + 1..];
    if text[j] != '{' {
      j := j + 1;
    } else {
      g', j := Block(text, j + 1, g, sel, prop, val);
    }
  }

  class Styles {
    var g: S.Theme

    // theme_defaults
    constructor ()
      ensures g == S.DEFAULTS
    {
      g := S.DEFAULTS;
    }

    method M1ssParse(text: string)
      modifies `g
      ensures g == S.Parse(old(g), text)
    {
      var sel, prop, val := new char[S.TOKEN], new char[S.TOKEN], new char[S.VALUE];
      var p := 0;
      assert text[0..] == text;
      while p < |text|
        invariant p <= |text| && S.Parse(g, text[p..]) == S.Parse(old(g), text)
        invariant fresh(sel) && fresh(prop) && fresh(val)
        decreases |text| - p
      {
        g, p := Selector(text, p, g, sel, prop, val);
      }
    }
  }
}
