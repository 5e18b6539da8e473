// kernel/lib/printf.c into a buffer: the sink, the format interpreter and kvsnprintf. The
// variable arguments are a list; a directive with no argument left prints nothing.
module Printf {
  import opened Memory
  import opened Strings

  datatype Arg = Text(s: string) | Num(v: int)

  // ---- What a format prints ----

  function Spaces(n: int, pad: char): (s: string)
    ensures |s| == if n > 0 then n else 0
    ensures forall i :: 0 <= i < |s| ==> s[i] == pad
  {
    if n <= 0 then "" else [pad] + Spaces(n - 1, pad)
  }

  // emit_pad
  function Padded(s: string, width: int, zero: bool, left: bool): string {
    if left then s + Spaces(width - |s|, ' ')
    else if zero && s != "" && s[0] == '-' then "-" + Spaces(width - (|s| - 1), '0') + s[1..]
    else Spaces(width - |s|, if zero then '0' else ' ') + s
  }

  datatype Spec = Spec(zero: bool, left: bool, width: nat, rest: string)

  function Flags(s: string, zero: bool, left: bool): (r: Spec)
    ensures |r.rest| <= |s|
  {
    if s != "" && s[0] == '0' then Flags(s[1..], true, left)
    else if s != "" && s[0] == '-' then Flags(s[1..], zero, true)
    else Spec(zero, left, 0, s)
  }

  function Width(p: Spec): (r: Spec)
    ensures |r.rest| <= |p.rest|
    decreases |p.rest|
  {
    if p.rest != "" && IsDigit(p.rest[0]) then
      Width(p.(width := p.width * 10 + (p.rest[0] as int - '0' as int), rest := p.rest[1..]))
    else p
  }

  function Upper(s: string): string {
    if s == "" then ""
    else [if 'a' <= s[0] <= 'f' then (s[0] as int - 'a' as int + 'A' as int) as char else s[0]] + Upper(s[1..])
  }

  // An argument read as unsigned int.
  function Unsigned(a: Arg): word {
    if a.Num? then a.v % 0x1_0000_0000 else 0
  }

  function Signed(a: Arg): int {
    if a.Num? then a.v else 0
  }

  // The contents of numbuf for a numeric directive.
  function NumberText(c: char, a: Arg): string {
    match c
    case 'u' => Numeral(Unsigned(a), 10)
    case 'x' => Numeral(Unsigned(a), 16)
    case 'X' => Upper(Numeral(Unsigned(a), 16))
    case _ => Decimal(Signed(a))
  }

  // One conversion.
  function Convert(c: char, p: Spec, a: Arg): string {
    if c == 'c' then (if a.Num? then [(a.v % 0x100) as char] else "")
    else if c == 's' then Padded(if a.Text? then a.s else "(null)", p.width, false, p.left)
    else if c == 'p' then "0x" + Padded(Numeral(Unsigned(a), 16), 8, true, false)
    else Padded(NumberText(c, a), p.width, p.zero, p.left)
  }

  predicate Takes(c: char) {
    c in {'c', 's', 'd', 'i', 'u', 'x', 'X', 'p'}
  }

  function Expand(fmt: string, args: seq<Arg>): string
    decreases |fmt|
  {
    if fmt == "" then ""
    else if fmt[0] != '%' then [fmt[0]] + Expand(fmt[1..], args)
    else
      var p := Width(Flags(fmt[1..], false, false));
      if p.rest == "" then ""
      else
        var (piece, used) := Piece(p, args);
        piece + Expand(p.rest[1..], args[used..])
  }

  // What one directive prints, and how many arguments it takes.
  function Piece(p: Spec, args: seq<Arg>): (r: (string, nat))
    requires p.rest != ""
    ensures r.1 <= |args|
  {
    var c := p.rest[0];
    if c == '%' then ("%", 0)
    else if !Takes(c) then ("%" + [c], 0)
    else if args == [] then ("", 0)
    else (Convert(c, p, args[0]), 1)
  }

  lemma Glue(a: string, b: string, c: string)
    ensures a + (b + c) == (a + b) + c
  {
  }

  // ---- The sink ----

  // sink_t over buf[off..off + cap]; `text` is everything emitted so far.
  class Sink {
    const buf: array<char>
    const off: nat
    const cap: nat
    var len: nat
    ghost var text: string

    ghost predicate Valid()
      reads this, buf
    {
      && off + cap <= buf.Length && len == |text|
      && (cap > 0 ==> var k := |Cut(text, cap)|; buf[off..off + k] == Cut(text, cap))
    }

    constructor (b: array<char>, o: nat, c: nat)
      requires o + c <= b.Length
      ensures Valid() && buf == b && off == o && cap == c && text == ""
    {
      buf, off, cap, len, text := b, o, c, 0, "";
    }

    method Emit(c: char)
      requires Valid()
      modifies this, buf
      ensures Valid() && text == old(text) + [c]
      ensures buf[..off] == old(buf[..off]) && buf[off + cap..] == old(buf[off + cap..])
    {
      if len + 1 < cap { buf[off + len] := c; }
      len := len + 1;
      text := text + [c];
    }

    method EmitStr(s: string)
      requires Valid()
      modifies this, buf
      ensures Valid() && text == old(text) + s
      ensures buf[..off] == old(buf[..off]) && buf[off + cap..] == old(buf[off + cap..])
    {
      var i := 0;
      while i < |s|
        invariant Valid() && i <= |s| && text == old(text) + s[..i]
        invariant buf[..off] == old(buf[..off]) && buf[off + cap..] == old(buf[off + cap..])
      {
        assert s[..i + 1] == s[..i] + [s[i]];
        Emit(s[i]);
        i := i + 1;
      }
      assert s[..i] == s;
    }

    // The padding loops of emit_pad: for (i = l; i < width; i++) emit(pad)
    method EmitPadding(l: int, width: int, pad: char)
      requires Valid()
      modifies this, buf
      ensures Valid() && text == old(text) + Spaces(width - l, pad)
      ensures buf[..off] == old(buf[..off]) && buf[off + cap..] == old(buf[off + cap..])
    {
      var i := l;
      while i < width
        invariant Valid() && (i <= width || i == l)
          && text + Spaces(width - i, pad) == old(text) + Spaces(width - l, pad)
        invariant buf[..off] == old(buf[..off]) && buf[off + cap..] == old(buf[off + cap..])
      {
        ghost var t := text;
        Emit(pad);
        assert t + Spaces(width - i, pad) == t + [pad] + Spaces(width - (i + 1), pad);
        i := i + 1;
      }
      assert text + "" == text;
    }

    method EmitPad(s: string, width: int, zero: bool, left: bool)
      requires Valid()
      modifies this, buf
      ensures Valid() && text == old(text) + Padded(s, width, zero, left)
      ensures buf[..off] == old(buf[..off]) && buf[off + cap..] == old(buf[off + cap..])
    {
      ghost var t := text;
      if left {
        EmitStr(s);
        EmitPadding(|s|, width, ' ');
        Glue(t, s, Spaces(width - |s|, ' '));
        return;
      }
      var pad := if zero then '0' else ' ';
      if zero && s != "" && s[0] == '-' {
        EmitSigned(s, width);
      } else {
        EmitPadding(|s|, width, pad);
        EmitStr(s);
        Glue(t, Spaces(width - |s|, pad), s);
      }
    }

    // A negative number padded with zeros: the sign goes first.
    method EmitSigned(s: string, width: int)
      requires Valid() && s != "" && s[0] == '-'
      modifies this, buf
      ensures Valid() && text == old(text) + ("-" + Spaces(width - (|s| - 1), '0') + s[1..])
      ensures buf[..off] == old(buf[..off]) && buf[off + cap..] == old(buf[off + cap..])
    {
      ghost var t, zeros := text, Spaces(width - (|s| - 1), '0');
      Emit('-');
      EmitPadding(|s| - 1, width, '0');
      EmitStr(s[1..]);
      Glue(t, "-", zeros);
      Glue(t, "-" + zeros, s[1..]);
    }

    // The case of format that converts one argument.
    method EmitArg(c: char, p: Spec, a: Arg)
      requires Valid() && Takes(c) && (a.Num? ==> -0x8000_0000 < a.v < 0x8000_0000)
      modifies this, buf
      ensures Valid() && text == old(text) + Convert(c, p, a)
      ensures buf[..off] == old(buf[..off]) && buf[off + cap..] == old(buf[off + cap..])
    {
      if c == 'c' {
        if a.Num? { Emit((a.v % 0x100) as char); }
        assert text == old(text) + if a.Num? then [(a.v % 0x100) as char] else "";
      } else if c == 's' {
        EmitPad(if a.Text? then a.s else "(null)", p.width, false, p.left);
      } else if c == 'p' {
        var num := Utoa(Unsigned(a), 16);
        EmitPointer(num);
      } else {
        var num := Convertible(c, a);
        EmitPad(num, p.width, p.zero, p.left);
      }
    }

    method EmitPointer(num: string)
      requires Valid()
      modifies this, buf
      ensures Valid() && text == old(text) + ("0x" + Padded(num, 8, true, false))
      ensures buf[..off] == old(buf[..off]) && buf[off + cap..] == old(buf[off + cap..])
    {
      EmitStr("0x");
      EmitPad(num, 8, true, false);
    }

    // numbuf
    static method Convertible(c: char, a: Arg) returns (s: string)
      requires a.Num? ==> -0x8000_0000 < a.v < 0x8000_0000
      ensures s == NumberText(c, a)
    {
      match c
      case 'u' => s := Utoa(Unsigned(a), 10);
      case 'x' => s := Utoa(Unsigned(a), 16);
      case 'X' =>
        s := Utoa(Unsigned(a), 16);
        s := Upper(s);
      case _ => s := Itoa(Signed(a), 10);
    }

    // format: the characters are copied, directives replaced by their arguments.
    method Format(fmt: string, args: seq<Arg>)
      requires Valid() && forall i :: 0 <= i < |args| && args[i].Num? ==> -0x8000_0000 < args[i].v < 0x8000_0000
      modifies this, buf
      ensures Valid() && text == old(text) + Expand(fmt, args)
      ensures buf[..off] == old(buf[..off]) && buf[off + cap..] == old(buf[off + cap..])
    {
      var i, k := 0, 0;
      ghost var goal := old(text) + Expand(fmt, args);
      assert fmt[0..] == fmt && args[0..] == args;
      while i < |fmt|
        invariant Valid() && i <= |fmt| && k <= |args|
        invariant text + Expand(fmt[i..], args[k..]) == goal
        invariant buf[..off] == old(buf[..off]) && buf[off + cap..] == old(buf[off + cap..])
        decreases |fmt| - i
      {
        ghost var t := text;
        if fmt[i] != '%' {
          assert fmt[i..][1..] == fmt[i + 1..];
          Emit(fmt[i]);
          Glue(t, [fmt[i]], Expand(fmt[i + 1..], args[k..]));
          i := i + 1;
        } else {
          i, k := Directive(fmt, i, args, k);
        }
      }
      assert text + "" == text;
    }

    // One '%' directive at i; the number of arguments used goes from k to k'.
    method Directive(fmt: string, i: nat, args: seq<Arg>, k: nat) returns (i': nat, k': nat)
      requires Valid() && i < |fmt| && fmt[i] == '%' && k <= |args|
      requires forall j :: 0 <= j < |args| && args[j].Num? ==> -0x8000_0000 < args[j].v < 0x8000_0000
      modifies this, buf
      ensures Valid() && i < i' <= |fmt| && k <= k' <= |args|
      ensures text + Expand(fmt[i'..], args[k'..]) == old(text) + Expand(fmt[i..], args[k..])
      ensures buf[..off] == old(buf[..off]) && buf[off + cap..] == old(buf[off + cap..])
    {
      var p := ReadSpec(fmt, i + 1);
      ghost var tail := fmt[i..][1..];
      assert tail == fmt[i + 1..] && p == Width(Flags(tail, false, false));
      if p.rest == "" {
        i', k' := |fmt|, k;
      } else {
        i' := |fmt| - |p.rest| + 1;
        assert fmt[i'..] == p.rest[1..];
        ghost var t := text;
        k' := Conversion(p, args, k);
        assert args[k..][k' - k..] == args[k'..];
        Glue(t, Piece(p, args[k..]).0, Expand(fmt[i'..], args[k'..]));
      }
    }

    // The switch of format, at the conversion character.
    method Conversion(p: Spec, args: seq<Arg>, k: nat) returns (k': nat)
      requires Valid() && p.rest != "" && k <= |args|
      requires forall j :: 0 <= j < |args| && args[j].Num? ==> -0x8000_0000 < args[j].v < 0x8000_0000
      modifies this, buf
      ensures Valid() && text == old(text) + Piece(p, args[k..]).0 && k' == k + Piece(p, args[k..]).1
      ensures buf[..off] == old(buf[..off]) && buf[off + cap..] == old(buf[off + cap..])
    {
      var c := p.rest[0];
      k' := k;
      if c == '%' {
        Emit('%');
      } else if !Takes(c) {
        Emit('%');
        Emit(c);
      } else if k < |args| {
        EmitArg(c, p, args[k]);
        k' := k + 1;
      }
    }

    // The flag and width loops of format.
    static method ReadSpec(fmt: string, i: nat) returns (p: Spec)
      requires i <= |fmt|
      ensures p == Width(Flags(fmt[i..], false, false)) && |p.rest| <= |fmt| - i && p.rest == fmt[|fmt| - |p.rest|..]
    {
      var j, zero, left := i, false, false;
      ghost var goal := Flags(fmt[i..], false, false);
      while j < |fmt| && (fmt[j] == '0' || fmt[j] == '-')
        invariant i <= j <= |fmt| && Flags(fmt[j..], zero, left) == goal
      {
        assert fmt[j..][1..] == fmt[j + 1..];
        if fmt[j] == '0' { zero := true; } else { left := true; }
        j := j + 1;
      }
      p := Spec(zero, left, 0, fmt[j..]);
      assert goal == p;
      while j < |fmt| && IsDigit(fmt[j])
        invariant i <= j <= |fmt| && p.rest == fmt[j..] && Width(p) == Width(goal)
      {
        assert fmt[j..][1..] == fmt[j + 1..];
        p := p.(width := p.width * 10 + (fmt[j] as int - '0' as int), rest := fmt[j + 1..]);
        j := j + 1;
      }
    }
  }

  // kvsnprintf into buf[off..off + size]: the length returned counts what did not fit.
  method Kvsnprintf(buf: array<char>, off: nat, size: nat, fmt: string, args: seq<Arg>) returns (n: nat)
    requires off + size <= buf.Length
    requires forall i :: 0 <= i < |args| && args[i].Num? ==> -0x8000_0000 < args[i].v < 0x8000_0000
    modifies buf
    ensures n == |Expand(fmt, args)|
    ensures size > 0 ==> var t := Cut(Expand(fmt, args), size); buf[off..off + |t|] == t && buf[off + |t|] == '\0'
    ensures buf[..off] == old(buf[..off]) && buf[off + size..] == old(buf[off + size..])
  {
    var s := new Sink(buf, off, size);
    assert s.text == "";
    s.Format(fmt, args);
    assert s.text == Expand(fmt, args);
    if size > 0 {
      buf[off + if s.len < size then s.len else size - 1] := '\0';
    }
    n := s.len;
  }

  // ---- The formats in use ----

  lemma {:induction false} ExpandChar(c: char, rest: string, args: seq<Arg>)
    requires c != '%'
    ensures Expand([c] + rest, args) == [c] + Expand(rest, args)
  {
    assert ([c] + rest)[1..] == rest;
  }

  // Text without directives prints as it stands.
  lemma {:induction false} ExpandPlain(lit: string, rest: string, args: seq<Arg>)
    requires '%' !in lit
    ensures Expand(lit + rest, args) == lit + Expand(rest, args)
    decreases |lit|
  {
    if lit == "" {
      assert lit + rest == rest;
    } else {
      var front, tail := [lit[0]], lit[1..];
      assert lit == front + tail;
      ExpandPlain(tail, rest, args);
      ExpandChar(lit[0], tail + rest, args);
      Glue(front, tail, rest);
      Glue(front, tail, Expand(rest, args));
    }
  }

  // "%s" prints its argument as it stands.
  lemma {:induction false} ExpandText(rest: string, s: string, args: seq<Arg>)
    ensures Expand("%s" + rest, [Text(s)] + args) == s + Expand(rest, args)
  {
    var f := "%s" + rest;
    assert f[1..] == "s" + rest;
    assert Flags(f[1..], false, false) == Spec(false, false, 0, f[1..]);
    assert Width(Spec(false, false, 0, f[1..])).rest == f[1..];
    assert f[1..][1..] == rest && ([Text(s)] + args)[1..] == args;
    assert Spaces(0 - |s|, ' ') + s == s;
  }

  // The last w hex digits of v
  function Hex(v: nat, w: nat): (s: string)
    ensures |s| == w
  {
    if w == 0 then "" else Hex(v / 16, w - 1) + [DIGITS[v % 16]]
  }

  function Pow16(w: nat): nat {
    if w == 0 then 1 else 16 * Pow16(w - 1)
  }

  lemma QuotientFits(v: nat, n: nat)
    requires v < 16 * n
    ensures v / 16 < n
  {
  }

  lemma {:induction false} OneDigit(v: nat, w: nat)
    requires v < 16 && w > 0
    ensures Numeral(v, 16) == [DIGITS[v]] && Spaces(w - 1, '0') + [DIGITS[v]] == Hex(v, w)
  {
    AllZeros(w - 1);
    assert Hex(v, w) == Hex(0, w - 1) + [DIGITS[v]];
  }

  lemma {:induction false} ZerosAndNumeral(v: nat, w: nat)
    requires v < Pow16(w) && w > 0
    ensures |Numeral(v, 16)| <= w && Spaces(w - |Numeral(v, 16)|, '0') + Numeral(v, 16) == Hex(v, w)
    decreases w
  {
    if v < 16 {
      OneDigit(v, w);
    } else {
      var q := v / 16;
      QuotientFits(v, Pow16(w - 1));
      assert w > 1;
      ZerosAndNumeral(q, w - 1);
      var front := Numeral(q, 16);
      assert Numeral(v, 16) == front + [DIGITS[v % 16]];
      Glue(Spaces(w - 1 - |front|, '0'), front, [DIGITS[v % 16]]);
    }
  }

  lemma {:induction false} AllZeros(w: nat)
    ensures Hex(0, w) == Spaces(w, '0')
    decreases w
  {
    if w > 0 {
      AllZeros(w - 1);
      assert Spaces(w, '0') == Spaces(w - 1, '0') + ['0'] by {
        var a, b := Spaces(w, '0'), Spaces(w - 1, '0') + ['0'];
        assert |a| == |b| && forall i :: 0 <= i < |a| ==> a[i] == b[i];
      }
    }
  }

  lemma {:induction false} NumeralStart(v: nat)
    ensures Numeral(v, 16)[0] != '-'
    decreases v
  {
    assert DIGITS[v % 16] != '-';
    if v >= 16 { NumeralStart(v / 16); }
  }

  lemma {:induction false} HexConverted(c: nat)
    requires c < 0x100_0000
    ensures Convert('x', Spec(true, false, 6, "x"), Num(c)) == Hex(c, 6)
  {
    assert Unsigned(Num(c)) == c;
    Pow16Six();
    ZerosAndNumeral(c, 6);
    NumeralStart(c);
  }

  lemma {:induction false} OneDirective(fmt: string, p: Spec, a: Arg)
    requires fmt != "" && fmt[0] == '%' && p == Width(Flags(fmt[1..], false, false)) && |p.rest| == 1
      && Takes(p.rest[0])
    ensures Expand(fmt, [a]) == Convert(p.rest[0], p, a)
  {
    assert [a][1..] == [] && p.rest[1..] == "";
    assert Convert(p.rest[0], p, a) + "" == Convert(p.rest[0], p, a);
  }

  // "%06x" prints a 24-bit number as exactly six digits.
  lemma {:induction false} HexPrinted(c: nat)
    requires c < 0x100_0000
    ensures Expand("%06x", [Num(c)]) == Hex(c, 6)
  {
    SpecHex6();
    OneDirective("%06x", Spec(true, false, 6, "x"), Num(c));
    HexConverted(c);
  }

  lemma SpecHex6()
    ensures "%06x"[1..] == "06x" && Width(Flags("06x", false, false)) == Spec(true, false, 6, "x")
  {
    assert "06x"[1..] == "6x" && "6x"[1..] == "x";
    assert Flags("06x", false, false) == Flags("6x", true, false) == Spec(true, false, 0, "6x");
    assert Width(Spec(true, false, 0, "6x")) == Width(Spec(true, false, 6, "x")) == Spec(true, false, 6, "x");
  }

  lemma Pow16Six()
    ensures Pow16(6) == 0x100_0000
  {
    assert Pow16(2) == 256;
    assert Pow16(4) == 0x1_0000;
  }
}
