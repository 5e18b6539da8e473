// The style sheet language of kernel/gui/m1ss.c as functions on the text that is left to read:
// the tokenizer, the parser and what one declaration does to the theme.
module Sheet {
  import opened Strings

  const TOKEN: nat := 32    // sel[32], prop[32]
  const VALUE: nat := 48    // val[48], key[48]

  datatype Theme = Theme(
    accent: nat, wallpaper: nat, glow1: nat, glow2: nat,
    radius: int, blur: int, opacity: int, shadow: int, border: int, tint: nat,
    barVisible: bool, barPos: nat, barHeight: int, barOpacity: int,
    termBg: nat, termFg: nat)

  const DEFAULTS: Theme := Theme(
    0xFF8C1A, 0, 0xFF8C1A, 0x6A4CFF,
    14, 6, 58, 16, 1, 0x12121A,
    true, 0, 34, 70,
    0x0E0E16, 0xEAEAEA)

  const RGB: nat := 0x100_0000

  // Every field within its documented range
  predicate InRange(t: Theme) {
    DesktopRange(t) && WindowRange(t) && BarRange(t) && TerminalRange(t)
  }

  predicate DesktopRange(t: Theme) {
    t.accent < RGB && t.wallpaper <= 3 && t.glow1 < RGB && t.glow2 < RGB
  }

  predicate WindowRange(t: Theme) {
    && 0 <= t.radius <= 40 && 0 <= t.blur <= 12 && 0 <= t.opacity <= 100 && 0 <= t.shadow <= 40 && 0 <= t.border <= 1
    && t.tint < RGB
  }

  predicate BarRange(t: Theme) {
    t.barPos <= 1 && 18 <= t.barHeight <= 64 && 0 <= t.barOpacity <= 100
  }

  predicate TerminalRange(t: Theme) {
    t.termBg < RGB && t.termFg < RGB
  }

  // ---- Values ----

  type Fair = t: Theme | InRange(t) witness DEFAULTS

  function HexVal(c: char): int {
    if '0' <= c <= '9' then c as int - '0' as int
    else if 'a' <= c <= 'f' then c as int - 'a' as int + 10
    else if 'A' <= c <= 'F' then c as int - 'A' as int + 10
    else -1
  }

  // The digit loop of m1ss_parse_color: at most n more digits; the value, and how many are missing.
  function HexDigits(s: string, n: nat, acc: nat): (nat, nat)
    decreases n
  {
    if n == 0 || s == "" || HexVal(s[0]) < 0 then (acc, n)
    else HexDigits(s[1..], n - 1, acc * 16 + HexVal(s[0]))
  }

  datatype Colour = NoColour | Rgb(c: nat)

  function Named(s: string): Colour {
    match s
    case "orange" => Rgb(0xFF8C1A)
    case "rose" => Rgb(0xFF4D6D)
    case "green" => Rgb(0x46E07A)
    case "blue" => Rgb(0x5AA8FF)
    case "purple" => Rgb(0xB98CFF)
    case "gold" => Rgb(0xFFD24A)
    case "white" => Rgb(0xEAEAEA)
    case "black" => Rgb(0)
    case "gray" => Rgb(0x909090)
    case _ => NoColour
  }

  // m1ss_parse_color
  function ParseColour(text: string): Colour {
    var s := SkipBlanks(text);
    if s != "" && s[0] == '#' then
      var (v, missing) := HexDigits(s[1..], 6, 0);
      if missing == 0 then Rgb(v % RGB) else NoColour
    else Named(s)
  }

  function Clamp(v: int, lo: int, hi: int): (r: int)
    requires lo <= hi
    ensures lo <= r <= hi && (lo <= v <= hi ==> r == v)
  {
    if v < lo then lo else if v > hi then hi else v
  }

  predicate Truth(s: string) {
    s == "true" || s == "1" || s == "on" || s == "yes"
  }

  function WallpaperId(s: string): nat {
    if s == "gradient" then 1 else if s == "grid" then 2 else if s == "solid" then 3 else 0
  }

  // The key "selector.property", in a buffer of 48 bytes.
  function Key(sel: string, prop: string): string {
    var k := sel + "." + prop;
    if |k| < VALUE then k else k[..VALUE - 1]
  }

  // The four groups of tests in apply. Keys differ, so at most one test holds.
  function ApplyDesktop(t: Theme, key: string, val: string): Theme {
    var c := ParseColour(val);
    match key
    case "desktop.accent" => if c.Rgb? then t.(accent := c.c) else t
    case "desktop.wallpaper" => t.(wallpaper := WallpaperId(val))
    case "desktop.glow1" => if c.Rgb? then t.(glow1 := c.c) else t
    case "desktop.glow2" => if c.Rgb? then t.(glow2 := c.c) else t
    case _ => t
  }

  function ApplyWindow(t: Theme, key: string, val: string): Theme {
    var c := ParseColour(val);
    match key
    case "window.radius" => t.(radius := Clamp(Number(val), 0, 40))
    case "window.blur" => t.(blur := Clamp(Number(val), 0, 12))
    case "window.opacity" => t.(opacity := Clamp(Number(val), 0, 100))
    case "window.shadow" => t.(shadow := Clamp(Number(val), 0, 40))
    case "window.border" => t.(border := Clamp(Number(val), 0, 1))
    case "window.tint" => if c.Rgb? then t.(tint := c.c) else t
    case _ => t
  }

  function ApplyTaskbar(t: Theme, key: string, val: string): Theme {
    match key
    case "taskbar.visible" => t.(barVisible := Truth(val))
    case "taskbar.position" => t.(barPos := if val == "top" then 1 else 0)
    case "taskbar.height" => t.(barHeight := Clamp(Number(val), 18, 64))
    case "taskbar.opacity" => t.(barOpacity := Clamp(Number(val), 0, 100))
    case _ => t
  }

  function ApplyTerminal(t: Theme, key: string, val: string): Theme {
    var c := ParseColour(val);
    match key
    case "terminal.background" => if c.Rgb? then t.(termBg := c.c) else t
    case "terminal.foreground" => if c.Rgb? then t.(termFg := c.c) else t
    case _ => t
  }

  // apply
  function Apply(t: Theme, sel: string, prop: string, val: string): Theme {
    var key := Key(sel, prop);
    ApplyTerminal(ApplyTaskbar(ApplyWindow(ApplyDesktop(t, key, val), key, val), key, val), key, val)
  }

  lemma ColourInRange(s: string)
    ensures ParseColour(s).Rgb? ==> ParseColour(s).c < RGB
  {
  }

  lemma DesktopInRange(t: Theme, key: string, val: string)
    requires InRange(t)
    ensures InRange(ApplyDesktop(t, key, val))
  {
    ColourInRange(val);
  }

  lemma WindowInRange(t: Theme, key: string, val: string)
    requires InRange(t)
    ensures InRange(ApplyWindow(t, key, val))
  {
    ColourInRange(val);
  }

  lemma TaskbarInRange(t: Theme, key: string, val: string)
    requires InRange(t)
    ensures InRange(ApplyTaskbar(t, key, val))
  {
  }

  lemma TerminalInRange(t: Theme, key: string, val: string)
    requires InRange(t)
    ensures InRange(ApplyTerminal(t, key, val))
  {
    ColourInRange(val);
  }

  // Whatever is written, a theme in range stays in range.
  lemma ApplyInRange(t: Theme, sel: string, prop: string, val: string)
    requires InRange(t)
    ensures InRange(Apply(t, sel, prop, val))
  {
    var key := Key(sel, prop);
    var d := ApplyDesktop(t, key, val);
    DesktopInRange(t, key, val);
    var w := ApplyWindow(d, key, val);
    WindowInRange(d, key, val);
    TaskbarInRange(w, key, val);
    TerminalInRange(ApplyTaskbar(w, key, val), key, val);
  }

  // ---- Tokenizer ----

  predicate IsWs(c: char) {
    c == ' ' || c == '\t' || c == '\n' || c == '\r'
  }

  // From inside a block comment to behind it
  function EndOfBlock(p: string): (r: string)
    ensures |r| <= |p|
  {
    if p == "" then ""
    else if |p| >= 2 && p[0] == '*' && p[1] == '/' then p[2..]
    else EndOfBlock(p[1..])
  }

  function EndOfLine(p: string): (r: string)
    ensures |r| <= |p| && (p != "" && p[0] != '\n' ==> |r| < |p|)
  {
    if p == "" || p[0] == '\n' then p else EndOfLine(p[1..])
  }

  predicate StartsLine(p: string) {
    p != "" && (p[0] == '#' || (|p| >= 2 && p[0] == '/' && p[1] == '/'))
  }

  predicate StartsBlock(p: string) {
    |p| >= 2 && p[0] == '/' && p[1] == '*'
  }

  // skip_ws
  function SkipWs(p: string): (r: string)
    ensures |r| <= |p|
    ensures r != "" ==> !IsWs(r[0]) && !StartsLine(r) && !StartsBlock(r)
    decreases |p|
  {
    if p == "" then ""
    else if IsWs(p[0]) then SkipWs(p[1..])
    else if StartsBlock(p) then SkipWs(EndOfBlock(p[2..]))
    else if StartsLine(p) then SkipWs(EndOfLine(p))
    else p
  }

  predicate Ends(c: char, stops: string) {
    c in stops || IsWs(c)
  }

  // How many characters read_token passes over.
  function TokenLength(p: string, stops: string): (n: nat)
    ensures n <= |p| && (n < |p| ==> Ends(p[n], stops))
    ensures forall i :: 0 <= i < n ==> !Ends(p[i], stops)
  {
    if p == "" || Ends(p[0], stops) then 0 else 1 + TokenLength(p[1..], stops)
  }

  function ValueLength(p: string): (n: nat)
    ensures n <= |p| && (n < |p| ==> p[n] == ';' || p[n] == '}')
    ensures forall i :: 0 <= i < n ==> p[i] != ';' && p[i] != '}'
  {
    if p == "" || p[0] == ';' || p[0] == '}' then 0 else 1 + ValueLength(p[1..])
  }

  function TrimEnd(s: string): (r: string)
    ensures r <= s
  {
    if s != "" && (IsBlank(s[|s| - 1]) || s[|s| - 1] == '\r') then TrimEnd(s[..|s| - 1]) else s
  }

  // ---- Parser ----

  function DropSemi(p: string): string {
    if p != "" && p[0] == ';' then p[1..] else p
  }

  // Behind a property name that no ':' follows
  function Recover(p: string): string {
    DropSemi(p[ValueLength(p)..])
  }

  // From behind ':' on: the value, and the assignment unless the property is empty
  function Assigned(t: Theme, sel: string, prop: string, p: string): (r: (Theme, string))
    ensures |r.1| <= |p|
  {
    var v := SkipWs(p);
    var m := ValueLength(v);
    (if prop != "" then Apply(t, sel, prop, TrimEnd(Cut(v[..m], VALUE))) else t, DropSemi(v[m..]))
  }

  // From behind the property on
  function ValueAt(t: Theme, sel: string, prop: string, q: string): (r: (Theme, string))
    ensures |r.1| <= |q| && (q != "" && q[0] == ':' ==> |r.1| < |q|)
  {
    if q == "" || q[0] != ':' then (t, Recover(q)) else Assigned(t, sel, prop, q[1..])
  }

  // One round of the declaration loop, at a character that is neither '}' nor the end.
  function Declaration(t: Theme, sel: string, p: string): (r: (Theme, string))
    requires p != "" && SkipWs(p) == p && p[0] != '}'
    ensures |r.1| < |p|
  {
    var n := TokenLength(p, ":}");
    assert n == 0 ==> p[n..] == p;
    ValueAt(t, sel, Cut(p[..n], TOKEN), SkipWs(p[n..]))
  }

  // The declarations of one selector, up to and including '}'.
  function Block(t: Theme, sel: string, p: string): (r: (Theme, string))
    ensures |r.1| <= |p|
    decreases |p|
  {
    var q := SkipWs(p);
    if q == "" then (t, "")
    else if q[0] == '}' then (t, q[1..])
    else
      assert SkipWs(q) == q;
      var (t', rest) := Declaration(t, sel, q);
      Block(t', sel, rest)
  }

  // From behind the selector on: its block, or a step past what is no block
  function BlockAt(t: Theme, sel: string, r: string): (x: (Theme, string))
    ensures r != "" ==> |x.1| < |r|
    ensures r == "" ==> x.1 == ""
  {
    if r == "" then (t, "")
    else if r[0] != '{' then (t, r[1..])
    else Block(t, sel, r[1..])
  }

  // One round of the outer loop
  function Selector(t: Theme, p: string): (r: (Theme, string))
    ensures p != "" ==> |r.1| < |p|
  {
    var q := SkipWs(p);
    var n := TokenLength(q, "{");
    BlockAt(t, Cut(q[..n], TOKEN), SkipWs(q[n..]))
  }

  // m1ss_parse
  function Parse(t: Theme, p: string): Theme
    decreases |p|
  {
    if p == "" then t
    else
      var (t', rest) := Selector(t, p);
      Parse(t', rest)
  }

  // ---- Ranges ----

  lemma {:induction false} DeclarationInRange(t: Theme, sel: string, p: string)
    requires InRange(t) && p != "" && SkipWs(p) == p && p[0] != '}'
    ensures InRange(Declaration(t, sel, p).0)
  {
    var n := TokenLength(p, ":}");
    var q := SkipWs(p[n..]);
    if q != "" && q[0] == ':' {
      var v := SkipWs(q[1..]);
      ApplyInRange(t, sel, Cut(p[..n], TOKEN), TrimEnd(Cut(v[..ValueLength(v)], VALUE)));
    }
  }

  lemma {:induction false} BlockInRange(t: Theme, sel: string, p: string)
    requires InRange(t)
    ensures InRange(Block(t, sel, p).0)
    decreases |p|
  {
    var q := SkipWs(p);
    if q != "" && q[0] != '}' {
      assert SkipWs(q) == q;
      DeclarationInRange(t, sel, q);
      var (t', rest) := Declaration(t, sel, q);
      BlockInRange(t', sel, rest);
    }
  }

  lemma SelectorInRange(t: Theme, p: string)
    requires InRange(t)
    ensures InRange(Selector(t, p).0)
  {
    var q := SkipWs(p);
    var n := TokenLength(q, "{");
    var r := SkipWs(q[n..]);
    if r != "" { BlockInRange(t, Cut(q[..n], TOKEN), r[1..]); }
  }

  // Parsing any text at all keeps every field in its documented range.
  lemma {:induction false} ParseInRange(t: Theme, p: string)
    requires InRange(t)
    ensures InRange(Parse(t, p))
    decreases |p|
  {
    if p != "" {
      SelectorInRange(t, p);
      var (t', rest) := Selector(t, p);
      ParseInRange(t', rest);
    }
  }
}
