// What theme_save prints and what theme_set assigns, of kernel/gui/m1ss.c.
module Theme {
  import opened Strings
  import opened Printf
  import opened SheetSave
  import opened SheetFormat
  import S = Sheet
  import M = M1ss

  // ksnprintf(a, 8, "%06x", c)
  method HexText(c: nat) returns (s: string)
    requires c < S.RGB
    ensures s == Hex(c, 6)
  {
    HexPrinted(c);
    var a := new char[8];
    var n := Kvsnprintf(a, 0, 8, "%06x", [Num(c)]);
    s := a[..n];
  }

  method BarArguments(g: S.Theme) returns (args: seq<Arg>)
    requires S.InRange(g)
    ensures args == BarArgs(g)
  {
    var tb := HexText(g.termBg);
    var tf := HexText(g.termFg);
    args := [Text(if g.barVisible then "true" else "false")] + ([Text(if g.barPos != 0 then "top" else "bottom")] +
      ([Num(g.barHeight)] + ([Num(g.barOpacity)] + ([Text(tb)] + [Text(tf)]))));
  }

  method WindowArguments(g: S.Theme) returns (args: seq<Arg>)
    requires S.InRange(g)
    ensures args == WindowArgs(g)
  {
    var tint := HexText(g.tint);
    var bar := BarArguments(g);
    args := [Num(g.radius)]
      + ([Num(g.blur)] + ([Num(g.opacity)] + ([Num(g.shadow)] + ([Num(g.border)] + ([Text(tint)] + bar)))));
  }

  method Arguments(g: S.Theme) returns (args: seq<Arg>)
    requires S.InRange(g)
    ensures args == Args(g)
  {
    var a := HexText(g.accent);
    var g1 := HexText(g.glow1);
    var g2 := HexText(g.glow2);
    var wp := if g.wallpaper == 1 then "gradient" else if g.wallpaper == 2 then "grid"
              else if g.wallpaper == 3 then "solid" else "aurora";
    var win := WindowArguments(g);
    args := [Text(a)] + ([Text(wp)] + ([Text(g1)] + ([Text(g2)] + win)));
  }

  // The printing of theme_save: the string that goes to fs_put, not cut by the buffer
  method PrintSheet(g: S.Theme) returns (s: string)
    requires S.InRange(g)
    ensures s == Saved(g)
  {
    FormatFits(g);
    s := PrintTheme(g);
  }

  lemma FormatFits(g: S.Theme)
    requires S.InRange(g)
    ensures Expand(FORMAT, Args(g)) == Saved(g) && |Expand(FORMAT, Args(g))| < BUFSIZE
  {
    FormatPrints(g);
    SavedFits(g);
  }

  method PrintTheme(g: S.Theme) returns (s: string)
    requires S.InRange(g) && |Expand(FORMAT, Args(g))| < BUFSIZE
    ensures s == Expand(FORMAT, Args(g))
  {
    var args := Arguments(g);
    NumbersSmall(g);
    s := PrintAll(FORMAT, args);
  }

  // ksnprintf into a local char buf[1400]
  method PrintAll(fmt: string, args: seq<Arg>) returns (s: string)
    requires |Expand(fmt, args)| < BUFSIZE
    requires forall i :: 0 <= i < |args| && args[i].Num? ==> -0x8000_0000 < args[i].v < 0x8000_0000
    ensures s == Expand(fmt, args)
  {
    var buf := new char[BUFSIZE];
    var n := Kvsnprintf(buf, 0, BUFSIZE, fmt, args);
    s := buf[..n];
  }

  lemma NumbersSmall(g: S.Theme)
    requires S.InRange(g)
    ensures forall i :: 0 <= i < |Args(g)| && Args(g)[i].Num? ==> -0x8000_0000 < Args(g)[i].v < 0x8000_0000
  {
    var bar, win := BarArgs(g), WindowArgs(g);
    assert forall i :: 0 <= i < |bar| && bar[i].Num? ==> 0 <= bar[i].v <= 100;
    assert forall i :: 0 <= i < |win| && win[i].Num? ==> 0 <= win[i].v <= 100;
  }

  // ---- theme_set ----

  // strchr(prop, '.'), or |prop| for none
  function Dot(s: string): (i: nat)
    ensures i <= |s| && (i < |s| ==> s[i] == '.')
    ensures forall j :: 0 <= j < i ==> s[j] != '.'
  {
    if s == "" || s[0] == '.' then 0 else 1 + Dot(s[1..])
  }

  predicate DesktopShort(prop: string) {
    prop == "accent" || prop == "wallpaper" || prop == "glow1" || prop == "glow2"
  }

  predicate WindowShort(prop: string) {
    prop == "radius" || prop == "blur" || prop == "opacity" || prop == "shadow" || prop == "border" || prop == "tint"
  }

  function Set(t: S.Theme, prop: string, val: string): (S.Theme, bool) {
    var dot := Dot(prop);
    if dot == |prop| then
      if DesktopShort(prop) then (S.Apply(t, "desktop", prop, val), true)
      else if WindowShort(prop) then (S.Apply(t, "window", prop, val), true)
      else (t, false)
    else
      (S.Apply(t, Cut(prop[..dot], S.TOKEN), Cut(prop[dot + 1..], S.TOKEN), val), true)
  }

  lemma {:induction false} DotIs(s: string, i: nat)
    requires i <= |s| && (i < |s| ==> s[i] == '.') && forall j :: 0 <= j < i ==> s[j] != '.'
    ensures Dot(s) == i
  {
  }

  // The assignment of theme_set
  method Assign(styles: M.Styles, prop: string, val: string) returns (ok: bool)
    modifies styles`g
    ensures (styles.g, ok) == Set(old(styles.g), prop, val)
    ensures S.InRange(old(styles.g)) ==> S.InRange(styles.g)
  {
    ghost var g := styles.g;
    ok := Store(styles, prop, val);
    if S.InRange(g) { SetInRange(g, prop, val); }
  }

  method Store(styles: M.Styles, prop: string, val: string) returns (ok: bool)
    modifies styles`g
    ensures (styles.g, ok) == Set(old(styles.g), prop, val)
  {
    var dot := FindDot(prop);
    if dot == |prop| {
      ok := SetShort(styles, prop, val);
    } else {
      var sl := if dot > 31 then 31 else dot;
      assert prop[..sl] == Cut(prop[..dot], S.TOKEN);
      styles.g := S.Apply(styles.g, prop[..sl], Cut(prop[dot + 1..], S.TOKEN), val);
      ok := true;
    }
  }

  // strchr(prop, '.')
  method FindDot(prop: string) returns (dot: nat)
    ensures dot == Dot(prop)
  {
    dot := 0;
    while dot < |prop| && prop[dot] != '.'
      invariant dot <= |prop| && forall j :: 0 <= j < dot ==> prop[j] != '.'
    {
      dot := dot + 1;
    }
    DotIs(prop, dot);
  }

  method SetShort(styles: M.Styles, prop: string, val: string) returns (ok: bool)
    requires Dot(prop) == |prop|
    modifies styles`g
    ensures (styles.g, ok) == Set(old(styles.g), prop, val)
  {
    ok := true;
    if DesktopShort(prop) {
      styles.g := S.Apply(styles.g, "desktop", prop, val);
    } else if WindowShort(prop) {
      styles.g := S.Apply(styles.g, "window", prop, val);
    } else {
      ok := false;
    }
  }

  // A shorthand means the same as its long form.
  lemma {:induction false} ShorthandIs(t: S.Theme, prop: string, val: string)
    requires DesktopShort(prop) || WindowShort(prop)
    ensures Set(t, prop, val) == Set(t, (if DesktopShort(prop) then "desktop" else "window") + "." + prop, val)
  {
    NoDot(prop);
    DotIs(prop, |prop|);
    LongForm(t, if DesktopShort(prop) then "desktop" else "window", prop, val);
  }

  lemma {:induction false} LongForm(t: S.Theme, sel: string, prop: string, val: string)
    requires (forall j :: 0 <= j < |sel| ==> sel[j] != '.') && |sel| < S.TOKEN && |prop| < S.TOKEN
    ensures Set(t, sel + "." + prop, val) == (S.Apply(t, sel, prop, val), true)
  {
    var long := sel + "." + prop;
    DotIs(long, |sel|);
    assert long[..|sel|] == sel && long[|sel| + 1..] == prop;
  }

  lemma NoDot(prop: string)
    requires DesktopShort(prop) || WindowShort(prop)
    ensures forall j :: 0 <= j < |prop| ==> prop[j] != '.'
    ensures |prop| < S.TOKEN
  {
  }

  // No setting, whatever its text, takes a theme out of range.
  lemma SetInRange(t: S.Theme, prop: string, val: string)
    requires S.InRange(t)
    ensures S.InRange(Set(t, prop, val).0)
  {
    var dot := Dot(prop);
    S.ApplyInRange(t, "desktop", prop, val);
    S.ApplyInRange(t, "window", prop, val);
    if dot < |prop| { S.ApplyInRange(t, Cut(prop[..dot], S.TOKEN), Cut(prop[dot + 1..], S.TOKEN), val); }
  }
}
