// theme_save followed by theme_reload: what of a theme comes back. skip_ws runs behind every ':'
// and takes '#' for a comment, so no colour is read back, and the declaration behind a colour is
// taken for the colour's value.
module SheetSave {
  import opened Strings
  import opened Printf
  import opened SheetText
  import S = Sheet

  function WallpaperName(w: nat): string {
    if w == 1 then "gradient" else if w == 2 then "grid" else if w == 3 then "solid" else "aurora"
  }

  // The text theme_save stores.
  function Saved(g: S.Theme): string {
    Layout(Hex(g.accent, 6), WallpaperName(g.wallpaper), Hex(g.glow1, 6), Hex(g.glow2, 6),
           Decimal(g.radius), Decimal(g.blur), Decimal(g.opacity), Decimal(g.shadow), Decimal(g.border), Hex(g.tint, 6),
           if g.barVisible then "true" else "false", if g.barPos != 0 then "top" else "bottom",
           Decimal(g.barHeight), Decimal(g.barOpacity), Hex(g.termBg, 6), Hex(g.termFg, 6))
  }

  // ---- What one assignment does ----

  lemma OnlyDesktop(t: S.Theme, key: string, val: string)
    requires key != "" && key[0] == 'd'
    ensures S.ApplyWindow(t, key, val) == S.ApplyTaskbar(t, key, val) == S.ApplyTerminal(t, key, val) == t
  {
  }

  lemma OnlyWindow(t: S.Theme, key: string, val: string)
    requires key != "" && key[0] == 'w'
    ensures S.ApplyDesktop(t, key, val) == S.ApplyTaskbar(t, key, val) == S.ApplyTerminal(t, key, val) == t
  {
  }

  lemma OnlyTaskbar(t: S.Theme, key: string, val: string)
    requires |key| > 1 && key[0] == 't' && key[1] == 'a'
    ensures S.ApplyDesktop(t, key, val) == S.ApplyWindow(t, key, val) == S.ApplyTerminal(t, key, val) == t
  {
  }

  lemma OnlyTerminal(t: S.Theme, key: string, val: string)
    requires |key| > 1 && key[0] == 't' && key[1] == 'e'
    ensures S.ApplyDesktop(t, key, val) == S.ApplyWindow(t, key, val) == S.ApplyTaskbar(t, key, val) == t
  {
  }

  // A text that is no colour: longer than any colour name and not a '#'.
  lemma NoColourIn(val: string)
    requires val == "" || (|val| > 6 && !IsBlank(val[0]) && val[0] != '#')
    ensures S.ParseColour(val) == S.NoColour
  {
  }

  lemma NumberBack(v: int)
    requires 0 <= v < 0x8000_0000
    ensures Number(Decimal(v)) == v
  {
    AtoiOfItoa(v, "");
    assert Decimal(v) + "" == Decimal(v);
  }

  lemma SetsRadius(t: S.Theme, v: int)
    requires 0 <= v <= 40
    ensures S.Apply(t, "window", "radius", Decimal(v)) == t.(radius := v)
  {
    NumberBack(v);
    assert S.Key("window", "radius") == "window.radius";
    OnlyWindow(t, "window.radius", Decimal(v));
    OnlyWindow(t.(radius := v), "window.radius", Decimal(v));
  }

  lemma SetsBlur(t: S.Theme, v: int)
    requires 0 <= v <= 12
    ensures S.Apply(t, "window", "blur", Decimal(v)) == t.(blur := v)
  {
    NumberBack(v);
    assert S.Key("window", "blur") == "window.blur";
    OnlyWindow(t, "window.blur", Decimal(v));
    OnlyWindow(t.(blur := v), "window.blur", Decimal(v));
  }

  lemma SetsOpacity(t: S.Theme, v: int)
    requires 0 <= v <= 100
    ensures S.Apply(t, "window", "opacity", Decimal(v)) == t.(opacity := v)
  {
    NumberBack(v);
    assert S.Key("window", "opacity") == "window.opacity";
    OnlyWindow(t, "window.opacity", Decimal(v));
    OnlyWindow(t.(opacity := v), "window.opacity", Decimal(v));
  }

  lemma SetsShadow(t: S.Theme, v: int)
    requires 0 <= v <= 40
    ensures S.Apply(t, "window", "shadow", Decimal(v)) == t.(shadow := v)
  {
    NumberBack(v);
    assert S.Key("window", "shadow") == "window.shadow";
    OnlyWindow(t, "window.shadow", Decimal(v));
    OnlyWindow(t.(shadow := v), "window.shadow", Decimal(v));
  }

  lemma SetsBorder(t: S.Theme, v: int)
    requires 0 <= v <= 1
    ensures S.Apply(t, "window", "border", Decimal(v)) == t.(border := v)
  {
    NumberBack(v);
    assert S.Key("window", "border") == "window.border";
    OnlyWindow(t, "window.border", Decimal(v));
    OnlyWindow(t.(border := v), "window.border", Decimal(v));
  }

  lemma SetsVisible(t: S.Theme, v: bool)
    ensures S.Apply(t, "taskbar", "visible", if v then "true" else "false") == t.(barVisible := v)
  {
    var s := if v then "true" else "false";
    assert S.Key("taskbar", "visible") == "taskbar.visible";
    OnlyTaskbar(t, "taskbar.visible", s);
    OnlyTaskbar(t.(barVisible := v), "taskbar.visible", s);
  }

  lemma SetsPosition(t: S.Theme, v: nat)
    requires v <= 1
    ensures S.Apply(t, "taskbar", "position", if v != 0 then "top" else "bottom") == t.(barPos := v)
  {
    var s := if v != 0 then "top" else "bottom";
    assert S.Key("taskbar", "position") == "taskbar.position";
    OnlyTaskbar(t, "taskbar.position", s);
    OnlyTaskbar(t.(barPos := v), "taskbar.position", s);
  }

  lemma SetsHeight(t: S.Theme, v: int)
    requires 18 <= v <= 64
    ensures S.Apply(t, "taskbar", "height", Decimal(v)) == t.(barHeight := v)
  {
    NumberBack(v);
    assert S.Key("taskbar", "height") == "taskbar.height";
    OnlyTaskbar(t, "taskbar.height", Decimal(v));
    OnlyTaskbar(t.(barHeight := v), "taskbar.height", Decimal(v));
  }

  lemma SetsBarOpacity(t: S.Theme, v: int)
    requires 0 <= v <= 100
    ensures S.Apply(t, "taskbar", "opacity", Decimal(v)) == t.(barOpacity := v)
  {
    NumberBack(v);
    assert S.Key("taskbar", "opacity") == "taskbar.opacity";
    OnlyTaskbar(t, "taskbar.opacity", Decimal(v));
    OnlyTaskbar(t.(barOpacity := v), "taskbar.opacity", Decimal(v));
  }

  // No colour, no change.
  lemma SetsNothing(t: S.Theme, val: string)
    requires S.ParseColour(val) == S.NoColour
    ensures S.Apply(t, "desktop", "accent", val) == S.Apply(t, "desktop", "glow1", val) == t
    ensures S.Apply(t, "window", "tint", val) == S.Apply(t, "terminal", "background", val) == t
  {
    assert S.Key("desktop", "accent") == "desktop.accent" && S.Key("desktop", "glow1") == "desktop.glow1";
    assert S.Key("window", "tint") == "window.tint" && S.Key("terminal", "background") == "terminal.background";
    OnlyDesktop(t, "desktop.accent", val);
    OnlyDesktop(t, "desktop.glow1", val);
    OnlyWindow(t, "window.tint", val);
    OnlyTerminal(t, "terminal.background", val);
  }

  // ---- Block by block ----

  lemma {:induction false} NumeralShort(v: nat)
    requires v < 1000
    ensures |Numeral(v, 10)| <= 3
  {
    assert |Numeral(v / 100, 10)| <= 1;
    assert |Numeral(v / 10, 10)| <= 2 by { assert v / 10 / 10 == v / 100; }
  }

  lemma NumberField(v: int)
    requires 0 <= v < 1000
    ensures IsValue(Decimal(v)) && Starts(Decimal(v)) && |Decimal(v)| <= 3
  {
    NumeralShort(v);
    NumeralDigits(v);
    var s := Decimal(v);
    assert IsDigit(s[0]) && IsDigit(s[|s| - 1]);
    assert ';' !in s && '}' !in s by { assert !IsDigit(';') && !IsDigit('}'); }
  }

  lemma {:induction false} ReadsNumber(t: S.Theme, sel: string, prop: string, gap: string, v: int, rest: string,
                                       next: S.Theme)
    requires 0 <= v < 1000 && IsName(prop) && AllWs(gap) && S.Apply(t, sel, prop, Decimal(v)) == next
    ensures S.Block(t, sel, Field("\n  ", prop, gap, Decimal(v), rest)) == S.Block(next, sel, rest)
  {
    NumberField(v);
    PlainField(t, sel, "\n  ", prop, gap, Decimal(v), rest);
  }

  // The tint's line is a comment, and the brace behind it ends the block.
  lemma {:induction false} TintRead(t: S.Theme, tint: string, rest: string)
    requires '\n' !in tint
    ensures S.Block(t, "window", Field("\n  ", "tint", "    ", "#" + tint, "\n}" + ("\n\n" + rest)))
      == (t, "\n\n" + rest)
  {
    var next := "}" + ("\n\n" + rest);
    assert Field("\n  ", "tint", "    ", "#" + tint, "\n" + next)
      == "\n  " + "tint" + ":" + "    " + "#" + (tint + ";") + "\n" + next;
    assert "\n" + next == "\n}" + ("\n\n" + rest);
    assert S.SkipWs(next) == next;
    HashClose(t, "window", "\n  ", "tint", "    ", tint + ";", next, "\n\n" + rest);
    NoColourIn("");
    SetsNothing(t, "");
  }

  lemma {:induction false} RadiusRead(t: S.Theme, r: int, tail: string)
    requires 0 <= r <= 40
    ensures S.Block(t, "window", Field("\n  ", "radius", "  ", Decimal(r), tail))
      == S.Block(t.(radius := r), "window", tail)
  {
    SetsRadius(t, r);
    ReadsNumber(t, "window", "radius", "  ", r, tail, t.(radius := r));
  }

  lemma {:induction false} BlurRead(t: S.Theme, b: int, tail: string)
    requires 0 <= b <= 12
    ensures S.Block(t, "window", Field("\n  ", "blur", "    ", Decimal(b), tail))
      == S.Block(t.(blur := b), "window", tail)
  {
    SetsBlur(t, b);
    ReadsNumber(t, "window", "blur", "    ", b, tail, t.(blur := b));
  }

  lemma {:induction false} OpacityRead(t: S.Theme, o: int, tail: string)
    requires 0 <= o <= 100
    ensures S.Block(t, "window", Field("\n  ", "opacity", " ", Decimal(o), tail))
      == S.Block(t.(opacity := o), "window", tail)
  {
    SetsOpacity(t, o);
    ReadsNumber(t, "window", "opacity", " ", o, tail, t.(opacity := o));
  }

  lemma {:induction false} ShadowRead(t: S.Theme, sh: int, tail: string)
    requires 0 <= sh <= 40
    ensures S.Block(t, "window", Field("\n  ", "shadow", "  ", Decimal(sh), tail))
      == S.Block(t.(shadow := sh), "window", tail)
  {
    SetsShadow(t, sh);
    ReadsNumber(t, "window", "shadow", "  ", sh, tail, t.(shadow := sh));
  }

  lemma {:induction false} BorderRead(t: S.Theme, bo: int, tail: string)
    requires 0 <= bo <= 1
    ensures S.Block(t, "window", Field("\n  ", "border", "  ", Decimal(bo), tail))
      == S.Block(t.(border := bo), "window", tail)
  {
    SetsBorder(t, bo);
    ReadsNumber(t, "window", "border", "  ", bo, tail, t.(border := bo));
  }

  lemma {:induction false} StrengthNote(t: S.Theme, tail: string)
    ensures S.Block(t, "window", Note("        ", " frosted-glass strength 0..100 ", tail))
      == S.Block(t, "window", tail)
  {
    NoteRead(t, "window", "        ", " frosted-glass strength 0..100 ", tail);
  }

  // The window block gives back all its numbers and no tint.
  lemma {:induction false} WindowRead(t: S.Theme, r: int, b: int, o: int, sh: int, bo: int, tint: string, rest: string)
    requires 0 <= r <= 40 && 0 <= b <= 12 && 0 <= o <= 100 && 0 <= sh <= 40 && 0 <= bo <= 1 && '\n' !in tint
    ensures S.Block(t, "window", Window(Decimal(r), Decimal(b), Decimal(o), Decimal(sh), Decimal(bo), tint, rest))
         == (t.(radius := r, blur := b, opacity := o, shadow := sh, border := bo), "\n\n" + rest)
  {
    var p5 := Field("\n  ", "tint", "    ", "#" + tint, "\n}" + ("\n\n" + rest));
    var p4 := Field("\n  ", "border", "  ", Decimal(bo), p5);
    var p3 := Field("\n  ", "shadow", "  ", Decimal(sh), p4);
    var n2 := Note("        ", " frosted-glass strength 0..100 ", p3);
    var p2 := Field("\n  ", "opacity", " ", Decimal(o), n2);
    RadiusRead(t, r, Field("\n  ", "blur", "    ", Decimal(b), p2));
    BlurRead(t.(radius := r), b, p2);
    OpacityRead(t.(radius := r, blur := b), o, n2);
    StrengthNote(t.(radius := r, blur := b, opacity := o), p3);
    ShadowRead(t.(radius := r, blur := b, opacity := o), sh, p4);
    BorderRead(t.(radius := r, blur := b, opacity := o, shadow := sh), bo, p5);
    TintRead(t.(radius := r, blur := b, opacity := o, shadow := sh, border := bo), tint, rest);
  }

  // So does the taskbar block.
  lemma {:induction false} TaskbarRead(t: S.Theme, vis: bool, pos: nat, h: int, o: int, rest: string)
    requires pos <= 1 && 18 <= h <= 64 && 0 <= o <= 100
    ensures S.Block(t, "taskbar",
      Taskbar(if vis then "true" else "false", if pos != 0 then "top" else "bottom", Decimal(h), Decimal(o), rest))
         == (t.(barVisible := vis, barPos := pos, barHeight := h, barOpacity := o), "\n\n" + rest)
  {
    var p3 := Field("\n  ", "height", "   ", Decimal(h),
      Field("\n  ", "opacity", "  ", Decimal(o), "\n}" + ("\n\n" + rest)));
    var n2 := Note("       ", " bottom|top ", p3);
    WordsRead(t, vis, pos, n2);
    BottomNote(t.(barVisible := vis, barPos := pos), p3);
    BarNumbersRead(t.(barVisible := vis, barPos := pos), h, o, rest);
  }

  lemma {:induction false} BottomNote(t: S.Theme, tail: string)
    ensures S.Block(t, "taskbar", Note("       ", " bottom|top ", tail)) == S.Block(t, "taskbar", tail)
  {
    NoteRead(t, "taskbar", "       ", " bottom|top ", tail);
  }

  lemma {:induction false} PositionRead(t: S.Theme, pos: nat, tail: string)
    requires pos <= 1
    ensures S.Block(t, "taskbar", Field("\n  ", "position", " ", if pos != 0 then "top" else "bottom", tail))
         == S.Block(t.(barPos := pos), "taskbar", tail)
  {
    SetsPosition(t, pos);
    PlainField(t, "taskbar", "\n  ", "position", " ", if pos != 0 then "top" else "bottom", tail);
  }

  lemma {:induction false} VisibleRead(t: S.Theme, vis: bool, tail: string)
    ensures S.Block(t, "taskbar", Field("\n  ", "visible", "  ", if vis then "true" else "false", tail))
         == S.Block(t.(barVisible := vis), "taskbar", tail)
  {
    SetsVisible(t, vis);
    PlainField(t, "taskbar", "\n  ", "visible", "  ", if vis then "true" else "false", tail);
  }

  lemma {:induction false} WordsRead(t: S.Theme, vis: bool, pos: nat, tail: string)
    requires pos <= 1
    ensures S.Block(t, "taskbar", Field("\n  ", "visible", "  ", if vis then "true" else "false",
        Field("\n  ", "position", " ", if pos != 0 then "top" else "bottom", tail)))
      == S.Block(t.(barVisible := vis, barPos := pos), "taskbar", tail)
  {
    VisibleRead(t, vis, Field("\n  ", "position", " ", if pos != 0 then "top" else "bottom", tail));
    PositionRead(t.(barVisible := vis), pos, tail);
  }

  lemma {:induction false} HeightRead(t: S.Theme, h: int, tail: string)
    requires 18 <= h <= 64
    ensures S.Block(t, "taskbar", Field("\n  ", "height", "   ", Decimal(h), tail))
      == S.Block(t.(barHeight := h), "taskbar", tail)
  {
    SetsHeight(t, h);
    ReadsNumber(t, "taskbar", "height", "   ", h, tail, t.(barHeight := h));
  }

  lemma {:induction false} BarOpacityRead(t: S.Theme, o: int, tail: string)
    requires 0 <= o <= 100
    ensures S.Block(t, "taskbar", Field("\n  ", "opacity", "  ", Decimal(o), tail))
      == S.Block(t.(barOpacity := o), "taskbar", tail)
  {
    SetsBarOpacity(t, o);
    ReadsNumber(t, "taskbar", "opacity", "  ", o, tail, t.(barOpacity := o));
  }

  lemma {:induction false} BarNumbersRead(t: S.Theme, h: int, o: int, rest: string)
    requires 18 <= h <= 64 && 0 <= o <= 100
    ensures S.Block(t, "taskbar", Field("\n  ", "height", "   ", Decimal(h),
        Field("\n  ", "opacity", "  ", Decimal(o), "\n}" + ("\n\n" + rest))))
      == (t.(barHeight := h, barOpacity := o), "\n\n" + rest)
  {
    var e := "\n}" + ("\n\n" + rest);
    HeightRead(t, h, Field("\n  ", "opacity", "  ", Decimal(o), e));
    BarOpacityRead(t.(barHeight := h), o, e);
    BraceRead(t.(barHeight := h, barOpacity := o), "taskbar", "\n\n" + rest);
  }

  lemma {:induction false} BraceRead(t: S.Theme, sel: string, rest: string)
    ensures S.Block(t, sel, "\n}" + rest) == (t, rest)
  {
    assert "\n}" + rest == "\n" + ("}" + rest);
    SpacesSkipped("\n", "}" + rest);
    Closed(t, sel, "\n}" + rest, rest);
  }

  // A field taken for a colour's value is no colour.
  lemma FieldAsValue(prop: string, gap: string, val: string)
    requires IsName(prop) && |gap| < 10 && ';' !in gap && '}' !in gap
    requires IsValue(val) && val != "" && |val| < 15 && 4 < |prop| < 15
    ensures IsValue(prop + ":" + gap + val) && S.ParseColour(prop + ":" + gap + val) == S.NoColour
  {
    var v := prop + ":" + gap + val;
    assert v[|v| - 1] == val[|val| - 1];
    forall i | 0 <= i < |prop| ensures prop[i] != ';' && prop[i] != '}' { assert !S.Ends(prop[i], ":}{;"); }
    assert !S.Ends(prop[0], ":}{;") && v[0] == prop[0];
    NoColourIn(v);
  }

  // A '#' value followed by a field on the next line: that field becomes the value, and nothing
  // is set.
  lemma {:induction false} HashPair(t: S.Theme, sel: string, prop: string, gap: string, line: string, prop2: string,
                                    gap2: string, val2: string, rest: string)
    requires IsName(prop) && AllWs(gap) && '\n' !in line && IsName(prop2) && |gap2| < 10 && ';' !in gap2 && '}' !in gap2
    requires IsValue(val2) && val2 != "" && |val2| < 15 && 4 < |prop2| < 15
    requires S.Apply(t, sel, prop, prop2 + ":" + gap2 + val2) == t
    ensures S.Block(t, sel,
        "\n  " + prop + ":" + gap + "#" + line + "\n" + ("  " + prop2 + ":" + gap2 + val2 + ";" + rest))
      == S.Block(t, sel, rest)
  {
    var val := prop2 + ":" + gap2 + val2;
    FieldAsValue(prop2, gap2, val2);
    NextField(prop2, gap2, val2, rest);
    HashField(t, sel, "\n  ", prop, gap, line, "  " + prop2 + ":" + gap2 + val2 + ";" + rest, val, rest);
  }

  lemma {:induction false} NextField(prop: string, gap: string, val: string, rest: string)
    requires IsName(prop)
    ensures S.SkipWs("  " + prop + ":" + gap + val + ";" + rest) == prop + ":" + gap + val + ";" + rest
  {
    var tail := ":" + gap + val + ";" + rest;
    assert "  " + prop + ":" + gap + val + ";" + rest == "  " + (prop + tail);
    SpacesSkipped("  ", prop + tail);
    NameStays(prop, tail);
    assert prop + tail == prop + ":" + gap + val + ";" + rest;
  }

  predicate IsHex(c: char) {
    '0' <= c <= '9' || 'a' <= c <= 'f'
  }

  lemma {:induction false} HexChars(v: nat, w: nat)
    ensures forall i :: 0 <= i < w ==> IsHex(Hex(v, w)[i])
    decreases w
  {
    if w > 0 {
      HexChars(v / 16, w - 1);
      assert IsHex(DIGITS[v % 16]);
    }
  }

  lemma {:induction false} ColourText(c: nat)
    ensures '\n' !in Hex(c, 6) && ';' !in Hex(c, 6) && '}' !in Hex(c, 6) && IsValue("#" + Hex(c, 6))
  {
    HexChars(c, 6);
    var s := "#" + Hex(c, 6);
    forall i | 0 <= i < |s| ensures s[i] == '#' || IsHex(s[i]) { if i > 0 { assert s[i] == Hex(c, 6)[i - 1]; } }
    assert !IsHex(';') && !IsHex('}') && !IsHex('\n') && !IsHex(' ') && !IsHex('\t') && !IsHex('\r');
  }

  // Two fields in a row, cut where the lines end.
  lemma FieldJoin(prop: string, gap: string, x: string, prop2: string, gap2: string, val2: string, rest: string)
    ensures Field("\n  ", prop, gap, "#" + x, Field("\n  ", prop2, gap2, val2, rest))
         == "\n  " + prop + ":" + gap + "#" + (x + ";") + "\n" + ("  " + prop2 + ":" + gap2 + val2 + ";" + rest)
  {
  }

  lemma FieldNoteJoin(prop: string, gap: string, x: string, ngap: string, body: string, prop2: string, gap2: string,
                      val2: string, rest: string)
    ensures Field("\n  ", prop, gap, "#" + x, Note(ngap, body, Field("\n  ", prop2, gap2, val2, rest)))
         == "\n  " + prop + ":" + gap + "#" + (x + ";" + ngap + "/*" + body + "*/") + "\n"
           + ("  " + prop2 + ":" + gap2 + val2 + ";" + rest)
  {
  }

  lemma {:induction false} HashFields(t: S.Theme, sel: string, prop: string, gap: string, x: string, prop2: string,
                                      gap2: string, val2: string, rest: string)
    requires IsName(prop) && AllWs(gap) && '\n' !in x && IsName(prop2) && |gap2| < 10 && ';' !in gap2 && '}' !in gap2
    requires IsValue(val2) && val2 != "" && |val2| < 15 && 4 < |prop2| < 15
    requires S.Apply(t, sel, prop, prop2 + ":" + gap2 + val2) == t
    ensures S.Block(t, sel, Field("\n  ", prop, gap, "#" + x, Field("\n  ", prop2, gap2, val2, rest)))
      == S.Block(t, sel, rest)
  {
    FieldJoin(prop, gap, x, prop2, gap2, val2, rest);
    HashPair(t, sel, prop, gap, x + ";", prop2, gap2, val2, rest);
  }

  lemma {:induction false} HashNoteFields(t: S.Theme, sel: string, prop: string, gap: string, x: string, ngap: string,
                                          body: string, prop2: string, gap2: string, val2: string, rest: string)
    requires IsName(prop) && AllWs(gap) && '\n' !in x + ";" + ngap + "/*" + body + "*/"
    requires IsName(prop2) && |gap2| < 10 && ';' !in gap2 && '}' !in gap2
    requires IsValue(val2) && val2 != "" && |val2| < 15 && 4 < |prop2| < 15
    requires S.Apply(t, sel, prop, prop2 + ":" + gap2 + val2) == t
    ensures S.Block(t, sel, Field("\n  ", prop, gap, "#" + x, Note(ngap, body, Field("\n  ", prop2, gap2, val2, rest))))
      == S.Block(t, sel, rest)
  {
    FieldNoteJoin(prop, gap, x, ngap, body, prop2, gap2, val2, rest);
    HashPair(t, sel, prop, gap, x + ";" + ngap + "/*" + body + "*/", prop2, gap2, val2, rest);
  }

  lemma Names()
    ensures IsName("background") && IsName("foreground") && IsName("glow1") && IsName("glow2") && IsName("accent")
      && IsName("wallpaper")
  {
  }

  lemma {:induction false} BackgroundRead(t: S.Theme, bg: nat, fg: nat, rest: string)
    ensures S.Block(t, "terminal",
      Field("\n  ", "background", " ", "#" + Hex(bg, 6), Field("\n  ", "foreground", " ", "#" + Hex(fg, 6), rest)))
         == S.Block(t, "terminal", rest)
  {
    ColourText(bg);
    ColourText(fg);
    Names();
    FieldAsValue("foreground", " ", "#" + Hex(fg, 6));
    SetsNothing(t, "foreground" + ":" + " " + ("#" + Hex(fg, 6)));
    HashFields(t, "terminal", "background", " ", Hex(bg, 6), "foreground", " ", "#" + Hex(fg, 6), rest);
  }

  // The terminal block gives back nothing.
  lemma {:induction false} TerminalRead(t: S.Theme, bg: nat, fg: nat, rest: string)
    ensures S.Block(t, "terminal", Terminal(Hex(bg, 6), Hex(fg, 6), rest)) == (t, rest)
  {
    BackgroundRead(t, bg, fg, "\n}" + rest);
    BraceRead(t, "terminal", rest);
  }

  lemma {:induction false} GlowsRead(t: S.Theme, g1: nat, g2: nat, rest: string)
    ensures S.Block(t, "desktop",
      Field("\n  ", "glow1", "     ", "#" + Hex(g1, 6), Field("\n  ", "glow2", "     ", "#" + Hex(g2, 6), rest)))
         == S.Block(t, "desktop", rest)
  {
    ColourText(g1);
    ColourText(g2);
    Names();
    FieldAsValue("glow2", "     ", "#" + Hex(g2, 6));
    SetsNothing(t, "glow2" + ":" + "     " + ("#" + Hex(g2, 6)));
    HashFields(t, "desktop", "glow1", "     ", Hex(g1, 6), "glow2", "     ", "#" + Hex(g2, 6), rest);
  }

  const COLOURS: string := " orange|rose|green|blue|purple|gold|#hex "

  lemma {:induction false} AccentRead(t: S.Theme, a: nat, w: nat, tail: string)
    ensures S.Block(t, "desktop", Field("\n  ", "accent", "    ", "#" + Hex(a, 6), Note("     ", COLOURS,
        Field("\n  ", "wallpaper", " ", WallpaperName(w), tail)))) == S.Block(t, "desktop", tail)
  {
    ColourText(a);
    Names();
    WallpaperValue(w);
    FieldAsValue("wallpaper", " ", WallpaperName(w));
    SetsNothing(t, "wallpaper" + ":" + " " + WallpaperName(w));
    AccentLine(Hex(a, 6));
    HashNoteFields(t, "desktop", "accent", "    ", Hex(a, 6), "     ", COLOURS, "wallpaper", " ", WallpaperName(w),
      tail);
  }

  lemma WallpaperValue(w: nat)
    ensures IsValue(WallpaperName(w)) && 0 < |WallpaperName(w)| < 15
  {
  }

  lemma AccentLine(x: string)
    requires '\n' !in x
    ensures '\n' !in x + ";" + "     " + "/*" + COLOURS + "*/"
  {
  }

  lemma {:induction false} AuroraNote(t: S.Theme, tail: string)
    ensures S.Block(t, "desktop", Note("      ", " aurora|gradient|grid|solid ", tail)) == S.Block(t, "desktop", tail)
  {
    NoteRead(t, "desktop", "      ", " aurora|gradient|grid|solid ", tail);
  }

  // The desktop block gives back nothing: accent and wallpaper go together, and so do the glows.
  lemma {:induction false} DesktopRead(t: S.Theme, a: nat, w: nat, g1: nat, g2: nat, rest: string)
    ensures S.Block(t, "desktop", Desktop(Hex(a, 6), WallpaperName(w), Hex(g1, 6), Hex(g2, 6), rest))
      == (t, "\n\n" + rest)
  {
    var p := Field("\n  ", "glow1", "     ", "#" + Hex(g1, 6),
      Field("\n  ", "glow2", "     ", "#" + Hex(g2, 6), "\n}" + ("\n\n" + rest)));
    AccentRead(t, a, w, Note("      ", " aurora|gradient|grid|solid ", p));
    AuroraNote(t, p);
    GlowsRead(t, g1, g2, "\n}" + ("\n\n" + rest));
    BraceRead(t, "desktop", "\n\n" + rest);
  }

  // ---- The whole sheet ----

  lemma {:induction false} NextSelector(t: S.Theme, name: string, body: string)
    requires IsName(name)
    ensures S.Parse(t, "\n\n" + (name + " {" + body)) == var (t', rest) := S.Block(t, name, body); S.Parse(t', rest)
  {
    var p := "\n\n" + (name + " {" + body);
    SpacesSkipped("\n\n", name + " {" + body);
    NameStays(name, " {" + body);
    assert name + " {" + body == name + (" {" + body);
    SelectorRead(t, p, name, body);
  }

  lemma {:induction false} CommentOpened(p: string)
    ensures S.SkipWs("/*" + p) == S.SkipWs(S.EndOfBlock(p))
  {
    assert ("/*" + p)[2..] == p;
  }

  lemma {:induction false} CommentClosed(p: string)
    ensures S.EndOfBlock("*/" + p) == p
  {
    assert ("*/" + p)[2..] == p;
  }

  lemma {:induction false} ThreeLines(a: string, b: string, c: string, rest: string)
    requires '*' !in a && '*' !in b && '*' !in c && b != "" && b[0] != '/' && c != "" && c[0] != '/'
    ensures S.SkipWs("/*" + a + "*" + b + "*" + c + "*/" + rest) == S.SkipWs(rest)
  {
    var p2 := c + ("*/" + rest);
    var p1 := b + ("*" + p2);
    var p0 := a + ("*" + p1);
    assert "/*" + a + "*" + b + "*" + c + "*/" + rest == "/*" + p0;
    CommentOpened(p0);
    ToBlockEnd(a, "*" + p1);
    StarAlone(p1);
    ToBlockEnd(b, "*" + p2);
    StarAlone(p2);
    ToBlockEnd(c, "*/" + rest);
    CommentClosed(rest);
  }

  lemma {:induction false} IntroSkipped(rest: string)
    ensures S.SkipWs(Intro(rest)) == S.SkipWs(rest)
  {
    IntroTame();
    ThreeLines(INTRO0, INTRO1, INTRO2, "\n\n" + rest);
    assert Intro(rest) == "/*" + INTRO0 + "*" + INTRO1 + "*" + INTRO2 + "*/" + ("\n\n" + rest);
    SpacesSkipped("\n\n", rest);
  }

  lemma {:induction false} StarAlone(p: string)
    requires p != "" && p[0] != '/'
    ensures S.EndOfBlock("*" + p) == S.EndOfBlock(p)
  {
    assert ("*" + p)[1..] == p;
  }

  // The nine fields that come back.
  function Recovered(t: S.Theme, g: S.Theme): S.Theme {
    t.(radius := g.radius, blur := g.blur, opacity := g.opacity, shadow := g.shadow, border := g.border,
       barVisible := g.barVisible, barPos := g.barPos, barHeight := g.barHeight, barOpacity := g.barOpacity)
  }

  // Each block in turn.
  lemma {:induction false} LastBlock(t: S.Theme, g: S.Theme)
    ensures S.Parse(t, "\n\n" + ("terminal {" + Terminal(Hex(g.termBg, 6), Hex(g.termFg, 6), "\n"))) == t
  {
    var body := Terminal(Hex(g.termBg, 6), Hex(g.termFg, 6), "\n");
    assert "terminal {" + body == "terminal" + " {" + body;
    SelectorNames();
    NextSelector(t, "terminal", body);
    TerminalRead(t, g.termBg, g.termFg, "\n");
    Tail(t);
  }

  lemma {:induction false} Tail(t: S.Theme)
    ensures S.Parse(t, "\n") == t
  {
    assert "\n"[1..] == "";
    assert S.SkipWs("\n") == "";
    assert S.Selector(t, "\n") == (t, "");
  }

  lemma SelectorNames()
    ensures IsName("desktop") && IsName("window") && IsName("taskbar") && IsName("terminal")
  {
  }

  lemma BarBlock(t: S.Theme, g: S.Theme, rest: string)
    requires S.InRange(g)
    ensures S.Parse(t, "\n\n" + ("taskbar {" +
        Taskbar(if g.barVisible then "true" else "false", if g.barPos != 0 then "top" else "bottom",
        Decimal(g.barHeight), Decimal(g.barOpacity), rest)))
      == S.Parse(
           t.(barVisible := g.barVisible, barPos := g.barPos, barHeight := g.barHeight, barOpacity := g.barOpacity),
           "\n\n" + rest)
  {
    var body := Taskbar(if g.barVisible then "true" else "false", if g.barPos != 0 then "top" else "bottom",
                        Decimal(g.barHeight), Decimal(g.barOpacity), rest);
    assert "taskbar {" + body == "taskbar" + " {" + body;
    SelectorNames();
    NextSelector(t, "taskbar", body);
    TaskbarRead(t, g.barVisible, g.barPos, g.barHeight, g.barOpacity, rest);
  }

  lemma {:induction false} WindowBlock(t: S.Theme, g: S.Theme, rest: string)
    requires S.InRange(g)
    ensures S.Parse(t, "\n\n" + ("window {" +
        Window(Decimal(g.radius), Decimal(g.blur), Decimal(g.opacity), Decimal(g.shadow),
        Decimal(g.border), Hex(g.tint, 6), rest)))
      == S.Parse(t.(radius := g.radius, blur := g.blur, opacity := g.opacity, shadow := g.shadow, border := g.border),
                 "\n\n" + rest)
  {
    var body := Window(Decimal(g.radius), Decimal(g.blur), Decimal(g.opacity), Decimal(g.shadow), Decimal(g.border),
      Hex(g.tint, 6), rest);
    assert "window {" + body == "window" + " {" + body;
    SelectorNames();
    ColourText(g.tint);
    NextSelector(t, "window", body);
    WindowRead(t, g.radius, g.blur, g.opacity, g.shadow, g.border, Hex(g.tint, 6), rest);
  }

  lemma {:induction false} DesktopBlock(t: S.Theme, g: S.Theme, rest: string)
    ensures S.Parse(t, Intro("desktop {" +
        Desktop(Hex(g.accent, 6), WallpaperName(g.wallpaper), Hex(g.glow1, 6), Hex(g.glow2, 6), rest)))
         == S.Parse(t, "\n\n" + rest)
  {
    var body := Desktop(Hex(g.accent, 6), WallpaperName(g.wallpaper), Hex(g.glow1, 6), Hex(g.glow2, 6), rest);
    var p := Intro("desktop {" + body);
    assert "desktop {" == "desktop" + " {";
    Glue("desktop", " {", body);
    SelectorNames();
    IntroSkipped("desktop {" + body);
    NameStays("desktop", " {" + body);
    SelectorRead(t, p, "desktop", body);
    DesktopRead(t, g.accent, g.wallpaper, g.glow1, g.glow2, rest);
  }

  // Saving a theme and reading the text into another recovers the nine window and taskbar
  // settings exactly, and nothing else.
  lemma {:induction false} SavedRead(t: S.Theme, g: S.Theme)
    requires S.InRange(g)
    ensures S.Parse(t, Saved(g)) == Recovered(t, g)
  {
    var terminal := "terminal {" + Terminal(Hex(g.termBg, 6), Hex(g.termFg, 6), "\n");
    var taskbar := "taskbar {" +
      Taskbar(if g.barVisible then "true" else "false", if g.barPos != 0 then "top" else "bottom",
                                         Decimal(g.barHeight), Decimal(g.barOpacity), terminal);
    var window := "window {" +
      Window(Decimal(g.radius), Decimal(g.blur), Decimal(g.opacity), Decimal(g.shadow), Decimal(g.border),
                                      Hex(g.tint, 6), taskbar);
    var t1 := t.(radius := g.radius, blur := g.blur, opacity := g.opacity, shadow := g.shadow, border := g.border);
    DesktopBlock(t, g, window);
    WindowBlock(t, g, taskbar);
    BarBlock(t1, g, terminal);
    LastBlock(Recovered(t, g), g);
  }

  // theme_save then theme_reload gives the theme back exactly when the seven settings that are
  // not read back have their default values.
  lemma SaveReloadIff(g: S.Theme)
    requires S.InRange(g)
    ensures S.Parse(S.DEFAULTS, Saved(g)) == g <==>
      && g.accent == S.DEFAULTS.accent && g.wallpaper == S.DEFAULTS.wallpaper && g.glow1 == S.DEFAULTS.glow1
      && g.glow2 == S.DEFAULTS.glow2 && g.tint == S.DEFAULTS.tint && g.termBg == S.DEFAULTS.termBg
      && g.termFg == S.DEFAULTS.termFg
  {
    SavedRead(S.DEFAULTS, g);
  }

  // A default theme with another accent, saved and reloaded, is the default theme again.
  lemma AccentLost(accent: nat)
    requires accent < S.RGB
    ensures S.Parse(S.DEFAULTS, Saved(S.DEFAULTS.(accent := accent))) == S.DEFAULTS
  {
    DefaultsInRange();
    SavedRead(S.DEFAULTS, S.DEFAULTS.(accent := accent));
  }

  lemma DefaultsInRange()
    ensures S.InRange(S.DEFAULTS)
  {
  }

  // So `theme set accent rose` lasts only until the next reload.
  lemma RoseLost()
    ensures var g := S.Apply(S.DEFAULTS, "desktop", "accent", "rose");
      g.accent != S.DEFAULTS.accent && S.Parse(S.DEFAULTS, Saved(g)) == S.DEFAULTS
  {
    SetsRose(S.DEFAULTS);
    AccentLost(0xFF4D6D);
  }

  lemma SetsRose(t: S.Theme)
    ensures S.Apply(t, "desktop", "accent", "rose") == t.(accent := 0xFF4D6D)
  {
    assert S.Key("desktop", "accent") == "desktop.accent";
    OnlyDesktop(t, "desktop.accent", "rose");
    OnlyDesktop(t.(accent := 0xFF4D6D), "desktop.accent", "rose");
  }
}
