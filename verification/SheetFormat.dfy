// The format string of theme_save in kernel/gui/m1ss.c: with the theme's arguments it prints the
// text of SheetSave, which fits the 1400-byte buffer.
module SheetFormat {
  import opened Strings
  import opened Printf
  import opened SheetText
  import opened SheetSave
  import S = Sheet

  const BUFSIZE: nat := 1400

  // ---- The format string ----

  lemma Unpadded(s: string)
    ensures Padded(s, 0, false, false) == s
  {
    assert Spaces(0 - |s|, ' ') == "";
  }

  // "%d" prints its argument in decimal.
  lemma {:induction false} ExpandNumber(rest: string, v: int, args: seq<Arg>)
    ensures Expand("%d" + rest, [Num(v)] + args) == Decimal(v) + Expand(rest, args)
  {
    var f := "%d" + rest;
    var p := Spec(false, false, 0, f[1..]);
    assert f[1..] == "d" + rest && f[1..][1..] == rest;
    assert Flags(f[1..], false, false) == p && Width(p) == p;
    assert ([Num(v)] + args)[1..] == args;
    Unpadded(Decimal(v));
    assert Convert('d', p, Num(v)) == Decimal(v);
  }

  predicate Literal(s: string) {
    '%' !in s
  }

  lemma FieldParts(indent: string, prop: string, gap: string, pre: string, v: string, rest: string)
    ensures Field(indent, prop, gap, pre + v, rest) == (indent + prop + ":" + gap + pre) + (v + (";" + rest))
  {
  }

  lemma {:induction false} FieldText(indent: string, prop: string, gap: string, pre: string, v: string, rest: string,
                                     args: seq<Arg>)
    requires Literal(indent) && Literal(prop) && Literal(gap) && Literal(pre)
    ensures Expand(Field(indent, prop, gap, pre + "%s", rest), [Text(v)] + args)
      == Field(indent, prop, gap, pre + v, Expand(rest, args))
  {
    var front := indent + prop + ":" + gap + pre;
    FieldParts(indent, prop, gap, pre, "%s", rest);
    FieldParts(indent, prop, gap, pre, v, Expand(rest, args));
    ExpandPlain(front, "%s" + (";" + rest), [Text(v)] + args);
    ExpandText(";" + rest, v, args);
    ExpandPlain(";", rest, args);
  }

  lemma {:induction false} FieldNumber(indent: string, prop: string, gap: string, v: int, rest: string, args: seq<Arg>)
    requires Literal(indent) && Literal(prop) && Literal(gap)
    ensures Expand(Field(indent, prop, gap, "%d", rest), [Num(v)] + args)
      == Field(indent, prop, gap, Decimal(v), Expand(rest, args))
  {
    var front := indent + prop + ":" + gap;
    assert Field(indent, prop, gap, "%d", rest) == front + ("%d" + (";" + rest));
    ExpandPlain(front, "%d" + (";" + rest), [Num(v)] + args);
    ExpandNumber(";" + rest, v, args);
    ExpandPlain(";", rest, args);
    assert Field(indent, prop, gap, Decimal(v), Expand(rest, args))
      == front + (Decimal(v) + (";" + Expand(rest, args)));
  }

  lemma {:induction false} NoteText(gap: string, body: string, rest: string, args: seq<Arg>)
    requires Literal(gap) && Literal(body)
    ensures Expand(Note(gap, body, rest), args) == Note(gap, body, Expand(rest, args))
  {
    assert Note(gap, body, rest) == (gap + "/*" + body + "*/") + rest;
    ExpandPlain(gap + "/*" + body + "*/", rest, args);
  }

  lemma {:induction false} CloseText(rest: string, args: seq<Arg>)
    ensures Expand("\n}" + ("\n\n" + rest), args) == "\n}" + ("\n\n" + Expand(rest, args))
  {
    ExpandPlain("\n}", "\n\n" + rest, args);
    ExpandPlain("\n\n", rest, args);
  }

  lemma {:induction false} GlowsText(g1: string, g2: string, rest: string, args: seq<Arg>)
    ensures Expand(Field("\n  ", "glow1", "     ", "#" + "%s",
        Field("\n  ", "glow2", "     ", "#" + "%s", "\n}" + ("\n\n" + rest))),
        [Text(g1)] + ([Text(g2)] + args))
      == Field("\n  ", "glow1", "     ", "#" + g1,
        Field("\n  ", "glow2", "     ", "#" + g2, "\n}" + ("\n\n" + Expand(rest, args))))
  {
    var e := "\n}" + ("\n\n" + rest);
    FieldText("\n  ", "glow1", "     ", "#", g1, Field("\n  ", "glow2", "     ", "#" + "%s", e), [Text(g2)] + args);
    FieldText("\n  ", "glow2", "     ", "#", g2, e, args);
    CloseText(rest, args);
  }

  // A field whose whole value is the argument
  lemma {:induction false} WordText(prop: string, gap: string, v: string, rest: string, args: seq<Arg>)
    requires Literal(prop) && Literal(gap)
    ensures Expand(Field("\n  ", prop, gap, "%s", rest), [Text(v)] + args)
      == Field("\n  ", prop, gap, v, Expand(rest, args))
  {
    assert "" + "%s" == "%s" && "" + v == v;
    FieldText("\n  ", prop, gap, "", v, rest, args);
  }

  lemma {:induction false} WallpaperText(w: string, g1: string, g2: string, rest: string, args: seq<Arg>)
    ensures var p3 := Field("\n  ", "glow1", "     ", "#" + "%s",
      Field("\n  ", "glow2", "     ", "#" + "%s", "\n}" + ("\n\n" + rest)));
      var q3 := Field("\n  ", "glow1", "     ", "#" + g1,
        Field("\n  ", "glow2", "     ", "#" + g2, "\n}" + ("\n\n" + Expand(rest, args))));
      Expand(Field("\n  ", "wallpaper", " ", "%s", Note("      ", " aurora|gradient|grid|solid ", p3)),
        [Text(w)] + ([Text(g1)] + ([Text(g2)] + args)))
        == Field("\n  ", "wallpaper", " ", w, Note("      ", " aurora|gradient|grid|solid ", q3))
  {
    var p3 := Field("\n  ", "glow1", "     ", "#" + "%s",
      Field("\n  ", "glow2", "     ", "#" + "%s", "\n}" + ("\n\n" + rest)));
    var a3 := [Text(g1)] + ([Text(g2)] + args);
    WordText("wallpaper", " ", w, Note("      ", " aurora|gradient|grid|solid ", p3), a3);
    NoteText("      ", " aurora|gradient|grid|solid ", p3, a3);
    GlowsText(g1, g2, rest, args);
  }

  lemma {:induction false} DesktopText(a: string, w: string, g1: string, g2: string, rest: string, args: seq<Arg>)
    ensures Expand(Desktop("%s", "%s", "%s", "%s", rest), [Text(a)] + ([Text(w)] + ([Text(g1)] + ([Text(g2)] + args))))
         == Desktop(a, w, g1, g2, Expand(rest, args))
  {
    var p3 := Field("\n  ", "glow1", "     ", "#" + "%s",
      Field("\n  ", "glow2", "     ", "#" + "%s", "\n}" + ("\n\n" + rest)));
    var p2 := Field("\n  ", "wallpaper", " ", "%s", Note("      ", " aurora|gradient|grid|solid ", p3));
    var a2 := [Text(w)] + ([Text(g1)] + ([Text(g2)] + args));
    FieldText("\n  ", "accent", "    ", "#", a, Note("     ", COLOURS, p2), a2);
    NoteText("     ", COLOURS, p2, a2);
    WallpaperText(w, g1, g2, rest, args);
  }

  lemma {:induction false} WindowEndText(sh: int, bo: int, tint: string, rest: string, args: seq<Arg>)
    ensures Expand(Field("\n  ", "shadow", "  ", "%d", Field("\n  ", "border", "  ", "%d",
        Field("\n  ", "tint", "    ", "#" + "%s", "\n}" + ("\n\n" + rest)))),
        [Num(sh)] + ([Num(bo)] + ([Text(tint)] + args)))
      == Field("\n  ", "shadow", "  ", Decimal(sh), Field("\n  ", "border", "  ", Decimal(bo),
        Field("\n  ", "tint", "    ", "#" + tint, "\n}" + ("\n\n" + Expand(rest, args)))))
  {
    var p6 := Field("\n  ", "tint", "    ", "#" + "%s", "\n}" + ("\n\n" + rest));
    var a6 := [Text(tint)] + args;
    FieldNumber("\n  ", "shadow", "  ", sh, Field("\n  ", "border", "  ", "%d", p6), [Num(bo)] + a6);
    FieldNumber("\n  ", "border", "  ", bo, p6, a6);
    FieldText("\n  ", "tint", "    ", "#", tint, "\n}" + ("\n\n" + rest), args);
    CloseText(rest, args);
  }

  lemma {:induction false} WindowText(r: int, b: int, o: int, sh: int, bo: int, tint: string, rest: string,
                                      args: seq<Arg>)
    ensures Expand(Window("%d", "%d", "%d", "%d", "%d", "%s", rest),
        [Num(r)] + ([Num(b)] + ([Num(o)] + ([Num(sh)] + ([Num(bo)] + ([Text(tint)] + args))))))
      == Window(Decimal(r), Decimal(b), Decimal(o), Decimal(sh), Decimal(bo), tint, Expand(rest, args))
  {
    var p4 := Field("\n  ", "shadow", "  ", "%d", Field("\n  ", "border", "  ", "%d",
              Field("\n  ", "tint", "    ", "#" + "%s", "\n}" + ("\n\n" + rest))));
    var n3 := Note("        ", " frosted-glass strength 0..100 ", p4);
    var p3 := Field("\n  ", "opacity", " ", "%d", n3);
    var a4 := [Num(sh)] + ([Num(bo)] + ([Text(tint)] + args));
    FieldNumber("\n  ", "radius", "  ", r, Field("\n  ", "blur", "    ", "%d", p3), [Num(b)] + ([Num(o)] + a4));
    FieldNumber("\n  ", "blur", "    ", b, p3, [Num(o)] + a4);
    FieldNumber("\n  ", "opacity", " ", o, n3, a4);
    NoteText("        ", " frosted-glass strength 0..100 ", p4, a4);
    WindowEndText(sh, bo, tint, rest, args);
  }

  lemma {:induction false} TaskbarText(vis: string, pos: string, h: int, o: int, rest: string, args: seq<Arg>)
    ensures Expand(Taskbar("%s", "%s", "%d", "%d", rest), [Text(vis)] + ([Text(pos)] + ([Num(h)] + ([Num(o)] + args))))
         == Taskbar(vis, pos, Decimal(h), Decimal(o), Expand(rest, args))
  {
    var e := "\n}" + ("\n\n" + rest);
    var p3 := Field("\n  ", "height", "   ", "%d", Field("\n  ", "opacity", "  ", "%d", e));
    var n2 := Note("       ", " bottom|top ", p3);
    var a3 := [Num(h)] + ([Num(o)] + args);
    WordText("visible", "  ", vis, Field("\n  ", "position", " ", "%s", n2), [Text(pos)] + a3);
    WordText("position", " ", pos, n2, a3);
    NoteText("       ", " bottom|top ", p3, a3);
    FieldNumber("\n  ", "height", "   ", h, Field("\n  ", "opacity", "  ", "%d", e), [Num(o)] + args);
    FieldNumber("\n  ", "opacity", "  ", o, e, args);
    CloseText(rest, args);
  }

  lemma TerminalText(bg: string, fg: string)
    ensures Expand(Terminal("%s", "%s", "\n"), [Text(bg)] + [Text(fg)]) == Terminal(bg, fg, "\n")
  {
    var e := "\n}" + "\n";
    assert [Text(fg)] + [] == [Text(fg)];
    FieldText("\n  ", "background", " ", "#", bg, Field("\n  ", "foreground", " ", "#" + "%s", e), [Text(fg)]);
    FieldText("\n  ", "foreground", " ", "#", fg, e, []);
    ExpandPlain(e, "", []);
    assert e + "" == e && Expand("", []) == "";
  }

  // ---- theme_save ----

  const FORMAT: string := Layout("%s", "%s", "%s", "%s", "%d", "%d", "%d", "%d", "%d", "%s",
                                "%s", "%s", "%d", "%d", "%s", "%s")

  function BarArgs(g: S.Theme): seq<Arg> {
    [Text(if g.barVisible then "true" else "false")] + ([Text(if g.barPos != 0 then "top" else "bottom")] +
    ([Num(g.barHeight)] + ([Num(g.barOpacity)] + ([Text(Hex(g.termBg, 6))] + [Text(Hex(g.termFg, 6))]))))
  }

  function WindowArgs(g: S.Theme): seq<Arg> {
    [Num(g.radius)] + ([Num(g.blur)] + ([Num(g.opacity)] + ([Num(g.shadow)] +
      ([Num(g.border)] + ([Text(Hex(g.tint, 6))] + BarArgs(g))))))
  }

  function Args(g: S.Theme): seq<Arg> {
    [Text(Hex(g.accent, 6))] + ([Text(WallpaperName(g.wallpaper))] +
      ([Text(Hex(g.glow1, 6))] + ([Text(Hex(g.glow2, 6))] + WindowArgs(g))))
  }

  lemma {:induction false} OpenText(name: string, body: string, args: seq<Arg>)
    requires Literal(name)
    ensures Expand(name + body, args) == name + Expand(body, args)
  {
    ExpandPlain(name, body, args);
  }

  lemma {:induction false} IntroText(rest: string, args: seq<Arg>)
    ensures Expand(Intro(rest), args) == Intro(Expand(rest, args))
  {
    var front := "/*" + INTRO0 + "*" + INTRO1 + "*" + INTRO2 + "*/" + "\n\n";
    IntroLiteral();
    ExpandPlain(front, rest, args);
  }

  lemma IntroLiteral()
    ensures Literal("/*" + INTRO0 + "*" + INTRO1 + "*" + INTRO2 + "*/" + "\n\n")
  {
    IntroTame();
    Joined(INTRO0, INTRO1, INTRO2);
  }

  lemma Joined(a: string, b: string, c: string)
    requires Literal(a) && Literal(b) && Literal(c)
    ensures Literal("/*" + a + "*" + b + "*" + c + "*/" + "\n\n")
  {
  }

  lemma BarPrints(g: S.Theme)
    ensures var terminal := "terminal {" + Terminal("%s", "%s", "\n");
      Expand("taskbar {" + Taskbar("%s", "%s", "%d", "%d", terminal), BarArgs(g))
      == "taskbar {" + Taskbar(if g.barVisible then "true" else "false", if g.barPos != 0 then "top" else "bottom",
            Decimal(g.barHeight), Decimal(g.barOpacity),
            "terminal {" + Terminal(Hex(g.termBg, 6), Hex(g.termFg, 6), "\n"))
  {
    var last := [Text(Hex(g.termBg, 6))] + [Text(Hex(g.termFg, 6))];
    var terminal := "terminal {" + Terminal("%s", "%s", "\n");
    OpenText("taskbar {", Taskbar("%s", "%s", "%d", "%d", terminal), BarArgs(g));
    TaskbarText(if g.barVisible then "true" else "false", if g.barPos != 0 then "top" else "bottom",
                g.barHeight, g.barOpacity, terminal, last);
    OpenText("terminal {", Terminal("%s", "%s", "\n"), last);
    TerminalText(Hex(g.termBg, 6), Hex(g.termFg, 6));
  }

  function BarSheet(g: S.Theme): string {
    "taskbar {" + Taskbar(if g.barVisible then "true" else "false", if g.barPos != 0 then "top" else "bottom",
      Decimal(g.barHeight), Decimal(g.barOpacity), "terminal {" + Terminal(Hex(g.termBg, 6), Hex(g.termFg, 6), "\n"))
  }

  lemma {:induction false} WindowPrints(g: S.Theme, bar: string, out: string, args: seq<Arg>)
    requires Expand(bar, args) == out
    ensures Expand("window {" + Window("%d", "%d", "%d", "%d", "%d", "%s", bar),
        [Num(g.radius)] + ([Num(g.blur)] + ([Num(g.opacity)] + ([Num(g.shadow)] +
        ([Num(g.border)] + ([Text(Hex(g.tint, 6))] + args))))))
      == "window {" + Window(Decimal(g.radius), Decimal(g.blur), Decimal(g.opacity), Decimal(g.shadow),
                             Decimal(g.border), Hex(g.tint, 6), out)
  {
    OpenText("window {", Window("%d", "%d", "%d", "%d", "%d", "%s", bar),
      [Num(g.radius)] + ([Num(g.blur)] + ([Num(g.opacity)] + ([Num(g.shadow)] +
      ([Num(g.border)] + ([Text(Hex(g.tint, 6))] + args))))));
    WindowText(g.radius, g.blur, g.opacity, g.shadow, g.border, Hex(g.tint, 6), bar, args);
  }

  lemma {:induction false} DesktopPrints(g: S.Theme, window: string, out: string, args: seq<Arg>)
    requires Expand(window, args) == out
    ensures Expand(Intro("desktop {" + Desktop("%s", "%s", "%s", "%s", window)),
        [Text(Hex(g.accent, 6))] +
        ([Text(WallpaperName(g.wallpaper))] + ([Text(Hex(g.glow1, 6))] + ([Text(Hex(g.glow2, 6))] + args))))
      == Intro("desktop {" +
               Desktop(Hex(g.accent, 6), WallpaperName(g.wallpaper), Hex(g.glow1, 6), Hex(g.glow2, 6), out))
  {
    var desktop := Desktop("%s", "%s", "%s", "%s", window);
    var all := [Text(Hex(g.accent, 6))]
      + ([Text(WallpaperName(g.wallpaper))] + ([Text(Hex(g.glow1, 6))] + ([Text(Hex(g.glow2, 6))] + args)));
    IntroText("desktop {" + desktop, all);
    OpenText("desktop {", desktop, all);
    DesktopText(Hex(g.accent, 6), WallpaperName(g.wallpaper), Hex(g.glow1, 6), Hex(g.glow2, 6), window, args);
  }

  // The format string with the theme's arguments prints the saved text.
  lemma FormatPrints(g: S.Theme)
    ensures Expand(FORMAT, Args(g)) == Saved(g)
  {
    var bar := "taskbar {" + Taskbar("%s", "%s", "%d", "%d", "terminal {" + Terminal("%s", "%s", "\n"));
    var window := "window {" + Window("%d", "%d", "%d", "%d", "%d", "%s", bar);
    BarPrints(g);
    WindowPrints(g, bar, BarSheet(g), BarArgs(g));
    DesktopPrints(g, window, Expand(window, WindowArgs(g)), WindowArgs(g));
  }

  // ---- The size of the text ----

  lemma DesktopSize(a: string, w: string, g1: string, g2: string, rest: string)
    ensures |Desktop(a, w, g1, g2, rest)| <= |a| + |w| + |g1| + |g2| + |rest| + 160
  {
  }

  lemma WindowSize(r: string, b: string, o: string, sh: string, bo: string, tint: string, rest: string)
    ensures |Window(r, b, o, sh, bo, tint, rest)| <= |r| + |b| + |o| + |sh| + |bo| + |tint| + |rest| + 140
  {
  }

  lemma TaskbarSize(v: string, p: string, h: string, o: string, rest: string)
    ensures |Taskbar(v, p, h, o, rest)| <= |v| + |p| + |h| + |o| + |rest| + 90
  {
  }

  lemma TerminalSize(b: string, f: string, rest: string)
    ensures |Terminal(b, f, rest)| <= |b| + |f| + |rest| + 40
  {
  }

  lemma IntroSize(rest: string)
    ensures |Intro(rest)| <= |rest| + 140
  {
  }

  lemma BarSheetSize(g: S.Theme)
    requires S.InRange(g)
    ensures |BarSheet(g)| <= 200
  {
    NumberField(g.barHeight);
    NumberField(g.barOpacity);
    var terminal := "terminal {" + Terminal(Hex(g.termBg, 6), Hex(g.termFg, 6), "\n");
    TerminalSize(Hex(g.termBg, 6), Hex(g.termFg, 6), "\n");
    TaskbarSize(if g.barVisible then "true" else "false", if g.barPos != 0 then "top" else "bottom",
                Decimal(g.barHeight), Decimal(g.barOpacity), terminal);
  }

  lemma SheetSize(a: string, w: string, g1: string, g2: string, r: string, b: string, o: string, sh: string, bo: string,
                  tint: string, bar: string)
    requires |a| <= 6 && |w| <= 8 && |g1| <= 6 && |g2| <= 6 && |tint| <= 6 && |bar| <= 200
    requires |r| <= 3 && |b| <= 3 && |o| <= 3 && |sh| <= 3 && |bo| <= 3
    ensures |Intro("desktop {" + Desktop(a, w, g1, g2, "window {" + Window(r, b, o, sh, bo, tint, bar)))| < BUFSIZE
  {
    var window := "window {" + Window(r, b, o, sh, bo, tint, bar);
    WindowSize(r, b, o, sh, bo, tint, bar);
    DesktopSize(a, w, g1, g2, window);
    IntroSize("desktop {" + Desktop(a, w, g1, g2, window));
  }

  lemma ShortNumbers(g: S.Theme)
    requires S.InRange(g)
    ensures |Decimal(g.radius)| <= 3 && |Decimal(g.blur)| <= 3 && |Decimal(g.opacity)| <= 3
    ensures |Decimal(g.shadow)| <= 3 && |Decimal(g.border)| <= 3 && |WallpaperName(g.wallpaper)| <= 8
  {
    NumberField(g.radius);
    NumberField(g.blur);
    NumberField(g.opacity);
    NumberField(g.shadow);
    NumberField(g.border);
  }

  // The text of any theme in range fits the buffer of theme_save, terminator included.
  lemma SavedFits(g: S.Theme)
    requires S.InRange(g)
    ensures |Saved(g)| < BUFSIZE
  {
    ShortNumbers(g);
    BarSheetSize(g);
    SheetSize(Hex(g.accent, 6), WallpaperName(g.wallpaper), Hex(g.glow1, 6), Hex(g.glow2, 6),
              Decimal(g.radius), Decimal(g.blur),
              Decimal(g.opacity), Decimal(g.shadow), Decimal(g.border), Hex(g.tint, 6), BarSheet(g));
  }
}
