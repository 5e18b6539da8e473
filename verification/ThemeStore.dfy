// theme_save, theme_reload and theme_set of kernel/gui/m1ss.c over the filesystem.
module ThemeStore {
  import opened Strings
  import opened Printf
  import opened SheetText
  import opened SheetSave
  import opened SheetFormat
  import opened FileText
  import opened Memory
  import opened FsTree
  import opened FsGrowth
  import opened Ramfs
  import S = Sheet
  import M = M1ss
  import T = Theme

  const THEME_NAME: string := "theme.m1ss"
  const THEME_PATH: string := CONF_DIR + "/" + THEME_NAME

  lemma NameShort()
    ensures Short(THEME_NAME)
  {
  }

  // ---- The saved sheet is a C string ----

  lemma {:induction false} HexBytewise(v: nat, w: nat)
    ensures Bytewise(Hex(v, w))
    decreases w
  {
    if w > 0 {
      HexBytewise(v / 16, w - 1);
      BytewiseIs([DIGITS[v % 16]]);
      BytewiseAppend(Hex(v / 16, w - 1), [DIGITS[v % 16]]);
    }
  }

  lemma {:induction false} NumeralBytewise(v: nat)
    ensures Bytewise(Numeral(v, 10))
    decreases v
  {
    BytewiseIs([DIGITS[v % 10]]);
    if v >= 10 {
      QuotientBelow(v, 10);
      NumeralBytewise(v / 10);
      BytewiseAppend(Numeral(v / 10, 10), [DIGITS[v % 10]]);
    }
  }

  // The next field, and what follows it
  lemma {:induction false} FieldBytewise(prop: string, gap: string, val: string, rest: string)
    requires Plain(prop) && Plain(gap) && Bytewise(val) && Bytewise(rest)
    ensures Bytewise(Field("\n  ", prop, gap, val, rest))
  {
    var front := "\n  " + prop + ":" + gap;
    assert Plain(front);
    PlainThen(front, val);
    PlainThen(";", rest);
    BytewiseAppend(front + val, ";" + rest);
    assert Field("\n  ", prop, gap, val, rest) == (front + val) + (";" + rest);
  }

  // A colour
  lemma {:induction false} HashBytewise(prop: string, gap: string, val: string, rest: string)
    requires Plain(prop) && Plain(gap) && Bytewise(val) && Bytewise(rest)
    ensures Bytewise(Field("\n  ", prop, gap, "#" + val, rest))
  {
    PlainThen("#", val);
    FieldBytewise(prop, gap, "#" + val, rest);
  }

  lemma {:induction false} NoteBytewise(gap: string, body: string, rest: string)
    requires Plain(gap) && Plain(body) && Bytewise(rest)
    ensures Bytewise(Note(gap, body, rest))
  {
    var front := gap + "/*" + body + "*/";
    assert Plain(front);
    PlainThen(front, rest);
  }

  lemma {:induction false} EndBytewise(rest: string)
    requires Bytewise(rest)
    ensures Bytewise("\n}" + ("\n\n" + rest)) && Bytewise("\n}" + rest)
  {
    PlainThen("\n\n", rest);
    PlainThen("\n}", "\n\n" + rest);
    PlainThen("\n}", rest);
  }

  lemma {:induction false} GlowsBytewise(g1: string, g2: string, rest: string)
    requires Bytewise(g1) && Bytewise(g2) && Bytewise(rest)
    ensures Bytewise(Field("\n  ", "glow1", "     ", "#" + g1,
      Field("\n  ", "glow2", "     ", "#" + g2, "\n}" + ("\n\n" + rest))))
  {
    EndBytewise(rest);
    HashBytewise("glow2", "     ", g2, "\n}" + ("\n\n" + rest));
    HashBytewise("glow1", "     ", g1, Field("\n  ", "glow2", "     ", "#" + g2, "\n}" + ("\n\n" + rest)));
  }

  lemma {:induction false} AccentBytewise(a: string, rest: string)
    requires Bytewise(a) && Bytewise(rest)
    ensures Bytewise(Field("\n  ", "accent", "    ", "#" + a, Note("     ", COLOURS, rest)))
  {
    NoteBytewise("     ", COLOURS, rest);
    HashBytewise("accent", "    ", a, Note("     ", COLOURS, rest));
  }

  lemma {:induction false} DesktopBytewise(a: string, w: string, g1: string, g2: string, rest: string)
    requires Bytewise(a) && Bytewise(w) && Bytewise(g1) && Bytewise(g2) && Bytewise(rest)
    ensures Bytewise(Desktop(a, w, g1, g2, rest))
  {
    var p3 := Field("\n  ", "glow1", "     ", "#" + g1,
      Field("\n  ", "glow2", "     ", "#" + g2, "\n}" + ("\n\n" + rest)));
    GlowsBytewise(g1, g2, rest);
    var n2 := Note("      ", " aurora|gradient|grid|solid ", p3);
    NoteBytewise("      ", " aurora|gradient|grid|solid ", p3);
    FieldBytewise("wallpaper", " ", w, n2);
    AccentBytewise(a, Field("\n  ", "wallpaper", " ", w, n2));
  }

  lemma {:induction false} EdgesBytewise(sh: string, bo: string, tint: string, rest: string)
    requires Bytewise(sh) && Bytewise(bo) && Bytewise(tint) && Bytewise(rest)
    ensures Bytewise(Field("\n  ", "shadow", "  ", sh, Field("\n  ", "border", "  ", bo,
      Field("\n  ", "tint", "    ", "#" + tint, "\n}" + ("\n\n" + rest)))))
  {
    EndBytewise(rest);
    var p6 := Field("\n  ", "tint", "    ", "#" + tint, "\n}" + ("\n\n" + rest));
    HashBytewise("tint", "    ", tint, "\n}" + ("\n\n" + rest));
    FieldBytewise("border", "  ", bo, p6);
    FieldBytewise("shadow", "  ", sh, Field("\n  ", "border", "  ", bo, p6));
  }

  lemma {:induction false} GlassBytewise(o: string, rest: string)
    requires Bytewise(o) && Bytewise(rest)
    ensures Bytewise(Field("\n  ", "opacity", " ", o, Note("        ", " frosted-glass strength 0..100 ", rest)))
  {
    NoteBytewise("        ", " frosted-glass strength 0..100 ", rest);
    FieldBytewise("opacity", " ", o, Note("        ", " frosted-glass strength 0..100 ", rest));
  }

  lemma {:induction false} WindowBytewise(r: string, b: string, o: string, sh: string, bo: string, tint: string,
                                          rest: string)
    requires Bytewise(r) && Bytewise(b) && Bytewise(o) && Bytewise(sh) && Bytewise(bo) && Bytewise(tint)
      && Bytewise(rest)
    ensures Bytewise(Window(r, b, o, sh, bo, tint, rest))
  {
    var p3 := Field("\n  ", "shadow", "  ", sh, Field("\n  ", "border", "  ", bo,
      Field("\n  ", "tint", "    ", "#" + tint, "\n}" + ("\n\n" + rest))));
    EdgesBytewise(sh, bo, tint, rest);
    var p2 := Field("\n  ", "opacity", " ", o, Note("        ", " frosted-glass strength 0..100 ", p3));
    GlassBytewise(o, p3);
    FieldBytewise("blur", "    ", b, p2);
    FieldBytewise("radius", "  ", r, Field("\n  ", "blur", "    ", b, p2));
  }

  lemma {:induction false} TaskbarBytewise(v: string, p: string, h: string, o: string, rest: string)
    requires Bytewise(v) && Bytewise(p) && Bytewise(h) && Bytewise(o) && Bytewise(rest)
    ensures Bytewise(Taskbar(v, p, h, o, rest))
  {
    EndBytewise(rest);
    var p4 := Field("\n  ", "opacity", "  ", o, "\n}" + ("\n\n" + rest));
    FieldBytewise("opacity", "  ", o, "\n}" + ("\n\n" + rest));
    var p3 := Field("\n  ", "height", "   ", h, p4);
    FieldBytewise("height", "   ", h, p4);
    var n2 := Note("       ", " bottom|top ", p3);
    NoteBytewise("       ", " bottom|top ", p3);
    var p2 := Field("\n  ", "position", " ", p, n2);
    FieldBytewise("position", " ", p, n2);
    FieldBytewise("visible", "  ", v, p2);
  }

  lemma {:induction false} TerminalBytewise(b: string, f: string, rest: string)
    requires Bytewise(b) && Bytewise(f) && Bytewise(rest)
    ensures Bytewise(Terminal(b, f, rest))
  {
    EndBytewise(rest);
    var p2 := Field("\n  ", "foreground", " ", "#" + f, "\n}" + rest);
    HashBytewise("foreground", " ", f, "\n}" + rest);
    HashBytewise("background", " ", b, p2);
  }

  lemma {:induction false} IntroBytewise(rest: string)
    requires Bytewise(rest)
    ensures Bytewise(Intro(rest))
  {
    IntroTame();
    IntroFront(INTRO0, INTRO1, INTRO2, rest);
  }

  lemma {:induction false} IntroFront(a: string, b: string, c: string, rest: string)
    requires Plain(a) && Plain(b) && Plain(c) && Bytewise(rest)
    ensures Bytewise("/*" + a + "*" + b + "*" + c + "*/" + "\n\n" + rest)
  {
    PlainThen("/*" + a + "*" + b + "*" + c + "*/" + "\n\n", rest);
  }

  lemma WallpaperBytewise(w: nat)
    ensures Bytewise(WallpaperName(w))
  {
    BytewiseIs(WallpaperName(w));
  }

  lemma WordsBytewise(vis: bool, pos: nat)
    ensures Bytewise(if vis then "true" else "false") && Bytewise(if pos != 0 then "top" else "bottom")
  {
    BytewiseIs(if vis then "true" else "false");
    BytewiseIs(if pos != 0 then "top" else "bottom");
  }

  lemma NumbersBytewise(g: S.Theme)
    requires S.WindowRange(g) && S.BarRange(g)
    ensures Bytewise(Decimal(g.radius)) && Bytewise(Decimal(g.blur)) && Bytewise(Decimal(g.opacity))
      && Bytewise(Decimal(g.shadow))
    ensures Bytewise(Decimal(g.border)) && Bytewise(Decimal(g.barHeight)) && Bytewise(Decimal(g.barOpacity))
  {
    NumeralBytewise(g.radius);
    NumeralBytewise(g.blur);
    NumeralBytewise(g.opacity);
    NumeralBytewise(g.shadow);
    NumeralBytewise(g.border);
    NumeralBytewise(g.barHeight);
    NumeralBytewise(g.barOpacity);
  }

  lemma SavedBytewise(g: S.Theme)
    requires S.InRange(g)
    ensures Bytewise(Saved(g))
  {
    HexBytewise(g.accent, 6);
    HexBytewise(g.glow1, 6);
    HexBytewise(g.glow2, 6);
    HexBytewise(g.tint, 6);
    HexBytewise(g.termBg, 6);
    HexBytewise(g.termFg, 6);
    NumbersBytewise(g);
    WallpaperBytewise(g.wallpaper);
    WordsBytewise(g.barVisible, g.barPos);
    BarsBytewise(if g.barVisible then "true" else "false", if g.barPos != 0 then "top" else "bottom",
                 Decimal(g.barHeight), Decimal(g.barOpacity), Hex(g.termBg, 6), Hex(g.termFg, 6));
    UpperBytewise(Hex(g.accent, 6), WallpaperName(g.wallpaper), Hex(g.glow1, 6), Hex(g.glow2, 6),
                  Decimal(g.radius), Decimal(g.blur), Decimal(g.opacity), Decimal(g.shadow), Decimal(g.border),
                  Hex(g.tint, 6),
                  BarSheet(g));
  }

  lemma {:induction false} BarsBytewise(v: string, p: string, h: string, o: string, bg: string, fg: string)
    requires Bytewise(v) && Bytewise(p) && Bytewise(h) && Bytewise(o) && Bytewise(bg) && Bytewise(fg)
    ensures Bytewise("taskbar {" + Taskbar(v, p, h, o, "terminal {" + Terminal(bg, fg, "\n")))
  {
    BytewiseIs("\n");
    TerminalBytewise(bg, fg, "\n");
    PlainThen("terminal {", Terminal(bg, fg, "\n"));
    TaskbarBytewise(v, p, h, o, "terminal {" + Terminal(bg, fg, "\n"));
    PlainThen("taskbar {", Taskbar(v, p, h, o, "terminal {" + Terminal(bg, fg, "\n")));
  }

  lemma {:induction false} UpperBytewise(a: string, w: string, g1: string, g2: string, r: string, b: string, o: string,
                                         sh: string, bo: string, tint: string, bars: string)
    requires Bytewise(a) && Bytewise(w) && Bytewise(g1) && Bytewise(g2)
    requires Bytewise(r) && Bytewise(b) && Bytewise(o) && Bytewise(sh) && Bytewise(bo) && Bytewise(tint)
      && Bytewise(bars)
    ensures Bytewise(Intro("desktop {" + Desktop(a, w, g1, g2, "window {" + Window(r, b, o, sh, bo, tint, bars))))
  {
    var window := "window {" + Window(r, b, o, sh, bo, tint, bars);
    WindowBytewise(r, b, o, sh, bo, tint, bars);
    PlainThen("window {", Window(r, b, o, sh, bo, tint, bars));
    DesktopBytewise(a, w, g1, g2, window);
    PlainThen("desktop {", Desktop(a, w, g1, g2, window));
    IntroBytewise("desktop {" + Desktop(a, w, g1, g2, window));
  }

  // ---- Saving, loading and setting ----

  // What theme_set_accent sets in the console
  class Console {
    var accent: nat
    constructor () { accent := 0; }
  }

  // A sheet that fits theme_save's buffer
  type Sheet1400 = s: string | Bytewise(s) && |s| < BUFSIZE

  // Read over any theme, the text gives back of g what a saved sheet gives back.
  ghost predicate ReadsBack(text: string, g: S.Theme) {
    forall t :: S.Parse(t, text) == Recovered(t, g)
  }

  // theme_save of the theme g, as PrintSheet prints it: if done, the file reads back as g.
  method ThemeSave(g: S.Fair, fs: Fs) returns (ghost done: bool)
    requires fs.Valid()
    modifies fs`nodes, fs`tree, fs.heap
    ensures fs.Valid()
    ensures done ==> InFile(fs.nodes, fs.tree, fs.heap.mem, g)
    ensures !done ==> CannotSaveBelow(fs.nodes, fs.tree, fs.heap.blocks, CONF_DIR, THEME_NAME, BUFSIZE)
  {
    var text: Sheet1400 := PrintBytes(g);
    done := SaveSheet(text, fs);
  }

  ghost predicate InFile(nodes: Nodes, t: Tree, m: seq<byte>, g: S.Theme) {
    var l := FileAt(nodes, t, m, THEME_PATH);
    l.Found? && ReadsBack(l.text, g)
  }

  method PrintBytes(g: S.Fair) returns (text: Sheet1400)
    ensures ReadsBack(text, g)
  {
    SavedBytewise(g);
    SavedFits(g);
    SavedReadsBack(g);
    text := T.PrintSheet(g);
  }

  lemma SavedReadsBack(g: S.Theme)
    requires S.InRange(g)
    ensures ReadsBack(Saved(g), g)
  {
    forall t ensures S.Parse(t, Saved(g)) == Recovered(t, g) { SavedRead(t, g); }
  }

  // fs_mkdir_p and fs_put of the printed sheet
  method SaveSheet(text: Sheet1400, fs: Fs) returns (ghost done: bool)
    requires fs.Valid()
    modifies fs`nodes, fs`tree, fs.heap
    ensures fs.Valid()
    ensures done ==> FileAt(fs.nodes, fs.tree, fs.heap.mem, THEME_PATH) == Found(text)
    ensures !done ==> CannotSaveBelow(fs.nodes, fs.tree, fs.heap.blocks, CONF_DIR, THEME_NAME, BUFSIZE)
  {
    ConfDirShort();
    NameShort();
    done := SaveText(fs, CONF_DIR, THEME_NAME, text);
  }

  // theme_reload: the defaults, then the file if there is one with contents
  method ThemeReload(styles: M.Styles, console: Console, fs: Fs)
    requires fs.Valid()
    modifies styles`g, console
    ensures console.accent == styles.g.accent
    ensures styles.g == match FileAt(fs.nodes, fs.tree, fs.heap.mem, THEME_PATH)
      case Found(text) => S.Parse(S.DEFAULTS, text)
      case Missing => S.DEFAULTS
  {
    styles.g := S.DEFAULTS;
    var l := LoadText(fs, THEME_PATH);
    if l.Found? { styles.M1ssParse(l.text); }
    console.accent := styles.g.accent;
  }

  // theme_set: false, with nothing changed, for a name it does not know; otherwise the assignment,
  // a save and the console's accent.
  method ThemeSet(styles: M.Styles, console: Console, fs: Fs, prop: string, val: string)
    returns (ok: bool, ghost done: bool)
    requires S.InRange(styles.g) && fs.Valid()
    modifies styles`g, console, fs`nodes, fs`tree, fs.heap
    ensures fs.Valid() && (styles.g, ok) == T.Set(old(styles.g), prop, val)
    ensures console.accent == if ok then styles.g.accent else old(console.accent)
    ensures ok && done ==> InFile(fs.nodes, fs.tree, fs.heap.mem, styles.g)
  {
    done := false;
    ok := T.Assign(styles, prop, val);
    if ok {
      done := ThemeSave(styles.g, fs);
      console.accent := styles.g.accent;
    }
  }

  // theme_save and then theme_reload, through the file: the nine settings that are read back come
  // back, the others get their defaults.
  method SaveAndReload(styles: M.Styles, console: Console, fs: Fs) returns (ghost done: bool)
    requires S.InRange(styles.g) && fs.Valid()
    modifies styles`g, console, fs`nodes, fs`tree, fs.heap
    ensures fs.Valid() && (done ==> styles.g == Recovered(S.DEFAULTS, old(styles.g)))
  {
    done := ThemeSave(styles.g, fs);
    ThemeReload(styles, console, fs);
  }
}
