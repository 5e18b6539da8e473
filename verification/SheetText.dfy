// The text theme_save prints, and how the parser reads the pieces such a text is made of.
module SheetText {
  import opened Strings
  import S = Sheet

  // ---- The layout, with a hole for every value ----

  function Field(indent: string, prop: string, gap: string, val: string, rest: string): string {
    indent + prop + ":" + gap + val + ";" + rest
  }

  function Note(gap: string, body: string, rest: string): string {
    gap + "/*" + body + "*/" + rest
  }

  function Desktop(accent: string, wallpaper: string, glow1: string, glow2: string, rest: string): string {
    Field("\n  ", "accent", "    ", "#" + accent, Note("     ", " orange|rose|green|blue|purple|gold|#hex ",
    Field("\n  ", "wallpaper", " ", wallpaper, Note("      ", " aurora|gradient|grid|solid ",
    Field("\n  ", "glow1", "     ", "#" + glow1,
    Field("\n  ", "glow2", "     ", "#" + glow2, "\n}" + ("\n\n" + rest)))))))
  }

  function Window(radius: string, blur: string, opacity: string, shadow: string, border: string, tint: string,
                  rest: string): string {
    Field("\n  ", "radius", "  ", radius,
    Field("\n  ", "blur", "    ", blur,
    Field("\n  ", "opacity", " ", opacity, Note("        ", " frosted-glass strength 0..100 ",
    Field("\n  ", "shadow", "  ", shadow,
    Field("\n  ", "border", "  ", border,
    Field("\n  ", "tint", "    ", "#" + tint, "\n}" + ("\n\n" + rest))))))))
  }

  function Taskbar(visible: string, position: string, height: string, opacity: string, rest: string): string {
    Field("\n  ", "visible", "  ", visible,
    Field("\n  ", "position", " ", position, Note("       ", " bottom|top ",
    Field("\n  ", "height", "   ", height,
    Field("\n  ", "opacity", "  ", opacity, "\n}" + ("\n\n" + rest))))))
  }

  function Terminal(background: string, foreground: string, rest: string): string {
    Field("\n  ", "background", " ", "#" + background,
    Field("\n  ", "foreground", " ", "#" + foreground, "\n}" + rest))
  }

  const INTRO0: string := " m1ss - m1keOS Style Sheet\n "
  const INTRO1: string := " Edit me, then run:  m1kectl theme reload\n "
  const INTRO2: string := " Restyles the live desktop." + " The system serves you. "

  // Text that neither the comment's end nor a directive nor a NUL can be part of
  predicate Tame(s: string) {
    forall i :: 0 <= i < |s| ==> 0 < s[i] as int < 0x100 && s[i] != '*' && s[i] != '%'
  }

  lemma FirstTame()
    ensures Tame(INTRO0)
  {
  }

  lemma SecondTame()
    ensures Tame(INTRO1)
  {
  }

  lemma ThirdTame()
    ensures Tame(INTRO2)
  {
  }

  lemma IntroTame()
    ensures Tame(INTRO0) && Tame(INTRO1) && Tame(INTRO2)
    ensures INTRO1 != "" && INTRO1[0] == ' ' && INTRO2 != "" && INTRO2[0] == ' '
  {
    FirstTame();
    SecondTame();
    ThirdTame();
  }

  function Intro(rest: string): string {
    "/*" + INTRO0 + "*" + INTRO1 + "*" + INTRO2 + "*/" + "\n\n" + rest
  }

  // The whole sheet, as the format string of theme_save lays it out.
  function Layout(accent: string, wallpaper: string, glow1: string, glow2: string, radius: string, blur: string,
                  opacity: string, shadow: string, border: string, tint: string, visible: string, position: string,
                  height: string, barOpacity: string, background: string, foreground: string): string
  {
    Intro("desktop {" + Desktop(accent, wallpaper, glow1, glow2,
          "window {" + Window(radius, blur, opacity, shadow, border, tint,
          "taskbar {" + Taskbar(visible, position, height, barOpacity,
          "terminal {" + Terminal(background, foreground, "\n")))))
  }

  // ---- Skipping ----

  predicate AllWs(s: string) {
    forall i :: 0 <= i < |s| ==> S.IsWs(s[i])
  }

  lemma {:induction false} SpacesSkipped(ws: string, rest: string)
    requires AllWs(ws)
    ensures S.SkipWs(ws + rest) == S.SkipWs(rest)
    decreases |ws|
  {
    if ws == "" {
      assert ws + rest == rest;
    } else {
      assert (ws + rest)[1..] == ws[1..] + rest;
      SpacesSkipped(ws[1..], rest);
    }
  }

  lemma {:induction false} ToBlockEnd(body: string, rest: string)
    requires '*' !in body
    ensures S.EndOfBlock(body + rest) == S.EndOfBlock(rest)
    decreases |body|
  {
    if body == "" {
      assert body + rest == rest;
    } else {
      assert (body + rest)[1..] == body[1..] + rest;
      ToBlockEnd(body[1..], rest);
    }
  }

  // A comment without stars inside is white space.
  lemma {:induction false} CommentSkipped(body: string, rest: string)
    requires '*' !in body
    ensures S.SkipWs("/*" + body + "*/" + rest) == S.SkipWs(rest)
  {
    var p := "/*" + body + "*/" + rest;
    assert p[2..] == body + ("*/" + rest);
    ToBlockEnd(body, "*/" + rest);
    assert ("*/" + rest)[2..] == rest;
  }

  lemma {:induction false} ToLineEnd(line: string, rest: string)
    requires '\n' !in line
    ensures S.EndOfLine(line + "\n" + rest) == "\n" + rest
    decreases |line|
  {
    var p := line + "\n" + rest;
    if line != "" {
      assert p[1..] == line[1..] + "\n" + rest;
      ToLineEnd(line[1..], rest);
    } else {
      assert p == "\n" + rest;
    }
  }

  // A '#' hides the rest of its line.
  lemma {:induction false} HashSkipped(line: string, rest: string)
    requires '\n' !in line
    ensures S.SkipWs("#" + line + "\n" + rest) == S.SkipWs(rest)
  {
    var p := "#" + line + "\n" + rest;
    ToLineEnd("#" + line, rest);
    assert p == ("#" + line) + "\n" + rest;
    SpacesSkipped("\n", rest);
  }

  // ---- Declarations ----

  predicate IsName(s: string) {
    s != "" && |s| < S.TOKEN && s[0] != '/' && s[0] != '#' && forall i :: 0 <= i < |s| ==> !S.Ends(s[i], ":}{;")
  }

  // A value as it stands in the text, at most 47 characters, no blank at its ends.
  predicate IsValue(s: string) {
    && |s| < S.VALUE && ';' !in s && '}' !in s
    && (s != "" ==> !IsBlank(s[|s| - 1]) && s[|s| - 1] != '\r')
  }

  lemma {:induction false} TokenRead(name: string, rest: string, stops: string)
    requires rest == "" || S.Ends(rest[0], stops)
    requires forall i :: 0 <= i < |name| ==> !S.Ends(name[i], stops)
    ensures S.TokenLength(name + rest, stops) == |name|
    decreases |name|
  {
    if name == "" {
      assert name + rest == rest;
    } else {
      assert (name + rest)[1..] == name[1..] + rest;
      TokenRead(name[1..], rest, stops);
    }
  }

  lemma {:induction false} ValueRead(val: string, rest: string)
    requires ';' !in val && '}' !in val && rest != "" && (rest[0] == ';' || rest[0] == '}')
    ensures S.ValueLength(val + rest) == |val|
    decreases |val|
  {
    if val == "" {
      assert val + rest == rest;
    } else {
      assert (val + rest)[1..] == val[1..] + rest;
      ValueRead(val[1..], rest);
    }
  }

  // The block loop looks only at what skip_ws leaves.
  lemma {:induction false} SameAfterWs(t: S.Theme, sel: string, p: string, q: string)
    requires S.SkipWs(p) == S.SkipWs(q)
    ensures S.Block(t, sel, p) == S.Block(t, sel, q)
  {
  }

  lemma {:induction false} NameStays(name: string, rest: string)
    requires IsName(name)
    ensures S.SkipWs(name + rest) == name + rest && (name + rest)[0] != '}'
  {
    assert !S.Ends(name[0], ":}{;");
  }

  // What stands behind "prop:" decides the declaration.
  lemma {:induction false} DeclarationRead(t: S.Theme, sel: string, indent: string, prop: string, tail: string)
    requires AllWs(indent) && IsName(prop)
    ensures S.Block(t, sel, indent + prop + ":" + tail)
         == var (t', rest) := S.Assigned(t, sel, prop, tail); S.Block(t', sel, rest)
  {
    var p := prop + ":" + tail;
    var q := ":" + tail;
    assert p == prop + q;
    assert indent + prop + ":" + tail == indent + p;
    SpacesSkipped(indent, p);
    NameStays(prop, q);
    forall i | 0 <= i < |prop| ensures !S.Ends(prop[i], ":}") { assert !S.Ends(prop[i], ":}{;"); }
    TokenRead(prop, q, ":}");
    assert p[..|prop|] == prop && p[|prop|..] == q && q[1..] == tail;
    assert S.SkipWs(q) == q;
    assert S.Declaration(t, sel, p) == S.Assigned(t, sel, prop, tail);
  }

  // A value up to its ';'.
  lemma {:induction false} ValueAssigned(t: S.Theme, sel: string, prop: string, p: string, val: string, rest: string)
    requires S.SkipWs(p) == val + ";" + rest && IsValue(val) && prop != ""
    ensures S.Assigned(t, sel, prop, p) == (S.Apply(t, sel, prop, val), rest)
  {
    var v := val + ";" + rest;
    assert v == val + (";" + rest);
    ValueRead(val, ";" + rest);
    assert v[..|val|] == val && v[|val|..] == ";" + rest && (";" + rest)[1..] == rest;
    assert S.TrimEnd(val) == val;
  }

  // No value before the closing brace.
  lemma {:induction false} NothingAssigned(t: S.Theme, sel: string, prop: string, p: string, rest: string)
    requires S.SkipWs(p) == "}" + rest && prop != ""
    ensures S.Assigned(t, sel, prop, p) == (S.Apply(t, sel, prop, ""), "}" + rest)
  {
    ValueRead("", "}" + rest);
    assert "" + ("}" + rest) == "}" + rest;
    assert ("}" + rest)[..0] == "" && ("}" + rest)[0..] == "}" + rest;
  }

  lemma {:induction false} NoteRead(t: S.Theme, sel: string, gap: string, body: string, rest: string)
    requires AllWs(gap) && '*' !in body
    ensures S.Block(t, sel, Note(gap, body, rest)) == S.Block(t, sel, rest)
  {
    assert Note(gap, body, rest) == gap + ("/*" + body + "*/" + rest);
    SpacesSkipped(gap, "/*" + body + "*/" + rest);
    CommentSkipped(body, rest);
    SameAfterWs(t, sel, Note(gap, body, rest), rest);
  }

  predicate Starts(val: string) {
    val != "" && !S.IsWs(val[0]) && val[0] != '/' && val[0] != '#'
  }

  // "prop: val;" sets the property.
  lemma {:induction false} PlainField(t: S.Theme, sel: string, indent: string, prop: string, gap: string, val: string,
                                      rest: string)
    requires AllWs(indent) && IsName(prop) && AllWs(gap) && IsValue(val) && Starts(val)
    ensures S.Block(t, sel, Field(indent, prop, gap, val, rest)) == S.Block(S.Apply(t, sel, prop, val), sel, rest)
  {
    var tail := gap + (val + ";" + rest);
    assert Field(indent, prop, gap, val, rest) == indent + prop + ":" + tail;
    DeclarationRead(t, sel, indent, prop, tail);
    SpacesSkipped(gap, val + ";" + rest);
    ValueAssigned(t, sel, prop, tail, val, rest);
  }

  // "prop: #..." takes what stands on the following line for its value.
  lemma {:induction false} HashField(t: S.Theme, sel: string, indent: string, prop: string, gap: string, line: string,
                                     next: string, val: string, rest: string)
    requires AllWs(indent) && IsName(prop) && AllWs(gap) && '\n' !in line
    requires S.SkipWs(next) == val + ";" + rest && IsValue(val)
    ensures S.Block(t, sel, indent + prop + ":" + gap + "#" + line + "\n" + next)
      == S.Block(S.Apply(t, sel, prop, val), sel, rest)
  {
    var hash := "#" + line + "\n" + next;
    assert indent + prop + ":" + gap + "#" + line + "\n" + next == indent + prop + ":" + (gap + hash);
    DeclarationRead(t, sel, indent, prop, gap + hash);
    SpacesSkipped(gap, hash);
    HashSkipped(line, next);
    ValueAssigned(t, sel, prop, gap + hash, val, rest);
  }

  // ... or nothing, when the brace closes there.
  lemma {:induction false} HashClose(t: S.Theme, sel: string, indent: string, prop: string, gap: string, line: string,
                                     next: string, rest: string)
    requires AllWs(indent) && IsName(prop) && AllWs(gap) && '\n' !in line && S.SkipWs(next) == "}" + rest
    ensures S.Block(t, sel, indent + prop + ":" + gap + "#" + line + "\n" + next) == (S.Apply(t, sel, prop, ""), rest)
  {
    var hash := "#" + line + "\n" + next;
    assert indent + prop + ":" + gap + "#" + line + "\n" + next == indent + prop + ":" + (gap + hash);
    DeclarationRead(t, sel, indent, prop, gap + hash);
    SpacesSkipped(gap, hash);
    HashSkipped(line, next);
    NothingAssigned(t, sel, prop, gap + hash, rest);
    Closed(S.Apply(t, sel, prop, ""), sel, "}" + rest, rest);
  }

  lemma {:induction false} Closed(t: S.Theme, sel: string, p: string, rest: string)
    requires S.SkipWs(p) == "}" + rest
    ensures S.Block(t, sel, p) == (t, rest)
  {
    assert ("}" + rest)[1..] == rest;
  }

  lemma NameBeforeBrace(name: string, rest: string)
    requires IsName(name)
    ensures var q := name + " {" + rest;
      S.TokenLength(q, "{") == |name| && q[..|name|] == name && S.SkipWs(q[|name|..]) == "{" + rest
  {
    var tail := " {" + rest;
    assert name + " {" + rest == name + tail;
    forall i | 0 <= i < |name| ensures !S.Ends(name[i], "{") { assert !S.Ends(name[i], ":}{;"); }
    TokenRead(name, tail, "{");
    assert (name + tail)[|name|..] == tail && tail == " " + ("{" + rest);
    SpacesSkipped(" ", "{" + rest);
  }

  // "name {" opens a block.
  lemma {:induction false} SelectorRead(t: S.Theme, p: string, name: string, rest: string)
    requires S.SkipWs(p) == name + " {" + rest && IsName(name)
    ensures S.Selector(t, p) == S.Block(t, name, rest)
  {
    NameBeforeBrace(name, rest);
    assert ("{" + rest)[1..] == rest;
  }
}
