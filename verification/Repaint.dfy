// The incremental repaint of kernel/gui/desktop.c over the present functions of
// kernel/drivers/console.c: the hardware framebuffer shows the back buffer with the cursor sprite
// on top, whichever branch of the event loop ran.
module Repaint {
  import opened Memory
  import opened Image
  import opened Clipping

  // 1 is white, 2 the dark outline, 0 transparent.
  const CURSOR: seq<seq<nat>> := [
    [2,0,0,0,0,0,0,0,0,0,0], [2,2,0,0,0,0,0,0,0,0,0], [2,1,2,0,0,0,0,0,0,0,0],
    [2,1,1,2,0,0,0,0,0,0,0], [2,1,1,1,2,0,0,0,0,0,0], [2,1,1,1,1,2,0,0,0,0,0],
    [2,1,1,1,1,1,2,0,0,0,0], [2,1,1,1,1,1,1,2,0,0,0], [2,1,1,1,1,1,1,1,2,0,0],
    [2,1,1,1,1,1,1,1,1,2,0], [2,1,1,1,1,1,2,2,2,2,2], [2,1,1,2,1,1,2,0,0,0,0],
    [2,1,2,0,2,1,1,2,0,0,0], [2,2,0,0,2,1,1,2,0,0,0], [2,0,0,0,0,2,1,1,2,0,0],
    [0,0,0,0,0,2,1,1,2,0,0], [0,0,0,0,0,0,2,2,2,0,0], [0,0,0,0,0,0,0,0,0,0,0]]
  const CURSOR_W: int := 11
  const CURSOR_H: int := 18
  const WHITE: word := 0x00FF_FFFF
  const DARK: word := 0x0010_1014

  lemma CursorSize()
    ensures |CURSOR| == CURSOR_H && forall r :: 0 <= r < CURSOR_H ==> |CURSOR[r]| == CURSOR_W
  {
  }

  function Sprite(c: int, r: int): nat
    requires 0 <= c < CURSOR_W && 0 <= r < CURSOR_H
  {
    CursorSize();
    CURSOR[r][c]
  }

  // A screen pixel of colour v at offset (dx, dy) from the cursor position.
  function Overlay(v: word, dx: int, dy: int): word {
    if 0 <= dx < CURSOR_W && 0 <= dy < CURSOR_H then
      if Sprite(dx, dy) == 1 then WHITE else if Sprite(dx, dy) == 2 then DARK else v
    else v
  }

  // What one iteration of the event loop is given: whether something asked for a redraw, what the
  // recomposition draws, and where the mouse is.
  datatype Frame = Frame(redraw: bool, scene: seq<word>, mx: int, my: int)

  // The sprite and one pixel more around it fit the int range.
  predicate OnDesk(x: int, y: int) {
    Fits32(x) && Fits32(x + CURSOR_W + 1) && Fits32(y) && Fits32(y + CURSOR_H + 1)
  }

  class Screen {
    const fb: array<word>    // the hardware framebuffer, `pitch` words a row
    const back: array<word>  // the back buffer
    const fbW: nat
    const fbH: nat
    const pitch: nat
    var lastX: int
    var lastY: int
    var sceneDirty: bool

    ghost predicate Valid()
      reads this
    {
      && fb != back && fb.Length == pitch * fbH && back.Length == fbW * fbH
      && fbW <= pitch && fbW < 0x8000_0000 && fbH < 0x8000_0000
    }

    // Screen pixel (x, y) as shown, and as drawn in the back buffer.
    ghost function Seen(x: nat, y: nat): word
      requires Valid() && x < fbW && y < fbH
      reads this, fb
    {
      At(fb[..], pitch, fbH, x, y)
    }

    ghost function Drawn(x: nat, y: nat): word
      requires Valid() && x < fbW && y < fbH
      reads this, back
    {
      At(back[..], fbW, fbH, x, y)
    }

    // The screen shows the back buffer with the cursor at (cx, cy).
    ghost predicate Shows(cx: int, cy: int)
      requires Valid()
      reads this, fb, back
    {
      forall x: nat, y: nat :: x < fbW && y < fbH ==> Seen(x, y) == Overlay(Drawn(x, y), x - cx, y - cy)
    }

    // fb_hw_putpixel
    method HwPutPixel(x: int, y: int, color: word)
      requires Valid()
      modifies fb
      ensures forall x': nat, y': nat :: x' < fbW && y' < fbH ==>
        Seen(x', y') == if x' == x && y' == y then color else At(old(fb[..]), pitch, fbH, x', y')
    {
      if x < 0 || y < 0 || x >= fbW || y >= fbH { return; }
      InImage(pitch, fbH, x, y);
      ghost var m := fb[..];
      fb[y * pitch + x] := color;
      assert fb[..] == Set(m, pitch, fbH, x, y, color);
      forall x': nat, y': nat | x' < fbW && y' < fbH
        ensures Seen(x', y') == if x' == x && y' == y then color else At(m, pitch, fbH, x', y')
      {
        SetAt(m, pitch, fbH, x, y, color, x', y');
      }
    }

    // One row of the cursor: columns before c, and the rows before r, are drawn.
    ghost predicate CursorPart(was: seq<word>, cx: int, cy: int, r: int, c: int)
      requires Valid() && |was| == pitch * fbH
      reads this, fb
    {
      forall x: nat, y: nat :: x < fbW && y < fbH ==>
        Seen(x, y) ==
          if y - cy < r || (y - cy == r && x - cx < c) then Overlay(At(was, pitch, fbH, x, y), x - cx, y - cy)
                      else At(was, pitch, fbH, x, y)
    }

    lemma CursorSkip(was: seq<word>, cx: int, cy: int, r: int, c: int, r': int, c': int)
      requires Valid() && |was| == pitch * fbH && CursorPart(was, cx, cy, r, c)
      requires (r' == r && c <= c'
        && forall k :: c <= k < c' ==> k < 0 || k >= CURSOR_W || !(0 <= r < CURSOR_H) || Sprite(k, r) == 0)
            || (r' == r + 1 && c >= CURSOR_W && c' <= 0)
      ensures CursorPart(was, cx, cy, r', c')
    {
    }

    // One pixel of draw_cursor.
    method CursorPixel(cx: int, cy: int, r: int, c: int, ghost was: seq<word>)
      requires Valid() && |was| == pitch * fbH && 0 <= r < CURSOR_H && 0 <= c < CURSOR_W
      requires CursorPart(was, cx, cy, r, c)
      modifies fb
      ensures CursorPart(was, cx, cy, r, c + 1)
    {
      ghost var m := fb[..];
      var v := Sprite(c, r);
      if v == 1 { HwPutPixel(cx + c, cy + r, WHITE); } else if v == 2 { HwPutPixel(cx + c, cy + r, DARK); }
      forall x: nat, y: nat | x < fbW && y < fbH
        ensures Seen(x, y) ==
          if x - cx == c && y - cy == r then Overlay(At(was, pitch, fbH, x, y), c, r) else At(m, pitch, fbH, x, y)
      {
      }
    }

    method DrawCursor(cx: int, cy: int)
      requires Valid()
      modifies fb
      ensures forall x: nat, y: nat :: x < fbW && y < fbH ==>
        Seen(x, y) == Overlay(At(old(fb[..]), pitch, fbH, x, y), x - cx, y - cy)
    {
      ghost var was := fb[..];
      var r := 0;
      while r < CURSOR_H
        invariant 0 <= r <= CURSOR_H && CursorPart(was, cx, cy, r, 0)
      {
        var c := 0;
        while c < CURSOR_W
          invariant 0 <= c <= CURSOR_W && CursorPart(was, cx, cy, r, c)
        {
          CursorPixel(cx, cy, r, c, was);
          c := c + 1;
        }
        CursorSkip(was, cx, cy, r, c, r + 1, 0);
        r := r + 1;
      }
    }

    // Pixels of rectangle (ax, ay, aw, ...) before column x1 of row y1 come from the back buffer.
    ghost predicate CopiedTo(was: seq<word>, ax: int, ay: int, aw: int, y1: int, x1: int)
      requires Valid() && |was| == pitch * fbH
      reads this, fb, back
    {
      forall x: nat, y: nat :: x < fbW && y < fbH ==>
        Seen(x, y) == if ax <= x < ax + aw && ay <= y && (y < y1 || (y == y1 && x < x1)) then Drawn(x, y)
                      else At(was, pitch, fbH, x, y)
    }

    // One memcpy of a row of pixels from the back buffer to the hardware framebuffer.
    method CopySpan(ax: nat, ay: nat, aw: nat, y: nat, ghost was: seq<word>)
      requires Valid() && |was| == pitch * fbH && ay <= y < fbH && ax + aw <= fbW
      requires CopiedTo(was, ax, ay, aw, y, ax)
      modifies fb
      ensures CopiedTo(was, ax, ay, aw, y + 1, ax)
    {
      var i := 0;
      while i < aw
        invariant i <= aw && CopiedTo(was, ax, ay, aw, y, ax + i)
      {
        InImage(pitch, fbH, ax + i, y);
        InImage(fbW, fbH, ax + i, y);
        ghost var m := fb[..];
        fb[y * pitch + (ax + i)] := back[y * fbW + (ax + i)];
        assert fb[..] == Set(m, pitch, fbH, ax + i, y, Drawn(ax + i, y));
        forall x': nat, y': nat | x' < fbW && y' < fbH
          ensures Seen(x', y') == if x' == ax + i && y' == y then Drawn(x', y') else At(m, pitch, fbH, x', y')
        {
          SetAt(m, pitch, fbH, ax + i, y, Drawn(ax + i, y), x', y');
        }
        i := i + 1;
      }
    }

    // fb_present
    method Present()
      requires Valid()
      modifies fb
      ensures forall x: nat, y: nat :: x < fbW && y < fbH ==> Seen(x, y) == Drawn(x, y)
    {
      ghost var was := fb[..];
      var y := 0;
      while y < fbH
        invariant y <= fbH && CopiedTo(was, 0, 0, fbW, y, 0)
      {
        CopySpan(0, 0, fbW, y, was);
        y := y + 1;
      }
    }

    // fb_present_rect
    method PresentRect(x: int, y: int, w: int, h: int)
      requires Valid() && Spans32(x, w) && Spans32(y, h)
      modifies fb
      ensures var ((x', w'), (y', h')) := (Clip(x, w, fbW), Clip(y, h, fbH));
        forall p: nat, q: nat :: p < fbW && q < fbH ==>
          Seen(p, q) == if w' > 0 && h' > 0 && Within(p, x', w') && Within(q, y', h') then Drawn(p, q)
                        else At(old(fb[..]), pitch, fbH, p, q)
    {
      var (x', w') := Clip(x, w, fbW);
      var (y', h') := Clip(y, h, fbH);
      if w' <= 0 || h' <= 0 { return; }
      ClipInside(x, w, fbW);
      ClipInside(y, h, fbH);
      ghost var was := fb[..];
      var j := 0;
      while j < h'
        invariant 0 <= j <= h' && CopiedTo(was, x', y', w', y' + j, x')
      {
        CopySpan(x', y', w', y' + j, was);
        j := j + 1;
      }
    }

    // The repaint at the end of one iteration of desktop_run. `redraw` says that something in this
    // iteration set scene_dirty, `scene` is what the recomposition draws, (mx, my) the mouse.
    method Iterate(redraw: bool, scene: seq<word>, mx: int, my: int)
      requires Valid() && |scene| == fbW * fbH
      requires OnDesk(lastX, lastY)
      requires sceneDirty || Shows(lastX, lastY)
      modifies this, fb, back
      ensures Valid() && Shows(mx, my) && !sceneDirty && lastX == mx && lastY == my
      ensures back[..] == if redraw || old(sceneDirty) then scene else old(back[..])
    {
      var cursorMoved := mx != lastX || my != lastY;
      if redraw { sceneDirty := true; }
      if sceneDirty {
        Recompose(scene);
        Present();
        DrawCursor(mx, my);
        sceneDirty := false;
      } else if cursorMoved {
        Erase();
        DrawCursor(mx, my);
      }
      lastX, lastY := mx, my;
    }

    // The drawing of the whole scene into the back buffer
    method Recompose(scene: seq<word>)
      requires Valid() && |scene| == fbW * fbH
      modifies back
      ensures back[..] == scene
    {
      forall k | 0 <= k < back.Length { back[k] := scene[k]; }
    }

    // The first half of the cheap branch: the old cursor disappears, however it was clipped.
    method Erase()
      requires Valid() && Shows(lastX, lastY)
      requires OnDesk(lastX, lastY)
      modifies fb
      ensures forall x: nat, y: nat :: x < fbW && y < fbH ==> Seen(x, y) == Drawn(x, y)
    {
      ghost var was := fb[..];
      assert forall x: nat, y: nat :: x < fbW && y < fbH ==> Seen(x, y) == Overlay(Drawn(x, y), x - lastX, y - lastY);
      PresentRect(lastX, lastY, CURSOR_W + 1, CURSOR_H + 1);
      forall x: nat, y: nat | x < fbW && y < fbH
        ensures Seen(x, y) == Drawn(x, y)
      {
        if Within(x, lastX, CURSOR_W + 1) && Within(y, lastY, CURSOR_H + 1) {
          ClipCovers(lastX, CURSOR_W + 1, fbW, x);
          ClipCovers(lastY, CURSOR_H + 1, fbH, y);
        }
      }
    }

    // The event loop of desktop_run: scene_dirty starts out set and every iteration ends with the
    // screen showing exactly what a full repaint would.
    method DesktopRun(frames: seq<Frame>, mx: int, my: int)
      requires Valid() && OnDesk(mx, my)
      requires forall f :: f in frames ==> |f.scene| == fbW * fbH && OnDesk(f.mx, f.my)
      modifies this, fb, back
      ensures Valid()
      ensures frames != [] ==> Shows(frames[|frames| - 1].mx, frames[|frames| - 1].my) && !sceneDirty
    {
      lastX, lastY, sceneDirty := mx, my, true;
      var i := 0;
      while i < |frames|
        invariant i <= |frames| && Valid() && OnDesk(lastX, lastY) && sceneDirty == (i == 0)
        invariant i > 0 ==> Shows(lastX, lastY) && lastX == frames[i - 1].mx && lastY == frames[i - 1].my
      {
        Iterate(frames[i].redraw, frames[i].scene, frames[i].mx, frames[i].my);
        i := i + 1;
      }
    }
  }
}
