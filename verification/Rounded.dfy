// Rounded rectangles of kernel/drivers/console.c: the integer square root behind the corners,
// the inset of each scan line, and the alpha blend over the resulting shape.
module Rounded {
  import opened Memory
  import opened Image

  // ---- isqrt_i ----

  // The floor of the square root.
  function FloorSqrt(n: nat): (x: nat)
    ensures x * x <= n < (x + 1) * (x + 1)
  {
    if n == 0 then 0
    else
      var p := FloorSqrt(n - 1);
      if (p + 1) * (p + 1) <= n then p + 1 else p
  }

  lemma SquareMonotone(a: nat, b: nat)
    requires a <= b
    ensures a * a <= b * b
  {
    var d := b - a;
    assert b * b == a * a + 2 * (a * d) + d * d;
  }

  lemma {:induction false} FloorSqrtIs(n: nat, x: nat)
    requires x * x <= n < (x + 1) * (x + 1)
    ensures x == FloorSqrt(n)
  {
    var y := FloorSqrt(n);
    if x < y { SquareMonotone(x + 1, y); }
    if y < x { SquareMonotone(y + 1, x); }
  }

  lemma {:induction false} FloorSqrtMonotone(m: nat, n: nat)
    requires m <= n
    ensures FloorSqrt(m) <= FloorSqrt(n)
  {
    var x, y := FloorSqrt(m), FloorSqrt(n);
    if y < x { SquareMonotone(y + 1, x); }
  }

  // The square of a sum is at least four times the product.
  lemma MeansInequality(a: int, b: int)
    ensures 4 * (a * b) <= (a + b) * (a + b)
  {
    var d := a - b;
    assert d * d >= 0;
    assert (a + b) * (a + b) == d * d + 4 * (a * b);
  }

  // One step of the iteration, x = (x + n / x) / 2
  function Newton(n: nat, x: nat): nat
    requires x > 0
  {
    (x + n / x) / 2
  }

  // A Newton step from x never falls below the root.
  lemma NewtonStaysAbove(n: nat, x: nat)
    requires x > 0
    ensures n < (Newton(n, x) + 1) * (Newton(n, x) + 1)
  {
    var q := n / x;
    var z := (x + q) / 2 + 1;
    assert n < x * (q + 1);
    MeansInequality(x, q + 1);
    SquareMonotone(x + (q + 1), 2 * z);
    assert (2 * z) * (2 * z) == 4 * (z * z);
  }

  // ... and a step that does not go down starts at or below it.
  lemma NewtonEnds(n: nat, x: nat)
    requires x > 0 && Newton(n, x) >= x
    ensures x * x <= n
  {
    var d := n / x - x;
    assert x * (n / x) <= n && x * (n / x) == x * x + x * d;
  }

  lemma NewtonStarts(n: nat)
    requires n > 0
    ensures (n + 1) / 2 == Newton(n, n) && n < (n + 1) * (n + 1)
  {
    assert n / n == 1;
    assert (n + 1) * (n + 1) == n * n + 2 * n + 1;
  }

  // Arguments for which x + 1 does not overflow an int.
  method Isqrt(n: int) returns (x: int)
    requires n < 0x7FFF_FFFF
    ensures x == if n < 0 then 0 else FloorSqrt(n)
  {
    if n < 0 { return 0; }
    x := n;
    var y := (x + 1) / 2;
    if n > 0 { NewtonStarts(n); }
    while y < x
      invariant 0 <= x <= n && 0 <= y && n < (x + 1) * (x + 1)
      invariant x > 0 ==> y == Newton(n, x)
      decreases x
    {
      NewtonStaysAbove(n, x);
      x := y;
      assert x > 0;
      y := Newton(n, x);
    }
    if x > 0 { NewtonEnds(n, x); }
    FloorSqrtIs(n, x);
  }

  // ---- round_inset ----

  // How far row j of a shape of height h and corner radius r is set in from the sides.
  function RoundInset(j: int, h: int, r: int): (i: int)
    requires 0 <= r
    ensures 0 <= i <= r
  {
    var off := if j < r then r - j else if j >= h - r then j - (h - r) + 1 else -1;
    if 0 < off <= r then
      SquareMonotone(off, r);
      var n: nat := r * r - off * off;
      FloorSqrtMonotone(n, r * r);
      FloorSqrtIs(r * r, r);
      r - FloorSqrt(n)
    else 0
  }

  // The shape is symmetric top to bottom.
  lemma InsetSymmetric(j: int, h: int, r: int)
    requires 0 <= j < h && 0 <= 2 * r <= h
    ensures RoundInset(h - 1 - j, h, r) == RoundInset(j, h, r)
  {
  }

  // Towards the middle rows only get wider, and from the corner radius on they are full.
  lemma InsetShrinks(j: int, j': int, h: int, r: int)
    requires 0 <= j <= j' && 2 * j' < h && 0 <= 2 * r <= h
    ensures RoundInset(j', h, r) <= RoundInset(j, h, r)
    ensures r <= j' ==> RoundInset(j', h, r) == 0
  {
    if j' < r {
      SquareMonotone(r - j', r - j);
      SquareMonotone(r - j, r);
      FloorSqrtMonotone(r * r - (r - j) * (r - j), r * r - (r - j') * (r - j'));
    }
  }

  // The corner is a circle: row j keeps exactly the columns whose distance to the centre of the
  // corner is at most r.
  lemma InsetIsCircle(j: nat, h: int, r: nat, i: nat)
    requires j < r && 2 * r <= h && i <= r
    ensures i >= RoundInset(j, h, r) <==> (r - i) * (r - i) + (r - j) * (r - j) <= r * r
  {
    var dy := r - j;
    SquareMonotone(dy, r);
    var n: nat := r * r - dy * dy;
    var s := FloorSqrt(n);
    if r - i <= s { SquareMonotone(r - i, s); } else { SquareMonotone(s + 1, r - i); }
  }

  method ComputeInset(j: int, h: int, r: int) returns (inset: int)
    requires 0 <= r < 46341 && 0 <= j < h < 0x4000_0000
    ensures inset == RoundInset(j, h, r)
  {
    var off := -1;
    if j < r { off := r - j; } else if j >= h - r { off := j - (h - r) + 1; }
    if off > 0 && r > 0 {
      RootArgument(off, r);
      var root := Isqrt(r * r - off * off);
      return r - root;
    }
    return 0;
  }

  lemma RootArgument(off: int, r: int)
    requires 0 < off <= r < 46341
    ensures 0 <= r * r - off * off < 0x7FFF_FFFF
  {
    SquareMonotone(r, 46340);
    SquareMonotone(off, r);
    assert off * off > 0;
  }

  // ---- blend_px ----

  function Mix(d: int, s: int, a: int): (m: int)
    requires 0 <= d < 256 && 0 <= s < 256 && 0 <= a <= 255
    ensures 0 <= m < 256
    ensures (d <= s ==> d <= m <= s) && (s <= d ==> s <= m <= d)
  {
    MixBetween(d, s, a);
    (s * a + d * (255 - a)) / 255
  }

  lemma ProductSign(x: int, y: int)
    requires 0 <= x && 0 <= y
    ensures 0 <= x * y
  {
  }

  lemma MixSplit(d: int, s: int, a: int)
    ensures s * a + d * (255 - a) == 255 * d + (s - d) * a
    ensures s * a + d * (255 - a) == 255 * s - (s - d) * (255 - a)
    ensures s * a + d * (255 - a) == 255 * d - (d - s) * a
    ensures s * a + d * (255 - a) == 255 * s + (d - s) * (255 - a)
  {
    assert (s - d) * a == s * a - d * a && (d - s) * a == d * a - s * a;
    assert (s - d) * (255 - a) == 255 * s - 255 * d - (s - d) * a;
    assert (d - s) * (255 - a) == 255 * d - 255 * s - (d - s) * a;
  }

  lemma QuotientBetween(m: int, lo: int, hi: int)
    requires 255 * lo <= m <= 255 * hi
    ensures lo <= m / 255 <= hi
  {
  }

  lemma MixBetween(d: int, s: int, a: int)
    requires 0 <= d < 256 && 0 <= s < 256 && 0 <= a <= 255
    ensures var m := (s * a + d * (255 - a)) / 255;
      (d <= s ==> d <= m <= s) && (s <= d ==> s <= m <= d)
  {
    var m := s * a + d * (255 - a);
    MixSplit(d, s, a);
    if d <= s {
      ProductSign(s - d, a);
      ProductSign(s - d, 255 - a);
      QuotientBetween(m, d, s);
    }
    if s <= d {
      ProductSign(d - s, a);
      ProductSign(d - s, 255 - a);
      QuotientBetween(m, s, d);
    }
  }

  function BlendPx(dst: word, src: word, a: int): word
    requires 0 <= a <= 255
  {
    var (p, q) := (Unpack(dst), Unpack(src));
    Pack(Rgb(Mix(p.r, q.r, a), Mix(p.g, q.g, a), Mix(p.b, q.b, a)))
  }

  lemma LowByte(hi: int, lo: int)
    requires 0 <= hi && 0 <= lo < 0x100
    ensures (hi * 0x100 + lo) % 0x100 == lo && (hi * 0x100 + lo) / 0x100 == hi
  {
  }

  lemma UnpackPack(p: Rgb)
    requires 0 <= p.r < 256 && 0 <= p.g < 256 && 0 <= p.b < 256
    ensures Unpack(Pack(p)) == p
  {
    var c := Pack(p);
    var rg := p.r * 0x100 + p.g;
    LowByte(p.r, p.g);
    LowByte(rg, p.b);
    assert c == rg * 0x100 + p.b;
    assert c / 0x1_0000 == p.r;
  }

  lemma MixEnds(d: int, s: int)
    requires 0 <= d < 256 && 0 <= s < 256
    ensures Mix(d, s, 0) == d && Mix(d, s, 255) == s
  {
  }

  // Alpha 0 keeps the background and alpha 255 gives the foreground, channel by channel.
  lemma BlendEnds(dst: word, src: word)
    ensures Unpack(BlendPx(dst, src, 0)) == Unpack(dst) && Unpack(BlendPx(dst, src, 255)) == Unpack(src)
  {
    var p, q := Unpack(dst), Unpack(src);
    UnpackPack(p);
    UnpackPack(q);
    MixEnds(p.r, q.r);
    MixEnds(p.g, q.g);
    MixEnds(p.b, q.b);
  }

  // ---- fb_blend_round ----

  function Clamp(v: int, lo: int, hi: int): int {
    if v < lo then lo else if v > hi then hi else v
  }

  // C's w / 2 truncates.
  function Half(w: int): int { if w >= 0 then w / 2 else -((-w) / 2) }

  function CornerRadius(w: int, h: int, radius: int): int {
    var r0 := if radius < 0 then 0 else radius;
    var r1 := if r0 > Half(w) then Half(w) else r0;
    if r1 > Half(h) then Half(h) else r1
  }

  // Screen pixel (x', y') belongs to the rounded rectangle.
  predicate InShape(x: int, y: int, w: int, h: int, r: int, x': int, y': int)
    requires 0 <= r
  {
    y <= y' < y + h && x + RoundInset(y' - y, h, r) <= x' < x + w - RoundInset(y' - y, h, r)
  }

  // The pixels the loops have blended when they are about to visit column xx of row j.
  predicate Visited(x: int, y: int, w: int, h: int, r: int, j: int, xx: int, x': int, y': int)
    requires 0 <= r
  {
    InShape(x, y, w, h, r, x', y') && (y' < y + j || (y' == y + j && x' < xx))
  }

  // Pixel (x', y') once the loops have got to column xx of row j, given its old value v.
  function Shown(fbw: nat, fbh: nat, x: int, y: int, w: int, h: int, r: int, color: word, a: int,
                 j: int, xx: int, x': nat, y': nat, v: word): word
    requires 0 <= r && 0 <= a <= 255
  {
    if x' < fbw && y' < fbh && Visited(x, y, w, h, r, j, xx, x', y') then BlendPx(v, color, a) else v
  }

  ghost predicate Blended(m: seq<word>, was: seq<word>, stride: nat, rows: nat, fbw: nat, fbh: nat,
                          x: int, y: int, w: int, h: int, r: int, color: word, a: int, j: int, xx: int)
    requires |was| == stride * rows && fbw <= stride && fbh <= rows && 0 <= r && 0 <= a <= 255
  {
    |m| == |was| &&
    forall x': nat, y': nat {:trigger At(m, stride, rows, x', y')} :: x' < stride && y' < rows ==>
      At(m, stride, rows, x', y')
        == Shown(fbw, fbh, x, y, w, h, r, color, a, j, xx, x', y', At(was, stride, rows, x', y'))
  }

  // Visiting pixel (xx, y + j) changes the expected value of that pixel only.
  lemma ShownStep(fbw: nat, fbh: nat, x: int, y: int, w: int, h: int, r: int, color: word, a: int,
                  j: int, xx: int, x': nat, y': nat, v: word)
    requires 0 <= r && 0 <= a <= 255 && 0 <= xx < fbw && 0 <= y + j < fbh && 0 <= j < h
    requires x + RoundInset(j, h, r) <= xx < x + w - RoundInset(j, h, r)
    ensures Shown(fbw, fbh, x, y, w, h, r, color, a, j, xx + 1, x', y', v)
         == if x' == xx && y' == y + j then BlendPx(v, color, a)
            else Shown(fbw, fbh, x, y, w, h, r, color, a, j, xx, x', y', v)
    ensures x' == xx && y' == y + j ==> Shown(fbw, fbh, x, y, w, h, r, color, a, j, xx, x', y', v) == v
  {
  }

  lemma BlendStep(m: seq<word>, was: seq<word>, stride: nat, rows: nat, fbw: nat, fbh: nat,
                  x: int, y: int, w: int, h: int, r: int, color: word, a: int, j: int, xx: int)
    requires |was| == stride * rows && fbw <= stride && fbh <= rows && 0 <= r && 0 <= a <= 255
    requires Blended(m, was, stride, rows, fbw, fbh, x, y, w, h, r, color, a, j, xx)
    requires 0 <= xx < fbw && 0 <= y + j < fbh && 0 <= j < h
    requires x + RoundInset(j, h, r) <= xx < x + w - RoundInset(j, h, r)
    ensures Blended(Set(m, stride, rows, xx, y + j, BlendPx(At(m, stride, rows, xx, y + j), color, a)),
                    was, stride, rows, fbw, fbh, x, y, w, h, r, color, a, j, xx + 1)
  {
    var v := BlendPx(At(m, stride, rows, xx, y + j), color, a);
    var n := Set(m, stride, rows, xx, y + j, v);
    forall x': nat, y': nat | x' < stride && y' < rows
      ensures At(n, stride, rows, x', y')
           == Shown(fbw, fbh, x, y, w, h, r, color, a, j, xx + 1, x', y', At(was, stride, rows, x', y'))
    {
      SetAt(m, stride, rows, xx, y + j, v, x', y');
      ShownStep(fbw, fbh, x, y, w, h, r, color, a, j, xx, x', y', At(was, stride, rows, x', y'));
    }
  }

  // Moving on past columns and rows that are off the screen or outside the shape.
  lemma BlendSkip(m: seq<word>, was: seq<word>, stride: nat, rows: nat, fbw: nat, fbh: nat,
                  x: int, y: int, w: int, h: int, r: int, color: word, a: int, j: int, xx: int, j': int, xx': int)
    requires |was| == stride * rows && fbw <= stride && fbh <= rows && 0 <= r && 0 <= a <= 255
    requires Blended(m, was, stride, rows, fbw, fbh, x, y, w, h, r, color, a, j, xx)
    requires forall x': nat, y': nat :: x' < fbw && y' < fbh ==>
      Visited(x, y, w, h, r, j, xx, x', y') == Visited(x, y, w, h, r, j', xx', x', y')
    ensures Blended(m, was, stride, rows, fbw, fbh, x, y, w, h, r, color, a, j', xx')
  {
  }

  // One scan line of fb_blend_round.
  method BlendLine(buf: array<word>, stride: nat, rows: nat, fbw: nat, fbh: nat,
                   x: int, y: int, w: int, h: int, r: int, color: word, a: int, j: int, ghost was: seq<word>)
    requires buf.Length == |was| == stride * rows && fbw <= stride && fbh <= rows
    requires 0 <= r < 46341 && 0 <= a <= 255 && 0 <= j < h < 0x4000_0000 && 0 <= y + j < fbh
    requires Blended(buf[..], was, stride, rows, fbw, fbh, x, y, w, h, r, color, a, j, x)
    modifies buf
    ensures Blended(buf[..], was, stride, rows, fbw, fbh, x, y, w, h, r, color, a, j + 1, x)
  {
    var inset := ComputeInset(j, h, r);
    var xx := x + inset;
    BlendSkip(buf[..], was, stride, rows, fbw, fbh, x, y, w, h, r, color, a, j, x, j, xx);
    while xx < x + w - inset
      invariant xx >= x + inset
      invariant Blended(buf[..], was, stride, rows, fbw, fbh, x, y, w, h, r, color, a, j, xx)
      decreases x + w - inset - xx
    {
      if xx < 0 || xx >= fbw {
        BlendSkip(buf[..], was, stride, rows, fbw, fbh, x, y, w, h, r, color, a, j, xx, j, xx + 1);
      } else {
        ghost var m := buf[..];
        BlendStep(m, was, stride, rows, fbw, fbh, x, y, w, h, r, color, a, j, xx);
        InImage(stride, rows, xx, y + j);
        var k := (y + j) * stride + xx;
        buf[k] := BlendPx(buf[k], color, a);
        assert buf[..] == Set(m, stride, rows, xx, y + j, BlendPx(At(m, stride, rows, xx, y + j), color, a));
      }
      xx := xx + 1;
    }
    BlendSkip(buf[..], was, stride, rows, fbw, fbh, x, y, w, h, r, color, a, j, xx, j + 1, x);
  }

  // fb_blend_round: every on-screen pixel of the rounded shape is blended exactly once and no
  // other pixel changes.
  method BlendRound(buf: array<word>, stride: nat, rows: nat, fbw: nat, fbh: nat,
                    x: int, y: int, w: int, h: int, radius: int, color: word, alpha: int)
    requires buf.Length == stride * rows && fbw <= stride && fbh <= rows
    requires CornerRadius(w, h, radius) < 46341 && h < 0x4000_0000
    modifies buf
    ensures w < 0 || h < 0 ==> buf[..] == old(buf[..])
    ensures w >= 0 && h >= 0 ==>
      forall x': nat, y': nat {:trigger At(buf[..], stride, rows, x', y')} :: x' < stride && y' < rows ==>
      At(buf[..], stride, rows, x', y') ==
        if x' < fbw && y' < fbh && InShape(x, y, w, h, CornerRadius(w, h, radius), x', y')
        then BlendPx(At(old(buf[..]), stride, rows, x', y'), color, Clamp(alpha, 0, 255))
        else At(old(buf[..]), stride, rows, x', y')
  {
    var a := Clamp(alpha, 0, 255);
    var r := CornerRadius(w, h, radius);
    if w < 0 || h < 0 { return; } // no row, or no column in any row
    ghost var was := buf[..];
    var j := 0;
    while j < h
      invariant 0 <= j <= h
      invariant Blended(buf[..], was, stride, rows, fbw, fbh, x, y, w, h, r, color, a, j, x)
    {
      if 0 <= y + j < fbh {
        BlendLine(buf, stride, rows, fbw, fbh, x, y, w, h, r, color, a, j, was);
      } else {
        BlendSkip(buf[..], was, stride, rows, fbw, fbh, x, y, w, h, r, color, a, j, x, j + 1, x);
      }
      j := j + 1;
    }
  }
}
