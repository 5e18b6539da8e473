// The clipping code that fb_blur_region and fb_present_rect of kernel/drivers/console.c begin with.
module Clipping {
  // (uint32_t)v
  function U32(v: int): nat { v % 0x1_0000_0000 }

  // One axis: origin and extent of what is left of x..x + w on a screen of this size.
  function Clip(x: int, w: int, limit: nat): (int, int) {
    var (x1, w1) := if x < 0 then (0, w + x) else (x, w);
    (x1, if U32(x1 + w1) > limit then limit - x1 else w1)
  }

  predicate Within(p: int, x: int, w: int) { x <= p < x + w }

  predicate Fits32(v: int) { -0x8000_0000 <= v < 0x8000_0000 }

  // int arithmetic on this span does not overflow.
  predicate Spans32(x: int, w: int) { Fits32(x) && Fits32(w) && Fits32(x + w) }

  // Whatever the rectangle, what is left lies on the screen.
  lemma ClipInside(x: int, w: int, limit: nat)
    requires Spans32(x, w) && limit < 0x8000_0000
    ensures var (x', w') := Clip(x, w, limit); w' > 0 ==> 0 <= x' && x' + w' <= limit
  {
    var (x1, w1) := if x < 0 then (0, w + x) else (x, w);
    if x1 + w1 < 0 { assert U32(x1 + w1) == x1 + w1 + 0x1_0000_0000; }
  }

  // Every pixel of the rectangle that is on the screen survives clipping.
  lemma ClipCovers(x: int, w: int, limit: nat, p: int)
    requires Spans32(x, w) && limit < 0x8000_0000
    requires Within(p, x, w) && 0 <= p < limit
    ensures var (x', w') := Clip(x, w, limit); 0 <= x' && x' + w' <= limit && Within(p, x', w')
  {
  }

  // What is left is exactly the visible part unless the rectangle ends strictly before the
  // origin: then the unsigned comparison keeps the full extent.
  lemma ClipExactIff(x: int, w: int, limit: nat)
    requires Spans32(x, w) && 0 <= w && 0 < limit < 0x8000_0000
    ensures var (x', w') := Clip(x, w, limit);
      (forall p :: Within(p, x', w') <==> Within(p, x, w) && 0 <= p < limit) <==> x + w >= 0
  {
    var (x', w') := Clip(x, w, limit);
    if x + w < 0 { assert Within(0, x', w') && !Within(0, x, w); }
  }
}
