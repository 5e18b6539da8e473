// Pixels and their addresses, as the drawing code of kernel/drivers/console.c computes them.
module Image {
  import opened Memory

  // ---- Colours ----

  datatype Rgb = Rgb(r: int, g: int, b: int) {
    function Plus(c: Rgb): Rgb { Rgb(r + c.r, g + c.g, b + c.b) }
    function Minus(c: Rgb): Rgb { Rgb(r - c.r, g - c.g, b - c.b) }
  }

  const BLACK: Rgb := Rgb(0, 0, 0)

  // (c >> 16) & 255, (c >> 8) & 255, c & 255
  function Unpack(c: word): (p: Rgb)
    ensures 0 <= p.r < 256 && 0 <= p.g < 256 && 0 <= p.b < 256
  {
    Rgb(c / 0x1_0000 % 0x100, c / 0x100 % 0x100, c % 0x100)
  }

  // (r << 16) | (g << 8) | b of three bytes
  function Pack(p: Rgb): word
    requires 0 <= p.r < 256 && 0 <= p.g < 256 && 0 <= p.b < 256
  {
    p.r * 0x1_0000 + p.g * 0x100 + p.b
  }

  // ---- Pixels: h rows of w words each, row by row ----

  function At(img: seq<word>, w: nat, h: nat, x: nat, y: nat): word
    requires |img| == w * h && x < w && y < h
  {
    InImage(w, h, x, y);
    img[y * w + x]
  }

  lemma InImage(w: nat, h: nat, x: nat, y: nat)
    requires x < w && y < h
    ensures 0 <= y * w <= y * w + x < y * w + w <= w * h
  {
    assert (y + 1) * w <= h * w;
  }

  // Distinct pixels have distinct indices.
  lemma IndexInjective(w: nat, x: nat, y: nat, x': nat, y': nat)
    requires x < w && x' < w && y * w + x == y' * w + x'
    ensures x == x' && y == y'
  {
    assert y + 1 <= y' ==> (y + 1) * w <= y' * w;
    assert y' + 1 <= y ==> (y' + 1) * w <= y * w;
  }

  // A rectangle of an image.
  datatype Rect = Rect(x: nat, y: nat, w: nat, h: nat) {
    predicate In(w': nat, h': nat) { x + w <= w' && y + h <= h' }
    predicate Has(x': nat, y': nat) { x <= x' < x + w && y <= y' < y + h }
  }

  // One pixel replaced.
  function Set(img: seq<word>, w: nat, h: nat, x: nat, y: nat, v: word): (s: seq<word>)
    requires |img| == w * h && x < w && y < h
    ensures |s| == |img|
  {
    InImage(w, h, x, y);
    img[y * w + x := v]
  }

  lemma SetAt(img: seq<word>, w: nat, h: nat, x: nat, y: nat, v: word, x': nat, y': nat)
    requires |img| == w * h && x < w && y < h && x' < w && y' < h
    ensures At(Set(img, w, h, x, y, v), w, h, x', y') == if x' == x && y' == y then v else At(img, w, h, x', y')
  {
    InImage(w, h, x', y');
    if y' * w + x' == y * w + x { IndexInjective(w, x, y, x', y'); }
  }
}
