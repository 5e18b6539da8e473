// The two box blurs of kernel/drivers/console.c: fb_blur_buffer, which slides a window of running
// sums along every row and column, and fb_blur_region, which adds up every window afresh.
module Blur {
  import opened Memory
  import opened Image
  import opened Clipping

  // ---- The reference: one pixel is the average of its window, cut off at the ends of the line ----

  function Lo(i: nat, r: nat): nat { if i < r then 0 else i - r }

  function Hi(i: nat, r: nat, n: nat): nat { if i + r + 1 < n then i + r + 1 else n }

  function Sum(line: seq<word>, lo: nat, hi: nat): (s: Rgb)
    requires lo <= hi <= |line|
    ensures 0 <= s.r <= 255 * (hi - lo) && 0 <= s.g <= 255 * (hi - lo) && 0 <= s.b <= 255 * (hi - lo)
  {
    if lo == hi then BLACK else Sum(line, lo, hi - 1).Plus(Unpack(line[hi - 1]))
  }

  lemma Quotient(s: int, n: int)
    requires 0 <= s <= 255 * n && n > 0
    ensures 0 <= s / n < 256
  {
  }

  function Mean(s: Rgb, n: nat): word
    requires n > 0 && 0 <= s.r <= 255 * n && 0 <= s.g <= 255 * n && 0 <= s.b <= 255 * n
  {
    Quotient(s.r, n);
    Quotient(s.g, n);
    Quotient(s.b, n);
    Pack(Rgb(s.r / n, s.g / n, s.b / n))
  }

  function Average(line: seq<word>, i: nat, r: nat): word
    requires i < |line|
  {
    var lo, hi := Lo(i, r), Hi(i, r, |line|);
    Mean(Sum(line, lo, hi), hi - lo)
  }

  function Averages(line: seq<word>, r: nat): (s: seq<word>)
    ensures |s| == |line|
  {
    seq(|line|, i requires 0 <= i < |line| => Average(line, i, r))
  }

  lemma SumFromLeft(line: seq<word>, lo: nat, hi: nat)
    requires lo < hi <= |line|
    ensures Sum(line, lo, hi) == Sum(line, lo + 1, hi).Plus(Unpack(line[lo]))
    decreases hi
  {
    if lo + 1 < hi { SumFromLeft(line, lo, hi - 1); }
  }

  // ---- Rectangles of an image and their blur ----

  // The rows of rectangle a, as an image of its own.
  function Cut(img: seq<word>, w: nat, h: nat, a: Rect): (rows: seq<seq<word>>)
    requires |img| == w * h && a.In(w, h)
    ensures |rows| == a.h && forall j :: 0 <= j < a.h ==> |rows[j]| == a.w
  {
    seq(a.h, j requires 0 <= j < a.h => Line(img, w, h, a, j))
  }

  function Line(img: seq<word>, w: nat, h: nat, a: Rect, j: nat): (s: seq<word>)
    requires |img| == w * h && a.In(w, h) && j < a.h
    ensures |s| == a.w
  {
    seq<word>(a.w, i requires 0 <= i < a.w => At(img, w, h, a.x + i, a.y + j))
  }

  function Col(rows: seq<seq<word>>, i: nat): (s: seq<word>)
    requires forall j :: 0 <= j < |rows| ==> i < |rows[j]|
    ensures |s| == |rows|
  {
    seq(|rows|, j requires 0 <= j < |rows| => rows[j][i])
  }

  function BlurRows(rows: seq<seq<word>>, r: nat): (s: seq<seq<word>>)
    ensures |s| == |rows| && forall j :: 0 <= j < |s| ==> |s[j]| == |rows[j]|
  {
    seq(|rows|, j requires 0 <= j < |rows| => Averages(rows[j], r))
  }

  function BlurColumns(rows: seq<seq<word>>, w: nat, r: nat): (s: seq<seq<word>>)
    requires forall j :: 0 <= j < |rows| ==> |rows[j]| == w
    ensures |s| == |rows| && forall j :: 0 <= j < |s| ==> |s[j]| == w
  {
    seq(|rows|, j requires 0 <= j < |rows| => seq(w, i requires 0 <= i < w => Average(Col(rows, i), j, r)))
  }

  lemma ColOfBlurred(rows: seq<seq<word>>, w: nat, r: nat, i: nat)
    requires i < w && forall j :: 0 <= j < |rows| ==> |rows[j]| == w
    ensures Col(BlurColumns(rows, w, r), i) == Averages(Col(rows, i), r)
  {
  }

  // The box blur of an image: every row averaged, then every column of the result.
  function BoxBlur(rows: seq<seq<word>>, w: nat, r: nat): (s: seq<seq<word>>)
    requires forall j :: 0 <= j < |rows| ==> |rows[j]| == w
    ensures |s| == |rows| && forall j :: 0 <= j < |s| ==> |s[j]| == w
  {
    BlurColumns(BlurRows(rows, r), w, r)
  }

  // The image with vals written over it, vals[k] at index off + k * stride.
  function Written(img: seq<word>, off: nat, stride: nat, vals: seq<word>): (s: seq<word>)
    ensures |s| == |img|
  {
    if vals == [] then img
    else
      var n := |vals| - 1;
      var s := Written(img, off, stride, vals[..n]);
      if 0 <= off + n * stride < |s| then s[off + n * stride := vals[n]] else s
  }

  lemma RowWritten(img: seq<word>, w: nat, h: nat, x: nat, y: nat, vals: seq<word>, x': nat, y': nat)
    requires |img| == w * h && y < h && x + |vals| <= w && x' < w && y' < h
    ensures At(Written(img, y * w + x, 1, vals), w, h, x', y')
         == if y' == y && x <= x' < x + |vals| then vals[x' - x] else At(img, w, h, x', y')
    decreases |vals|
  {
    InImage(w, h, x', y');
    if vals != [] {
      var n := |vals| - 1;
      InImage(w, h, x + n, y);
      RowWritten(img, w, h, x, y, vals[..n], x', y');
      if y' * w + x' == y * w + (x + n) { IndexInjective(w, x', y', x + n, y); }
    }
  }

  lemma ColumnWritten(img: seq<word>, w: nat, h: nat, x: nat, y: nat, vals: seq<word>, x': nat, y': nat)
    requires |img| == w * h && x < w && y + |vals| <= h && x' < w && y' < h
    ensures At(Written(img, y * w + x, w, vals), w, h, x', y')
         == if x' == x && y <= y' < y + |vals| then vals[y' - y] else At(img, w, h, x', y')
    decreases |vals|
  {
    InImage(w, h, x', y');
    if vals != [] {
      var n := |vals| - 1;
      InImage(w, h, x, y + n);
      assert (y + n) * w + x == y * w + x + n * w;
      ColumnWritten(img, w, h, x, y, vals[..n], x', y');
      if y' * w + x' == (y + n) * w + x { IndexInjective(w, x', y', x, y + n); }
    }
  }

  // ---- fb_blur_buffer ----

  // How the window of index i becomes the window of index i + 1: the pixel r to the left leaves
  // and the pixel r + 1 to the right enters, if they exist.
  lemma {:induction false} WindowAdvances(line: seq<word>, i: nat, r: nat)
    requires i < |line| && r > 0
    ensures var n := |line|;
      var s := Sum(line, Lo(i, r), Hi(i, r, n));
      var s1 := if i >= r then s.Minus(Unpack(line[i - r])) else s;
      var s2 := if i + r + 1 < n then s1.Plus(Unpack(line[i + r + 1])) else s1;
      Lo(i + 1, r) <= Hi(i + 1, r, n) && Sum(line, Lo(i + 1, r), Hi(i + 1, r, n)) == s2
  {
    var hi := Hi(i, r, |line|);
    if i >= r { SumFromLeft(line, i - r, hi); }
    if i + r + 1 < |line| { SumMore(line, Lo(i + 1, r), hi); }
  }

  lemma StrideFits(i: nat, n: nat, stride: nat)
    requires i < n
    ensures 0 <= i * stride <= (n - 1) * stride
  {
  }

  lemma {:induction false} WrittenStep(img: seq<word>, off: nat, stride: nat, vals: seq<word>, i: nat)
    requires i < |vals| && 0 <= off + i * stride < |img|
    ensures Written(img, off, stride, vals[..i + 1])
      == Written(img, off, stride, vals[..i])[off + i * stride := vals[i]]
  {
    assert vals[..i + 1][..i] == vals[..i];
  }

  // The running sums and count are those of the window of index i.
  ghost predicate IsWindow(line: seq<word>, i: nat, r: nat, acc: Rgb, cnt: int) {
    var lo, hi := Lo(i, r), Hi(i, r, |line|);
    lo <= hi <= |line| && cnt == hi - lo && acc == Sum(line, lo, hi)
  }

  // The update between two pixels of a line.
  method Advance(line: array<word>, lo: nat, n: nat, i: nat, r: nat, acc: Rgb, cnt: int) returns (acc': Rgb, cnt': int)
    requires r > 0 && i < n && lo + n <= line.Length && IsWindow(line[lo..lo + n], i, r, acc, cnt)
    ensures IsWindow(line[lo..lo + n], i + 1, r, acc', cnt')
  {
    acc', cnt' := acc, cnt;
    WindowAdvances(line[lo..lo + n], i, r);
    var l := i - r;
    if l >= 0 {
      acc' := acc'.Minus(Unpack(line[lo + l]));
      cnt' := cnt' - 1;
    }
    var rr := i + r + 1;
    if rr < n {
      acc' := acc'.Plus(Unpack(line[lo + rr]));
      cnt' := cnt' + 1;
    }
  }

  // One row or column. The n pixels of `line` are line[lo], line[lo + 1], ...; pixel i of the
  // result goes to dst[off + i * stride].
  method Slide(line: array<word>, lo: nat, n: nat, dst: array<word>, off: nat, stride: nat, r: nat)
    requires r > 0 && lo + n <= line.Length && line != dst
    requires n > 0 ==> 0 <= off + (n - 1) * stride < dst.Length
    modifies dst
    ensures dst[..] == Written(old(dst[..]), off, stride, Averages(line[lo..lo + n], r))
  {
    ghost var s := line[lo..lo + n];
    ghost var was := dst[..];
    ghost var avg := Averages(s, r);
    var acc, cnt := BLACK, 0;
    var k := 0;
    while k <= r && k < n
      invariant k <= Hi(0, r, n) && cnt == k && acc == Sum(s, 0, k)
    {
      acc := acc.Plus(Unpack(line[lo + k]));
      cnt := cnt + 1;
      k := k + 1;
    }
    var i := 0;
    while i < n
      invariant i <= n && IsWindow(s, i, r, acc, cnt)
      invariant dst[..] == Written(was, off, stride, avg[..i])
    {
      StrideFits(i, n, stride);
      WrittenStep(was, off, stride, avg, i);
      dst[off + i * stride] := Mean(acc, cnt);
      acc, cnt := Advance(line, lo, n, i, r, acc, cnt);
      i := i + 1;
    }
    assert avg[..n] == avg;
  }

  // In m the pixels of rectangle a in its first jEnd rows and iEnd columns are those of `rows`;
  // all other pixels are as in `was`.
  ghost predicate Pixels(m: seq<word>, was: seq<word>, w: nat, h: nat, a: Rect, rows: seq<seq<word>>, jEnd: nat,
                         iEnd: nat)
    requires |was| == w * h && a.In(w, h)
    requires |rows| == a.h && forall j :: 0 <= j < a.h ==> |rows[j]| == a.w
  {
    |m| == |was| &&
    forall x: nat, y: nat {:trigger At(m, w, h, x, y)} :: x < w && y < h ==>
      At(m, w, h, x, y) == Target(was, w, h, a, rows, jEnd, iEnd, x, y)
  }

  // Pixel (x, y) once j rows and i columns are done.
  function Target(was: seq<word>, w: nat, h: nat, a: Rect, rows: seq<seq<word>>, jEnd: nat, iEnd: nat, x: nat,
                  y: nat): word
    requires |was| == w * h && a.In(w, h)
    requires |rows| == a.h && forall j :: 0 <= j < a.h ==> |rows[j]| == a.w
    requires x < w && y < h
  {
    if a.Has(x, y) && y < a.y + jEnd && x < a.x + iEnd then rows[y - a.y][x - a.x] else At(was, w, h, x, y)
  }

  lemma {:induction false} RowDone(m: seq<word>, was: seq<word>, w: nat, h: nat, a: Rect, rows: seq<seq<word>>, j: nat,
                                   off: nat, r: seq<word>)
    requires |was| == w * h && a.In(w, h)
    requires |rows| == a.h && forall j :: 0 <= j < a.h ==> |rows[j]| == a.w
    requires j < a.h && Pixels(m, was, w, h, a, rows, j, a.w)
    requires off == (a.y + j) * w + a.x && r == Written(m, off, 1, rows[j])
    ensures Pixels(r, was, w, h, a, rows, j + 1, a.w)
  {
    forall x: nat, y: nat | x < w && y < h
      ensures At(r, w, h, x, y) == Target(was, w, h, a, rows, j + 1, a.w, x, y)
    {
      RowWritten(m, w, h, a.x, a.y + j, rows[j], x, y);
      assert At(m, w, h, x, y) == Target(was, w, h, a, rows, j, a.w, x, y);
    }
  }

  lemma ColumnDoneAt(m: seq<word>, was: seq<word>, w: nat, h: nat, a: Rect, rows: seq<seq<word>>, i: nat, x: nat,
                     y: nat)
    requires |was| == w * h && a.In(w, h)
    requires |rows| == a.h && forall j :: 0 <= j < a.h ==> |rows[j]| == a.w
    requires i < a.w && |m| == |was| && x < w && y < h
    requires At(m, w, h, x, y) == Target(was, w, h, a, rows, a.h, i, x, y)
    ensures At(Written(m, a.y * w + (a.x + i), w, Col(rows, i)), w, h, x, y)
      == Target(was, w, h, a, rows, a.h, i + 1, x, y)
  {
    ColumnWritten(m, w, h, a.x + i, a.y, Col(rows, i), x, y);
  }

  lemma {:induction false} ColumnDone(m: seq<word>, was: seq<word>, w: nat, h: nat, a: Rect, rows: seq<seq<word>>,
                                      i: nat, off: nat, r: seq<word>)
    requires |was| == w * h && a.In(w, h)
    requires |rows| == a.h && forall j :: 0 <= j < a.h ==> |rows[j]| == a.w
    requires i < a.w && Pixels(m, was, w, h, a, rows, a.h, i)
    requires off == a.y * w + (a.x + i) && r == Written(m, off, w, Col(rows, i))
    ensures Pixels(r, was, w, h, a, rows, a.h, i + 1)
  {
    forall x: nat, y: nat | x < w && y < h
      ensures At(r, w, h, x, y) == Target(was, w, h, a, rows, a.h, i + 1, x, y)
    {
      assert At(m, w, h, x, y) == Target(was, w, h, a, rows, a.h, i, x, y);
      ColumnDoneAt(m, was, w, h, a, rows, i, x, y);
    }
  }

  // A row of a rectangle is a slice of the buffer.
  lemma LineIsSlice(img: seq<word>, w: nat, h: nat, a: Rect, j: nat)
    requires |img| == w * h && a.In(w, h) && j < a.h
    ensures 0 <= (a.y + j) * w + a.x && (a.y + j) * w + a.x + a.w <= |img|
    ensures img[(a.y + j) * w + a.x..(a.y + j) * w + a.x + a.w] == Line(img, w, h, a, j)
  {
    LineIsSliceAt(img, w, h, a, a.y + j, Line(img, w, h, a, j));
  }

  lemma LineIsSliceAt(img: seq<word>, w: nat, h: nat, a: Rect, y: nat, line: seq<word>)
    requires |img| == w * h && a.In(w, h) && y < h && |line| == a.w
    requires forall i :: 0 <= i < a.w ==> line[i] == At(img, w, h, a.x + i, y)
    ensures 0 <= y * w + a.x && y * w + a.x + a.w <= |img|
    ensures img[y * w + a.x..y * w + a.x + a.w] == line
  {
    if a.w > 0 { InImage(w, h, a.x, y); }
    assert y * w + w <= w * h by { RowsFit(w, h, y); }
    SliceIs(img, y * w + a.x, line);
  }

  lemma RowsFit(w: nat, h: nat, y: nat)
    requires y < h
    ensures 0 <= y * w && y * w + w <= w * h
  {
    assert (y + 1) * w <= h * w;
  }

  lemma SliceIs(img: seq<word>, off: nat, line: seq<word>)
    requires off + |line| <= |img| && forall i :: 0 <= i < |line| ==> line[i] == img[off + i]
    ensures img[off..off + |line|] == line
  {
  }

  lemma WholeColumn(w: nat, h: nat, x: nat)
    requires x < w && h > 0
    ensures 0 <= x + (h - 1) * w < w * h
  {
    InImage(w, h, x, h - 1);
  }

  // The row and the column that are read next have not been touched yet.
  lemma LineUntouched(m: seq<word>, was: seq<word>, w: nat, h: nat, a: Rect, rows: seq<seq<word>>, j: nat)
    requires |was| == w * h && a.In(w, h)
    requires |rows| == a.h && forall j :: 0 <= j < a.h ==> |rows[j]| == a.w
    requires j < a.h && Pixels(m, was, w, h, a, rows, j, a.w)
    ensures Line(m, w, h, a, j) == Cut(was, w, h, a)[j]
  {
  }

  lemma ColUntouched(m: seq<word>, was: seq<word>, w: nat, h: nat, a: Rect, rows: seq<seq<word>>, i: nat)
    requires |was| == w * h && a.In(w, h)
    requires |rows| == a.h && forall j :: 0 <= j < a.h ==> |rows[j]| == a.w
    requires i < a.w && Pixels(m, was, w, h, a, rows, a.h, i)
    ensures Col(Cut(m, w, h, a), i) == Col(Cut(was, w, h, a), i)
  {
    forall j | 0 <= j < a.h ensures Cut(m, w, h, a)[j][i] == Cut(was, w, h, a)[j][i] {
      assert Cut(m, w, h, a)[j][i] == At(m, w, h, a.x + i, a.y + j);
    }
  }

  lemma AllDone(m: seq<word>, was: seq<word>, w: nat, h: nat, a: Rect, rows: seq<seq<word>>)
    requires |was| == w * h && a.In(w, h)
    requires |rows| == a.h && forall j :: 0 <= j < a.h ==> |rows[j]| == a.w
    requires Pixels(m, was, w, h, a, rows, a.h, a.w)
    ensures Cut(m, w, h, a) == rows
  {
    forall j | 0 <= j < a.h ensures Cut(m, w, h, a)[j] == rows[j] {
      forall i | 0 <= i < a.w ensures Cut(m, w, h, a)[j][i] == rows[j][i] {
        assert Cut(m, w, h, a)[j][i] == At(m, w, h, a.x + i, a.y + j);
      }
    }
  }

  // A blurred rectangle, everything outside it unchanged.
  ghost predicate BlurredIn(m: seq<word>, was: seq<word>, w: nat, h: nat, a: Rect, rows: seq<seq<word>>)
    requires |was| == w * h && a.In(w, h)
    requires |rows| == a.h && forall j :: 0 <= j < a.h ==> |rows[j]| == a.w
  {
    |m| == |was| && Cut(m, w, h, a) == rows &&
    forall x: nat, y: nat {:trigger At(m, w, h, x, y)} :: x < w && y < h && !a.Has(x, y) ==>
      At(m, w, h, x, y) == At(was, w, h, x, y)
  }

  // ---- The passes of fb_blur_buffer ----

  const COL_MAX: nat := 1024
  const ROW_MAX: nat := 1280

  // Copies a column into the static column buffer.
  method LoadColumn(buf: array<word>, w: nat, h: nat, a: Rect, i: nat, col: array<word>)
    requires buf.Length == w * h && a.In(w, h) && i < a.w && a.h <= col.Length && buf != col
    modifies col
    ensures col[..a.h] == Col(Cut(buf[..], w, h, a), i)
  {
    var j := 0;
    while j < a.h
      invariant j <= a.h && col[..j] == Col(Cut(buf[..], w, h, a), i)[..j]
    {
      InImage(w, h, a.x + i, a.y + j);
      assert Cut(buf[..], w, h, a)[j][i] == At(buf[..], w, h, a.x + i, a.y + j);
      col[j] := buf[(a.y + j) * w + a.x + i];
      assert col[..j + 1] == col[..j] + [col[j]];
      j := j + 1;
    }
  }

  // The horizontal pass of fb_blur_buffer.
  method BlurRowsInto(dst: array<word>, src: array<word>, w: nat, h: nat, r: nat)
    requires dst.Length == src.Length == w * h && dst != src && r > 0
    modifies dst
    ensures var a := Rect(0, 0, w, h);
      Pixels(dst[..], old(dst[..]), w, h, a, BlurRows(Cut(src[..], w, h, a), r), h, w)
  {
    ghost var a, was := Rect(0, 0, w, h), dst[..];
    ghost var rows := BlurRows(Cut(src[..], w, h, a), r);
    var y := 0;
    while y < h
      invariant y <= h && Pixels(dst[..], was, w, h, a, rows, y, w)
    {
      ghost var m := dst[..];
      LineIsSlice(src[..], w, h, a, y);
      Slide(src, y * w, w, dst, y * w, 1, r);
      RowDone(m, was, w, h, a, rows, y, y * w, dst[..]);
      y := y + 1;
    }
  }

  // The vertical pass of fb_blur_buffer.
  method BlurColumnsOf(dst: array<word>, w: nat, h: nat, r: nat)
    requires dst.Length == w * h && h <= COL_MAX && r > 0
    modifies dst
    ensures var a := Rect(0, 0, w, h);
      Pixels(dst[..], old(dst[..]), w, h, a, BlurColumns(Cut(old(dst[..]), w, h, a), w, r), h, w)
  {
    var a := Rect(0, 0, w, h);
    ghost var was := dst[..];
    ghost var rows := BlurColumns(Cut(was, w, h, a), w, r);
    var col := new word[COL_MAX];
    var x := 0;
    while x < w
      invariant x <= w && Pixels(dst[..], was, w, h, a, rows, h, x)
    {
      ghost var m := dst[..];
      LoadColumn(dst, w, h, a, x, col);
      ColUntouched(m, was, w, h, a, rows, x);
      if h > 0 { WholeColumn(w, h, x); }
      Slide(col, 0, h, dst, x, w, r);
      ColOfBlurred(Cut(was, w, h, a), w, r, x);
      ColumnDone(m, was, w, h, a, rows, x, x, dst[..]);
      x := x + 1;
    }
  }

  // fb_blur_buffer: src -> dst, distinct buffers of w * h pixels.
  method BlurBuffer(dst: array<word>, src: array<word>, w: nat, h: nat, radius: int)
    requires dst.Length == src.Length == w * h && dst != src && h <= COL_MAX
    modifies dst
    ensures radius <= 0 ==> dst[..] == src[..]
    ensures radius > 0 ==>
      Cut(dst[..], w, h, Rect(0, 0, w, h)) == BoxBlur(Cut(src[..], w, h, Rect(0, 0, w, h)), w, radius)
  {
    if radius <= 0 {
      var k := 0;
      while k < w * h
        invariant k <= w * h && dst[..k] == src[..k]
      {
        dst[k] := src[k];
        k := k + 1;
      }
      assert dst[..k] == dst[..] && src[..k] == src[..];
      return;
    }
    ghost var a, was := Rect(0, 0, w, h), dst[..];
    ghost var rows := BlurRows(Cut(src[..], w, h, a), radius);
    BlurRowsInto(dst, src, w, h, radius);
    ghost var mid := dst[..];
    AllDone(mid, was, w, h, a, rows);
    BlurColumnsOf(dst, w, h, radius);
    AllDone(dst[..], mid, w, h, a, BlurColumns(rows, w, radius));
  }

  // ---- fb_blur_region: in place, every window summed afresh ----

  // How much of the window of index i the loop has passed when it reaches k.
  function Passed(i: nat, r: nat, n: nat, k: int): nat {
    if k < Lo(i, r) then Lo(i, r) else if k > Hi(i, r, n) then Hi(i, r, n) else k
  }

  // What the loop has added up so far.
  ghost predicate PartOfWindow(line: seq<word>, i: nat, r: nat, k: int, acc: Rgb, cnt: int)
    requires i < |line|
  {
    var lo, p := Lo(i, r), Passed(i, r, |line|, k);
    lo <= p <= |line| && cnt == p - lo && acc == Sum(line, lo, p)
  }

  lemma WindowGrows(line: seq<word>, i: nat, r: nat, k: int, acc: Rgb, cnt: int)
    requires i < |line| && i - r <= k <= i + r && PartOfWindow(line, i, r, k, acc, cnt)
    ensures var inside := 0 <= k < |line|;
      PartOfWindow(line, i, r, k + 1,
                   if inside then acc.Plus(Unpack(line[k])) else acc, if inside then cnt + 1 else cnt)
  {
    PassedMore(i, r, |line|, k);
    if 0 <= k < |line| { SumMore(line, Lo(i, r), k); }
  }

  lemma PassedMore(i: nat, r: nat, n: nat, k: int)
    requires i < n && i - r <= k <= i + r
    ensures if 0 <= k < n then Passed(i, r, n, k) == k && Passed(i, r, n, k + 1) == k + 1
            else Passed(i, r, n, k + 1) == Passed(i, r, n, k)
  {
  }

  lemma SumMore(line: seq<word>, lo: nat, hi: nat)
    requires lo <= hi < |line|
    ensures Sum(line, lo, hi + 1) == Sum(line, lo, hi).Plus(Unpack(line[hi]))
  {
  }

  lemma {:induction false} WindowComplete(line: seq<word>, i: nat, r: nat, acc: Rgb, cnt: int)
    requires i < |line| && PartOfWindow(line, i, r, i + r + 1, acc, cnt)
    ensures var n := Hi(i, r, |line|) - Lo(i, r); cnt == n > 0 && acc == Sum(line, Lo(i, r), Hi(i, r, |line|))
    ensures Average(line, i, r) == Mean(acc, cnt)
  {
  }

  method WindowMean(line: array<word>, n: nat, i: nat, r: nat) returns (c: word)
    requires n <= line.Length && i < n
    ensures c == Average(line[..n], i, r)
  {
    ghost var s := line[..n];
    var acc, cnt := BLACK, 0;
    var k: int := i - r;
    while k <= i + r
      invariant i - r <= k <= i + r + 1 && PartOfWindow(s, i, r, k, acc, cnt)
    {
      WindowGrows(s, i, r, k, acc, cnt);
      if 0 <= k < n {
        acc := acc.Plus(Unpack(line[k]));
        cnt := cnt + 1;
      }
      k := k + 1;
    }
    WindowComplete(s, i, r, acc, cnt);
    c := Mean(acc, cnt);
  }

  // The naive counterpart of Slide: the first n pixels of the saved line, averaged into buf.
  method BlurLine(line: array<word>, n: nat, buf: array<word>, off: nat, stride: nat, r: nat)
    requires n <= line.Length && line != buf
    requires n > 0 ==> 0 <= off + (n - 1) * stride < buf.Length
    modifies buf
    ensures buf[..] == Written(old(buf[..]), off, stride, Averages(line[..n], r))
  {
    ghost var was, avg := buf[..], Averages(line[..n], r);
    var i := 0;
    while i < n
      invariant i <= n && buf[..] == Written(was, off, stride, avg[..i])
    {
      StrideFits(i, n, stride);
      WrittenStep(was, off, stride, avg, i);
      var c := WindowMean(line, n, i, r);
      buf[off + i * stride] := c;
      i := i + 1;
    }
    assert avg[..n] == avg;
  }

  // Copies a row of the region into the static row buffer.
  method LoadRow(buf: array<word>, w: nat, h: nat, a: Rect, j: nat, tmp: array<word>)
    requires buf.Length == w * h && a.In(w, h) && j < a.h && a.w <= tmp.Length && buf != tmp
    modifies tmp
    ensures tmp[..a.w] == Line(buf[..], w, h, a, j)
  {
    var i := 0;
    while i < a.w
      invariant i <= a.w && tmp[..i] == Line(buf[..], w, h, a, j)[..i]
    {
      InImage(w, h, a.x + i, a.y + j);
      tmp[i] := buf[(a.y + j) * w + a.x + i];
      assert Line(buf[..], w, h, a, j)[i] == At(buf[..], w, h, a.x + i, a.y + j);
      assert tmp[..i + 1] == tmp[..i] + [tmp[i]];
      i := i + 1;
    }
  }

  lemma SpanFits(w: nat, h: nat, a: Rect, i: nat, j: nat)
    requires a.In(w, h) && i < a.w && j < a.h
    ensures 0 <= (a.y + j) * w + a.x && (a.y + j) * w + a.x + (a.w - 1) * 1 < w * h
    ensures 0 <= a.y * w + (a.x + i) && a.y * w + (a.x + i) + (a.h - 1) * w < w * h
  {
    InImage(w, h, a.x + a.w - 1, a.y + j);
    InImage(w, h, a.x + i, a.y + a.h - 1);
    assert (a.y + a.h - 1) * w == a.y * w + (a.h - 1) * w;
  }

  // One row of the horizontal pass and one column of the vertical pass, the first pixel at off.
  method RegionRow(buf: array<word>, w: nat, h: nat, a: Rect, r: nat, j: nat, off: nat, tmp: array<word>)
    requires buf.Length == w * h && a.In(w, h) && 0 < a.w <= tmp.Length && j < a.h && buf != tmp
    requires off == (a.y + j) * w + a.x
    modifies buf, tmp
    ensures buf[..] == Written(old(buf[..]), off, 1, Averages(Line(old(buf[..]), w, h, a, j), r))
  {
    LoadRow(buf, w, h, a, j, tmp);
    SpanFits(w, h, a, 0, j);
    BlurLine(tmp, a.w, buf, off, 1, r);
  }

  method RegionColumn(buf: array<word>, w: nat, h: nat, a: Rect, r: nat, i: nat, off: nat, tcol: array<word>)
    requires buf.Length == w * h && a.In(w, h) && 0 < a.h <= tcol.Length && i < a.w && buf != tcol
    requires off == a.y * w + (a.x + i)
    modifies buf, tcol
    ensures buf[..] == Written(old(buf[..]), off, w, Averages(Col(Cut(old(buf[..]), w, h, a), i), r))
  {
    LoadColumn(buf, w, h, a, i, tcol);
    SpanFits(w, h, a, i, 0);
    BlurLine(tcol, a.h, buf, off, w, r);
  }

  method RegionRows(buf: array<word>, w: nat, h: nat, a: Rect, r: nat)
    requires buf.Length == w * h && a.In(w, h) && 0 < a.w <= ROW_MAX
    modifies buf
    ensures Pixels(buf[..], old(buf[..]), w, h, a, BlurRows(Cut(old(buf[..]), w, h, a), r), a.h, a.w)
  {
    ghost var was := buf[..];
    ghost var rows := BlurRows(Cut(was, w, h, a), r);
    var tmp := new word[ROW_MAX];
    var j := 0;
    while j < a.h
      invariant j <= a.h && Pixels(buf[..], was, w, h, a, rows, j, a.w)
    {
      ghost var m := buf[..];
      var off := (a.y + j) * w + a.x;
      RegionRow(buf, w, h, a, r, j, off, tmp);
      LineUntouched(m, was, w, h, a, rows, j);
      RowDone(m, was, w, h, a, rows, j, off, buf[..]);
      j := j + 1;
    }
  }

  method RegionColumns(buf: array<word>, w: nat, h: nat, a: Rect, r: nat)
    requires buf.Length == w * h && a.In(w, h) && 0 < a.h <= COL_MAX
    modifies buf
    ensures Pixels(buf[..], old(buf[..]), w, h, a, BlurColumns(Cut(old(buf[..]), w, h, a), a.w, r), a.h, a.w)
  {
    ghost var was := buf[..];
    ghost var rows := BlurColumns(Cut(was, w, h, a), a.w, r);
    var tcol := new word[COL_MAX];
    var i := 0;
    while i < a.w
      invariant i <= a.w && Pixels(buf[..], was, w, h, a, rows, a.h, i)
    {
      ghost var m := buf[..];
      var off := a.y * w + (a.x + i);
      RegionColumn(buf, w, h, a, r, i, off, tcol);
      ColUntouched(m, was, w, h, a, rows, i);
      ColOfBlurred(Cut(was, w, h, a), a.w, r, i);
      ColumnDone(m, was, w, h, a, rows, i, off, buf[..]);
      i := i + 1;
    }
  }

  // fb_blur_region: the rectangle is clipped to the screen and what is left of it is blurred.
  method BlurRegion(buf: array<word>, stride: nat, fbW: nat, fbH: nat, x: int, y: int, w: int, h: int, radius: int)
    requires buf.Length == stride * fbH && fbW <= stride && fbW <= ROW_MAX && fbH <= COL_MAX
    requires Spans32(x, w) && Spans32(y, h)
    modifies buf
    ensures var ((x', w'), (y', h')) := (Clip(x, w, fbW), Clip(y, h, fbH));
      if w' <= 0 || h' <= 0 || radius <= 0 then buf[..] == old(buf[..])
      else
        0 <= x' && 0 <= y' &&
        var a := Rect(x', y', w', h');
        && a.In(stride, fbH)
        && BlurredIn(buf[..], old(buf[..]), stride, fbH, a, BoxBlur(Cut(old(buf[..]), stride, fbH, a), w', radius))
  {
    var (x', w') := Clip(x, w, fbW);
    var (y', h') := Clip(y, h, fbH);
    if w' <= 0 || h' <= 0 || radius <= 0 { return; }
    ClipInside(x, w, fbW);
    ClipInside(y, h, fbH);
    BlurClipped(buf, stride, fbH, Rect(x', y', w', h'), radius);
  }

  // The two passes of fb_blur_region.
  method BlurClipped(buf: array<word>, w: nat, h: nat, a: Rect, r: nat)
    requires buf.Length == w * h && a.In(w, h) && 0 < a.w <= ROW_MAX && 0 < a.h <= COL_MAX && r > 0
    modifies buf
    ensures BlurredIn(buf[..], old(buf[..]), w, h, a, BoxBlur(Cut(old(buf[..]), w, h, a), a.w, r))
  {
    ghost var was := buf[..];
    RegionRows(buf, w, h, a, r);
    ghost var mid := buf[..];
    ghost var rows := BlurRows(Cut(was, w, h, a), r);
    AllDone(mid, was, w, h, a, rows);
    RegionColumns(buf, w, h, a, r);
    AllDone(buf[..], mid, w, h, a, BlurColumns(rows, a.w, r));
    OutsideTwice(buf[..], mid, was, w, h, a, rows, BlurColumns(rows, a.w, r));
  }

  lemma OutsideTwice(m: seq<word>, mid: seq<word>, was: seq<word>, w: nat, h: nat, a: Rect,
                     rows: seq<seq<word>>, cols: seq<seq<word>>)
    requires |was| == |mid| == w * h && a.In(w, h)
    requires |rows| == |cols| == a.h && forall j :: 0 <= j < a.h ==> |rows[j]| == |cols[j]| == a.w
    requires Pixels(mid, was, w, h, a, rows, a.h, a.w) && Pixels(m, mid, w, h, a, cols, a.h, a.w)
    ensures forall x: nat, y: nat {:trigger At(m, w, h, x, y)} :: x < w && y < h && !a.Has(x, y) ==>
      At(m, w, h, x, y) == At(was, w, h, x, y)
  {
    forall x: nat, y: nat | x < w && y < h && !a.Has(x, y) ensures At(m, w, h, x, y) == At(was, w, h, x, y) {
      assert At(mid, w, h, x, y) == Target(was, w, h, a, rows, a.h, a.w, x, y);
    }
  }
}
