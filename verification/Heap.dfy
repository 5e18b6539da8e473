// kernel/mm/heap.c: the allocator over real memory. Block headers are sixteen bytes inside
// the arena; pointers are machine addresses and NULL is 0. A public entry point runs with
// interrupts off, so each method below is one atomic step.
module Heap {
  import opened Memory
  import opened BlockList

  datatype Header = Header(size: nat, free: nat, next: nat, prev: nat) {
    predicate Words() {
      size < 0x1_0000_0000 && free < 0x1_0000_0000 && next < 0x1_0000_0000 && prev < 0x1_0000_0000
    }
  }

  // The block_t found at address a.
  function Hdr(m: seq<byte>, a: nat): Header
    requires a + HDR <= |m|
  {
    Header(Load(m, a), Load(m, a + 4), Load(m, a + 8), Load(m, a + 12))
  }

  function HdrBytes(h: Header): (s: seq<byte>)
    requires h.Words()
    ensures |s| == HDR
  {
    Bytes(h.size) + Bytes(h.free) + Bytes(h.next) + Bytes(h.prev)
  }

  lemma HdrPatched(m: seq<byte>, a: nat, h: Header)
    requires a + HDR <= |m| && h.Words()
    ensures Hdr(Patch(m, a, HdrBytes(h)), a) == h
  {
    var r := Patch(m, a, HdrBytes(h));
    var s := r[a..a + HDR];
    assert r[a..a + 4] == s[..4] == Bytes(h.size);
    assert r[a + 4..a + 8] == s[4..8] == Bytes(h.free);
    assert r[a + 8..a + 12] == s[8..12] == Bytes(h.next);
    assert r[a + 12..a + 16] == s[12..16] == Bytes(h.prev);
    LoadBytes(r, a, h.size);
    LoadBytes(r, a + 4, h.free);
    LoadBytes(r, a + 8, h.next);
    LoadBytes(r, a + 12, h.prev);
  }

  lemma HdrSame(m: seq<byte>, r: seq<byte>, a: nat)
    requires a + HDR <= |m| == |r| && forall k :: a <= k < a + HDR ==> r[k] == m[k]
    ensures Hdr(r, a) == Hdr(m, a)
  {
  }

  ghost function HeaderOf(bs: seq<Block>, i: nat): Header
    requires i < |bs|
  {
    Header(bs[i].size,
           if bs[i].free then 1 else 0,
           if i + 1 < |bs| then bs[i + 1].addr else NULL,
           if i > 0 then bs[i - 1].addr else NULL)
  }

  // Every block of the list has its header, with both links, in memory.
  ghost predicate Described(m: seq<byte>, bs: seq<Block>) {
    && (forall i {:trigger bs[i]} :: 0 <= i < |bs| ==> bs[i].End() <= |m|)
    && (forall i {:trigger HeaderOf(bs, i)} :: 0 <= i < |bs| ==> Hdr(m, bs[i].addr) == HeaderOf(bs, i))
  }

  // The payloads of these blocks read the same in both memories.
  ghost predicate Kept(m: seq<byte>, r: seq<byte>, s: set<Block>) {
    |m| == |r| && forall b :: b in s && b.End() <= |m| ==> r[b.Ptr()..b.End()] == m[b.Ptr()..b.End()]
  }

  lemma KeptThen(m: seq<byte>, m1: seq<byte>, r: seq<byte>, s: set<Block>, t: set<Block>)
    requires Kept(m, m1, s) && Kept(m1, r, t)
    ensures Kept(m, r, s * t)
  {
    forall b | b in s * t && b.End() <= |m| ensures r[b.Ptr()..b.End()] == m[b.Ptr()..b.End()] {
      assert m1[b.Ptr()..b.End()] == m[b.Ptr()..b.End()];
    }
  }

  // r differs from m at most in the three headers at a, b and c.
  ghost predicate OnlyChanged(m: seq<byte>, r: seq<byte>, a: nat, b: nat, c: nat) {
    |r| == |m| &&
    forall k :: 0 <= k < |m| && !(a <= k < a + HDR) && !(b <= k < b + HDR) && !(c != NULL && c <= k < c + HDR) ==>
      r[k] == m[k]
  }

  // Block i lies apart from every other block.
  lemma Apart(bs: seq<Block>, base: nat, i: nat)
    requires Tiles(bs, base) && i < |bs|
    ensures forall j :: 0 <= j < i ==> bs[j].End() <= bs[i].addr
    ensures forall j :: i < j < |bs| ==> bs[i].End() <= bs[j].addr
    ensures base <= bs[i].addr && bs[i].End() <= base + HEAP_SIZE
  {
    forall j | 0 <= j < i ensures bs[j].End() <= bs[i].addr { Ordered(bs, base, j, i); }
    forall j | i < j < |bs| ensures bs[i].End() <= bs[j].addr { Ordered(bs, base, i, j); }
    Inside(bs, base, i);
  }

  // All headers of the list except those of blocks i and k read the same in both memories.
  ghost predicate OthersKept(m: seq<byte>, r: seq<byte>, bs: seq<Block>, i: nat, k: nat) {
    |r| == |m| && forall j :: 0 <= j < |bs| && j != i && j != k ==>
      bs[j].End() <= |m| && Hdr(r, bs[j].addr) == Hdr(m, bs[j].addr)
  }

  // Header writes inside block i and at its successor leave all other headers alone.
  lemma OthersSame(m: seq<byte>, r: seq<byte>, bs: seq<Block>, base: nat, i: nat, nb: nat)
    requires Tiles(bs, base) && i < |bs| && base + HEAP_SIZE <= |m|
    requires bs[i].addr <= nb && nb + HDR <= bs[i].End()
    requires OnlyChanged(m, r, bs[i].addr, nb, HeaderOf(bs, i).next)
    ensures OthersKept(m, r, bs, i, i + 1)
    ensures OnlyChanged(m, r, bs[i].addr, nb, NULL) ==> OthersKept(m, r, bs, i, i)
  {
    forall j | 0 <= j < |bs| ensures bs[j].End() <= |m| { Inside(bs, base, j); }
    Apart(bs, base, i);
    if i + 1 < |bs| { Apart(bs, base, i + 1); }
    forall j | 0 <= j < |bs| && j != i && (j != i + 1 || OnlyChanged(m, r, bs[i].addr, nb, NULL))
      ensures Hdr(r, bs[j].addr) == Hdr(m, bs[j].addr)
    {
      HdrSame(m, r, bs[j].addr);
    }
  }

  // Such writes keep every live payload, except possibly block i's own, and all memory outside the arena.
  lemma WritesKeep(m: seq<byte>, r: seq<byte>, bs: seq<Block>, base: nat, i: nat, nb: nat)
    requires Tiles(bs, base) && i < |bs| && base + HEAP_SIZE <= |m|
    requires bs[i].addr <= nb && nb + HDR <= bs[i].End()
    requires bs[i].free || nb == bs[i].addr
    requires OnlyChanged(m, r, bs[i].addr, nb, HeaderOf(bs, i).next)
    ensures Kept(m, r, Live(bs)) && OutsideSame(m, r, base)
  {
    Apart(bs, base, i);
    if i + 1 < |bs| { Apart(bs, base, i + 1); }
    forall b | b in Live(bs) && b.End() <= |m|
      ensures r[b.Ptr()..b.End()] == m[b.Ptr()..b.End()]
    {
      var j :| 0 <= j < |bs| && bs[j] == b;
    }
  }

  ghost predicate OutsideSame(m: seq<byte>, r: seq<byte>, base: nat) {
    |m| == |r| && forall k :: 0 <= k < |m| && (k < base || base + HEAP_SIZE <= k) ==> r[k] == m[k]
  }

  lemma CutHeaders(bs: seq<Block>, i: nat, size: nat)
    requires i < |bs| && Splits(bs[i], size)
    ensures var nb := bs[i].addr + HDR + size;
      && HeaderOf(Cut(bs, i, size), i) == Header(size, 0, nb, HeaderOf(bs, i).prev)
      && HeaderOf(Cut(bs, i, size), i + 1) == Header(bs[i].size - size - HDR, 1, HeaderOf(bs, i).next, bs[i].addr)
  {
  }

  lemma CutDescribed(m: seq<byte>, r: seq<byte>, bs: seq<Block>, i: nat, size: nat)
    requires Described(m, bs) && |r| == |m| && i < |bs| && Splits(bs[i], size)
    requires Hdr(r, bs[i].addr) == HeaderOf(Cut(bs, i, size), i)
    requires Hdr(r, bs[i].addr + HDR + size) == HeaderOf(Cut(bs, i, size), i + 1)
    requires i + 1 < |bs| ==> Hdr(r, bs[i + 1].addr) == HeaderOf(bs, i + 1).(prev := bs[i].addr + HDR + size)
    requires OthersKept(m, r, bs, i, i + 1)
    ensures Described(r, Cut(bs, i, size))
  {
    var cs := Cut(bs, i, size);
    forall j | 0 <= j < |cs|
      ensures cs[j].End() <= |r| && Hdr(r, cs[j].addr) == HeaderOf(cs, j)
    {
      if j < i {
        assert cs[j] == bs[j] && HeaderOf(cs, j) == HeaderOf(bs, j);
      } else if j > i + 1 {
        CutBehind(bs, i, size, j);
      }
    }
  }

  // The headers behind a cut keep all but the first one's back link.
  lemma CutBehind(bs: seq<Block>, i: nat, size: nat, j: nat)
    requires i < |bs| && Splits(bs[i], size) && i + 1 < j < |Cut(bs, i, size)|
    ensures var cs := Cut(bs, i, size);
      cs[j] == bs[j - 1] && HeaderOf(cs, j) == HeaderOf(bs, j - 1).(prev := cs[j - 1].addr)
  {
  }

  lemma FlagDescribed(m: seq<byte>, r: seq<byte>, bs: seq<Block>, i: nat, f: bool)
    requires Described(m, bs) && |r| == |m| && i < |bs|
    requires bs[i].End() <= |m| && Hdr(r, bs[i].addr) == HeaderOf(bs, i).(free := if f then 1 else 0)
    requires OthersKept(m, r, bs, i, i)
    ensures Described(r, bs[i := bs[i].(free := f)])
  {
    var cs := bs[i := bs[i].(free := f)];
    forall j | 0 <= j < |cs|
      ensures Hdr(r, cs[j].addr) == HeaderOf(cs, j)
    {
      if j != i { assert HeaderOf(cs, j) == HeaderOf(bs, j); }
    }
  }

  lemma AbsorbDescribed(m: seq<byte>, r: seq<byte>, bs: seq<Block>, i: nat)
    requires Described(m, bs) && |r| == |m| && i + 1 < |bs| && Touch(bs, i + 1)
    requires Hdr(r, bs[i].addr) == HeaderOf(Absorb(bs, i), i)
    requires i + 2 < |bs| ==> Hdr(r, bs[i + 2].addr) == HeaderOf(bs, i + 2).(prev := bs[i].addr)
    requires OthersKept(m, r, bs, i, i + 2)
    ensures Described(r, Absorb(bs, i))
  {
    var cs := Absorb(bs, i);
    forall j | 0 <= j < |cs|
      ensures cs[j].End() <= |r| && Hdr(r, cs[j].addr) == HeaderOf(cs, j)
    {
      if j < i {
        assert cs[j] == bs[j] && HeaderOf(cs, j) == HeaderOf(bs, j);
      } else if j == i {
        assert cs[i].End() == bs[i + 1].End();
      } else {
        assert cs[j] == bs[j + 1];
        assert HeaderOf(cs, j) == HeaderOf(bs, j + 1).(prev := cs[j - 1].addr);
      }
    }
  }

  // After a split at m1 and the final b->free = 0 the memory describes the cut list.
  lemma SplitTaken(m: seq<byte>, m1: seq<byte>, r: seq<byte>, bs: seq<Block>, base: nat, i: nat, size: nat, nb: nat)
    requires Tiles(bs, base) && base + HEAP_SIZE <= |m| && Described(m, bs)
    requires i < |bs| && bs[i].free && Splits(bs[i], size) && nb == bs[i].addr + HDR + size
    requires OnlyChanged(m, m1, bs[i].addr, nb, HeaderOf(bs, i).next)
    requires |m1| == |m| && nb + HDR <= |m|
    requires Hdr(m1, nb) == Header(bs[i].size - size - HDR, 1, HeaderOf(bs, i).next, bs[i].addr)
    requires i + 1 < |bs| ==> Hdr(m1, bs[i + 1].addr) == HeaderOf(bs, i + 1).(prev := nb)
    requires OnlyChanged(m1, r, bs[i].addr, bs[i].addr, bs[i].addr)
    requires |r| == |m| && Hdr(r, bs[i].addr) == HeaderOf(bs, i).(size := size, free := 0, next := nb)
    ensures Described(r, Cut(bs, i, size)) && Kept(m, r, Live(bs)) && OutsideSame(m, r, base)
  {
    assert OnlyChanged(m, r, bs[i].addr, nb, HeaderOf(bs, i).next);
    WritesKeep(m, r, bs, base, i, nb);
    assert Described(r, Cut(bs, i, size)) by {
      HdrSame(m1, r, nb);
      if i + 1 < |bs| {
        assert Touch(bs, i + 1);
        HdrSame(m1, r, bs[i + 1].addr);
      }
      OthersSame(m, r, bs, base, i, nb);
      CutHeaders(bs, i, size);
      CutDescribed(m, r, bs, i, size);
    }
  }

  // What the two header writes of an absorption leave alone.
  lemma AbsorbHeadersKept(m: seq<byte>, r: seq<byte>, bs: seq<Block>, base: nat, i: nat)
    requires Tiles(bs, base) && i + 1 < |bs| && base + HEAP_SIZE <= |m|
    requires OnlyChanged(m, r, bs[i].addr, bs[i].addr, HeaderOf(bs, i + 1).next)
    ensures OthersKept(m, r, bs, i, i + 2)
  {
    forall j | 0 <= j < |bs| ensures bs[j].End() <= |m| { Inside(bs, base, j); }
    Apart(bs, base, i);
    if i + 2 < |bs| { Apart(bs, base, i + 2); }
    forall j | 0 <= j < |bs| && j != i && j != i + 2
      ensures Hdr(r, bs[j].addr) == Hdr(m, bs[j].addr)
    {
      HdrSame(m, r, bs[j].addr);
    }
  }

  lemma AbsorbLiveKept(m: seq<byte>, r: seq<byte>, bs: seq<Block>, base: nat, i: nat)
    requires Tiles(bs, base) && i + 1 < |bs| && base + HEAP_SIZE <= |m| && bs[i].free && bs[i + 1].free
    requires OnlyChanged(m, r, bs[i].addr, bs[i].addr, HeaderOf(bs, i + 1).next)
    ensures Kept(m, r, Live(bs)) && OutsideSame(m, r, base)
  {
    Apart(bs, base, i);
    if i + 2 < |bs| { Apart(bs, base, i + 2); }
    forall b | b in Live(bs) && b.End() <= |m|
      ensures r[b.Ptr()..b.End()] == m[b.Ptr()..b.End()]
    {
      var j :| 0 <= j < |bs| && bs[j] == b;
    }
  }

  lemma AbsorbHeader(bs: seq<Block>, i: nat)
    requires i + 1 < |bs| && bs[i].free
    ensures HeaderOf(Absorb(bs, i), i)
         == Header(bs[i].size + HDR + bs[i + 1].size, 1, HeaderOf(bs, i + 1).next, HeaderOf(bs, i).prev)
  {
  }

  lemma AbsorbDone(m: seq<byte>, r: seq<byte>, bs: seq<Block>, base: nat, i: nat)
    requires Tiles(bs, base) && i + 1 < |bs| && base + HEAP_SIZE <= |m| && Described(m, bs)
    requires bs[i].free && bs[i + 1].free
    requires OnlyChanged(m, r, bs[i].addr, bs[i].addr, HeaderOf(bs, i + 1).next)
    requires |r| == |m| && Hdr(r, bs[i].addr)
          == Header(bs[i].size + HDR + bs[i + 1].size, 1, HeaderOf(bs, i + 1).next, HeaderOf(bs, i).prev)
    requires i + 2 < |bs| ==> Hdr(r, bs[i + 2].addr) == HeaderOf(bs, i + 2).(prev := bs[i].addr)
    ensures Described(r, Absorb(bs, i)) && Kept(m, r, Live(bs)) && OutsideSame(m, r, base)
  {
    AbsorbHeadersKept(m, r, bs, base, i);
    AbsorbLiveKept(m, r, bs, base, i);
    AbsorbHeader(bs, i);
    assert Touch(bs, i + 1);
    AbsorbDescribed(m, r, bs, i);
  }

  // Where the addresses that coalescing touches lie.
  lemma Room(bs: seq<Block>, base: nat, i: nat)
    requires Tiles(bs, base) && i + 1 < |bs|
    ensures base <= bs[i].addr && bs[i].End() == bs[i + 1].addr && bs[i + 1].End() <= base + HEAP_SIZE
    ensures i + 2 < |bs| ==> bs[i + 1].End() == bs[i + 2].addr && bs[i + 2].End() <= base + HEAP_SIZE
  {
    Inside(bs, base, i);
    Inside(bs, base, i + 1);
    assert Touch(bs, i + 1);
    if i + 2 < |bs| {
      Inside(bs, base, i + 2);
      assert Touch(bs, i + 2);
    }
  }

  // A null link means there is no neighbour on that side.
  lemma NextNotNull(bs: seq<Block>, base: nat, i: nat)
    requires 0 < base && Tiles(bs, base) && i < |bs|
    ensures HeaderOf(bs, i).next == NULL <==> i + 1 == |bs|
    ensures HeaderOf(bs, i).prev == NULL <==> i == 0
  {
    if i + 1 < |bs| { Inside(bs, base, i + 1); }
    if i > 0 { Inside(bs, base, i - 1); }
  }

  lemma InitialDescribed(m: seq<byte>, r: seq<byte>, base: nat)
    requires base + HEAP_SIZE <= |m|
    requires r == Patch(m, base, HdrBytes(Header(HEAP_SIZE - HDR, 1, NULL, NULL)))
    ensures Described(r, Initial(base)) && WellFormed(Initial(base), base) && Total(Initial(base), false) == 0
  {
    HdrPatched(m, base, Header(HEAP_SIZE - HDR, 1, NULL, NULL));
    TotalOne(Initial(base)[0], false);
  }

  // The bytes at p begin with s.
  ghost predicate Holds(m: seq<byte>, p: nat, s: seq<byte>) {
    p + |s| <= |m| && m[p..p + |s|] == s
  }

  lemma HoldsOn(m: seq<byte>, r: seq<byte>, p: nat, s: seq<byte>, c: Block, live: set<Block>)
    requires Kept(m, r, live) && c in live && c.Ptr() == p && |s| <= c.size && c.End() <= |m|
    requires Holds(m, p, s)
    ensures Holds(r, p, s)
  {
    assert forall k :: 0 <= k < |s| ==> r[p + k] == r[p..c.End()][k] == m[p..c.End()][k] == m[p + k] == s[k];
  }

  // Copying block b's bytes into c and then freeing b.
  lemma RelocateKept(m: seq<byte>, m1: seq<byte>, r: seq<byte>, live: set<Block>, b: Block, c: Block, data: seq<byte>)
    requires Kept(m, m1, live - {c}) && Kept(m1, r, live - {b}) && b != c && c in live && c.End() <= |m|
    requires |data| <= c.size && Holds(m1, c.Ptr(), data)
    ensures Kept(m, r, live - {b, c}) && Holds(r, c.Ptr(), data)
  {
    KeptThen(m, m1, r, live - {c}, live - {b});
    assert live - {b, c} == (live - {c}) * (live - {b});
    HoldsOn(m1, r, c.Ptr(), data, c, live - {b});
  }

  // Allocating c and then relocating b into it.
  lemma MoveKept(m: seq<byte>, m1: seq<byte>, r: seq<byte>, live: set<Block>, b: Block, c: Block)
    requires Kept(m, m1, live) && b in live && c !in live && b.End() <= |m|
    requires Kept(m1, r, live + {c} - {b, c}) && Holds(r, c.Ptr(), m1[b.Ptr()..b.End()])
    ensures Kept(m, r, live - {b}) && Holds(r, c.Ptr(), m[b.Ptr()..b.End()])
  {
    KeptThen(m, m1, r, live, live + {c} - {b, c});
    assert live - {b} == live * (live + {c} - {b, c});
  }

  // r differs from m only inside the payload of b.
  ghost predicate OnlyPayload(m: seq<byte>, r: seq<byte>, b: Block) {
    |r| == |m| && forall k :: 0 <= k < |m| && !(b.Ptr() <= k < b.End()) ==> r[k] == m[k]
  }

  // A write inside the payload of block i disturbs no header.
  lemma PayloadWriteDescribed(m: seq<byte>, r: seq<byte>, bs: seq<Block>, base: nat, i: nat)
    requires Tiles(bs, base) && i < |bs| && Described(m, bs) && OnlyPayload(m, r, bs[i])
    ensures Described(r, bs)
  {
    Apart(bs, base, i);
    forall j | 0 <= j < |bs| ensures Hdr(r, bs[j].addr) == HeaderOf(bs, j) {
      assert Hdr(m, bs[j].addr) == HeaderOf(bs, j);
      HdrSame(m, r, bs[j].addr);
    }
  }

  // ... and no other payload.
  lemma PayloadWriteKept(m: seq<byte>, r: seq<byte>, bs: seq<Block>, base: nat, i: nat)
    requires Tiles(bs, base) && i < |bs| && OnlyPayload(m, r, bs[i])
    ensures Kept(m, r, Live(bs) - {bs[i]}) && OutsideSame(m, r, base)
  {
    Apart(bs, base, i);
    forall b | b in Live(bs) - {bs[i]} && b.End() <= |m|
      ensures r[b.Ptr()..b.End()] == m[b.Ptr()..b.End()]
    {
      var j :| 0 <= j < |bs| && bs[j] == b;
    }
  }

  // The first i bytes have been copied from s to d.
  ghost predicate Copied(m: seq<byte>, r: seq<byte>, d: nat, s: nat, i: nat)
    requires d + i <= |m| && s + i <= |m|
  {
    |r| == |m| && r[..d] == m[..d] && r[d..d + i] == m[s..s + i] && r[d + i..] == m[d + i..]
  }

  lemma CopyStep(m: seq<byte>, r: seq<byte>, d: nat, s: nat, i: nat)
    requires d + i < |m| && s + i < |m| && (d + i < s || s + i < d) && Copied(m, r, d, s, i)
    ensures Copied(m, r[d + i := r[s + i]], d, s, i + 1)
  {
    var r' := r[d + i := r[s + i]];
    assert r[s + i] == m[s + i] by {
      if s + i < d {
        assert r[..d][s + i] == m[..d][s + i];
      } else {
        assert r[d + i..][s - d] == m[d + i..][s - d];
      }
    }
    assert r'[d..d + i + 1] == r[d..d + i] + [m[s + i]] && m[s..s + i + 1] == m[s..s + i] + [m[s + i]];
    assert r'[d + i + 1..] == r[d + i..][1..] && m[d + i + 1..] == m[d + i..][1..];
  }

  lemma CopyDone(m: seq<byte>, r: seq<byte>, d: nat, s: nat, n: nat)
    requires d + n <= |m| && s + n <= |m| && Copied(m, r, d, s, n)
    ensures r == Patch(m, d, m[s..s + n])
  {
    assert r == r[..d] + r[d..d + n] + r[d + n..];
  }

  class Arena {
    const base: nat              // address of heap_area, and the value of `head`
    var mem: seq<byte>
    var usedBytes: nat
    ghost var blocks: seq<Block> // what the headers describe

    ghost predicate Shaped()
      reads this
    {
      && 0 < base && EightAligned(base)
      && base + HEAP_SIZE <= |mem| <= 0x1_0000_0000
      && Tiles(blocks, base) && Aligned(blocks)
      && Described(mem, blocks)
      && usedBytes == Total(blocks, false)
    }

    ghost predicate Valid()
      reads this
    {
      Shaped() && NoFreeNeighbours(blocks)
    }

    // heap_init, on whatever the memory holds.
    constructor (memory: seq<byte>, area: nat)
      requires 0 < area && EightAligned(area) && area + HEAP_SIZE <= |memory| <= 0x1_0000_0000
      ensures Valid() && base == area && blocks == Initial(area) && usedBytes == 0
    {
      base := area;
      var h := Header(HEAP_SIZE - HDR, 1, NULL, NULL);
      mem := Patch(memory, area, HdrBytes(h));
      usedBytes := 0;
      blocks := Initial(area);
      new;
      InitialDescribed(memory, mem, area);
    }

    // Stores a whole block_t. A C assignment to one field is a store with the others unchanged.
    method WriteHdr(a: nat, h: Header)
      requires a + HDR <= |mem| && h.Words()
      modifies this`mem
      ensures |mem| == |old(mem)| && Hdr(mem, a) == h
      ensures OnlyChanged(old(mem), mem, a, a, a)
    {
      HdrPatched(mem, a, h);
      mem := Patch(mem, a, HdrBytes(h));
    }

    // The split of heap_alloc: a new header goes behind the first `size` payload bytes.
    method Split(b: nat, size: nat, ghost bs: seq<Block>, ghost i: nat) returns (nb: nat)
      requires 0 < base && Tiles(bs, base) && base + HEAP_SIZE <= |mem| <= 0x1_0000_0000 && Described(mem, bs)
      requires i < |bs| && b == bs[i].addr && Splits(bs[i], size) && bs[i].free
      modifies this`mem
      ensures |mem| == |old(mem)| && nb == b + HDR + size && nb + HDR <= |mem|
      ensures Hdr(mem, b) == HeaderOf(bs, i).(size := size, next := nb)
      ensures Hdr(mem, nb) == Header(bs[i].size - size - HDR, 1, HeaderOf(bs, i).next, b)
      ensures i + 1 < |bs| ==> Hdr(mem, bs[i + 1].addr) == HeaderOf(bs, i + 1).(prev := nb)
      ensures OnlyChanged(old(mem), mem, b, nb, HeaderOf(bs, i).next)
    {
      Apart(bs, base, i);
      var h := Hdr(mem, b);
      assert h == HeaderOf(bs, i);
      nb := b + HDR + size;
      WriteHdr(nb, Header(h.size - size - HDR, 1, h.next, b));
      ghost var m1 := mem;
      if h.next != NULL {
        Inside(bs, base, i + 1);
        assert Hdr(old(mem), h.next) == HeaderOf(bs, i + 1);
        HdrSame(old(mem), mem, h.next);
        WriteHdr(h.next, Hdr(mem, h.next).(prev := nb));
        HdrSame(m1, mem, nb);
      }
      ghost var m2 := mem;
      WriteHdr(b, h.(size := size, next := nb));
      HdrSame(m2, mem, nb);
      if h.next != NULL { HdrSame(m2, mem, h.next); }
    }

    // b->free = f
    method SetFree(b: nat, f: bool, ghost bs: seq<Block>, ghost i: nat)
      requires Tiles(bs, base) && base + HEAP_SIZE <= |mem| && Described(mem, bs)
      requires i < |bs| && b == bs[i].addr
      modifies this`mem
      ensures Described(mem, bs[i := bs[i].(free := f)])
      ensures OnlyChanged(old(mem), mem, b, b, b)
    {
      Inside(bs, base, i);
      assert Hdr(mem, b) == HeaderOf(bs, i);
      WriteHdr(b, Hdr(mem, b).(free := if f then 1 else 0));
      assert OnlyChanged(old(mem), mem, b, b, NULL);
      OthersSame(old(mem), mem, bs, base, i, b);
      FlagDescribed(old(mem), mem, bs, i, f);
    }

    // The body of heap_alloc's loop once block b fits.
    method Place(b: nat, size: nat, ghost bs: seq<Block>, ghost i: nat)
      requires 0 < base && Tiles(bs, base) && base + HEAP_SIZE <= |mem| <= 0x1_0000_0000 && Described(mem, bs)
      requires i < |bs| && b == bs[i].addr && Fits(bs[i], size)
      modifies this`mem
      ensures Described(mem, Carve(bs, i, size))
      ensures Kept(old(mem), mem, Live(bs)) && OutsideSame(old(mem), mem, base)
    {
      assert Hdr(mem, b) == HeaderOf(bs, i);
      if Hdr(mem, b).size >= size + HDR + ALIGN {
        var nb := Split(b, size, bs, i);
        ghost var m1 := mem;
        WriteHdr(b, Hdr(mem, b).(free := 0));
        SplitTaken(old(mem), m1, mem, bs, base, i, size, nb);
      } else {
        SetFree(b, false, bs, i);
        WritesKeep(old(mem), mem, bs, base, i, b);
      }
    }

    // The taken branch of heap_alloc, with its accounting.
    method Take(b: nat, size: nat, ghost i: nat)
      requires Valid() && i < |blocks| && b == blocks[i].addr && Fits(blocks[i], size) && EightAligned(size)
      modifies this
      ensures Valid() && blocks == Carve(old(blocks), i, size)
      ensures Kept(old(mem), mem, Live(old(blocks))) && OutsideSame(old(mem), mem, base)
    {
      Place(b, size, blocks, i);
      CarveKeeps(blocks, base, i, size);
      CarveTotal(blocks, i, size);
      blocks := Carve(blocks, i, size);
      assert Hdr(mem, b) == HeaderOf(blocks, i);
      usedBytes := usedBytes + Hdr(mem, b).size + HDR;
    }

    // The walk of heap_alloc along the next pointers.
    method Search(size: nat) returns (b: nat)
      requires Valid()
      ensures var i := FirstFit(blocks, size); b == if i < |blocks| then blocks[i].addr else NULL
      ensures b == NULL <==> FirstFit(blocks, size) == |blocks|
    {
      b := base;
      ghost var i := 0;
      while b != NULL
        invariant i <= |blocks| && b == if i < |blocks| then blocks[i].addr else NULL
        invariant i < |blocks| ==> b != NULL
        invariant forall j :: 0 <= j < i ==> !Fits(blocks[j], size)
        decreases |blocks| - i
      {
        var h := Hdr(mem, b);
        assert h == HeaderOf(blocks, i);
        if h.free != 0 && h.size >= size {
          FirstFitIs(blocks, size, i);
          return;
        }
        b := h.next;
        i := i + 1;
        if i < |blocks| { Inside(blocks, base, i); }
      }
      FirstFitIs(blocks, size, |blocks|);
    }

    // heap_alloc under its lock.
    method Kmalloc(request: word) returns (p: nat)
      requires Valid()
      modifies this
      ensures Valid()
      ensures (blocks, p) == Allocate(old(blocks), request)
      ensures p == NULL ==> mem == old(mem)
      ensures Kept(old(mem), mem, Live(old(blocks))) && OutsideSame(old(mem), mem, base)
    {
      if request == 0 { return NULL; }
      var size := AlignUp(request);
      var b := Search(size);
      if b == NULL { return NULL; }
      Take(b, size, FirstFit(blocks, size));
      return b + HDR;
    }

    // One half of coalesce: the block at b takes over its successor.
    method AbsorbNext(b: nat, ghost bs: seq<Block>, ghost i: nat)
      requires 0 < base && Tiles(bs, base) && base + HEAP_SIZE <= |mem| <= 0x1_0000_0000 && Described(mem, bs)
      requires i + 1 < |bs| && b == bs[i].addr && bs[i].free && bs[i + 1].free
      modifies this`mem
      ensures Described(mem, Absorb(bs, i))
      ensures Kept(old(mem), mem, Live(bs)) && OutsideSame(old(mem), mem, base)
    {
      ghost var a0 := HeaderOf(bs, i);
      ghost var a1 := HeaderOf(bs, i + 1);
      Room(bs, base, i);
      assert Hdr(mem, b) == a0 && Hdr(mem, bs[i + 1].addr) == a1;
      var h := Hdr(mem, b);
      var n := Hdr(mem, h.next);
      ghost var m0 := mem;
      WriteHdr(b, h.(size := h.size + HDR + n.size, next := n.next));
      ghost var m1 := mem;
      if n.next != NULL {
        assert Hdr(m0, n.next) == HeaderOf(bs, i + 2);
        HdrSame(m0, m1, n.next);
        WriteHdr(n.next, Hdr(mem, n.next).(prev := b));
        HdrSame(m1, mem, b);
      }
      assert OnlyChanged(m0, mem, b, b, a1.next);
      AbsorbDone(m0, mem, bs, base, i);
    }

    // if (b->next && b->next->free) ...
    method MergeForward(b: nat, ghost bs: seq<Block>, ghost i: nat)
      requires 0 < base && Tiles(bs, base) && base + HEAP_SIZE <= |mem| <= 0x1_0000_0000 && Described(mem, bs)
      requires i < |bs| && b == bs[i].addr && bs[i].free
      modifies this`mem
      ensures Described(mem, MergeNext(bs, i))
      ensures Kept(old(mem), mem, Live(bs)) && OutsideSame(old(mem), mem, base)
    {
      var h := Hdr(mem, b);
      assert h == HeaderOf(bs, i);
      if h.next != NULL {
        assert Hdr(mem, h.next) == HeaderOf(bs, i + 1);
        if Hdr(mem, h.next).free != 0 { AbsorbNext(b, bs, i); }
      } else {
        NextNotNull(bs, base, i);
      }
    }

    // if (b->prev && b->prev->free) ...
    method MergeBackward(b: nat, ghost bs: seq<Block>, ghost i: nat)
      requires 0 < base && Tiles(bs, base) && base + HEAP_SIZE <= |mem| <= 0x1_0000_0000 && Described(mem, bs)
      requires i < |bs| && b == bs[i].addr && bs[i].free
      modifies this`mem
      ensures Described(mem, MergePrev(bs, i))
      ensures Kept(old(mem), mem, Live(bs)) && OutsideSame(old(mem), mem, base)
    {
      var h := Hdr(mem, b);
      assert h == HeaderOf(bs, i);
      if h.prev != NULL {
        assert Hdr(mem, h.prev) == HeaderOf(bs, i - 1);
        if Hdr(mem, h.prev).free != 0 { AbsorbNext(h.prev, bs, i - 1); }
      } else {
        NextNotNull(bs, base, i);
      }
    }

    method Coalesce(b: nat, ghost bs: seq<Block>, ghost i: nat)
      requires 0 < base && Tiles(bs, base) && Aligned(bs)
      requires base + HEAP_SIZE <= |mem| <= 0x1_0000_0000 && Described(mem, bs)
      requires i < |bs| && b == bs[i].addr && bs[i].free
      modifies this`mem
      ensures Described(mem, MergePrev(MergeNext(bs, i), i))
      ensures Kept(old(mem), mem, Live(bs)) && OutsideSame(old(mem), mem, base)
    {
      MergeForward(b, bs, i);
      MergeTiles(bs, base, i);
      MergeLive(bs, i);
      ghost var m1 := mem;
      MergeBackward(b, MergeNext(bs, i), i);
      KeptThen(old(mem), m1, mem, Live(bs), Live(bs));
    }

    ghost predicate Owned(p: nat)
      reads this
    {
      IsLive(blocks, p)
    }

    // heap_dealloc under its lock. The caller passes NULL or a pointer the heap handed out.
    method Kfree(p: nat)
      requires Valid() && (p == NULL || Find(blocks, p) < |blocks|)
      modifies this
      ensures Valid() && blocks == Deallocate(old(blocks), p)
      ensures p == NULL || !old(Owned(p)) ==> mem == old(mem)
      ensures Kept(old(mem), mem, Live(blocks)) && OutsideSame(old(mem), mem, base)
    {
      if p == NULL { return; }
      ghost var i := Find(blocks, p);
      var b := p - HDR;
      assert Hdr(mem, b) == HeaderOf(blocks, i);
      if Hdr(mem, b).free != 0 { return; }
      Drop(b, i);
    }

    // heap_dealloc's header work: b->free = 1, then coalesce.
    method MarkAndMerge(b: nat, ghost bs: seq<Block>, ghost i: nat)
      requires 0 < base && Tiles(bs, base) && Aligned(bs)
      requires base + HEAP_SIZE <= |mem| <= 0x1_0000_0000 && Described(mem, bs)
      requires i < |bs| && b == bs[i].addr
      modifies this`mem
      ensures Described(mem, Release(bs, i))
      ensures Kept(old(mem), mem, Live(bs) - {bs[i]}) && OutsideSame(old(mem), mem, base)
    {
      ghost var m0 := mem;
      ghost var bs1 := bs[i := bs[i].(free := true)];
      SetFree(b, true, bs, i);
      ghost var m1 := mem;
      WritesKeep(m0, m1, bs, base, i, b);
      FlagTiles(bs, base, i, true);
      FlagLive(bs, base, i);
      Coalesce(b, bs1, i);
      KeptThen(m0, m1, mem, Live(bs), Live(bs1));
    }

    // The part of heap_dealloc that frees the live block at b.
    method Drop(b: nat, ghost i: nat)
      requires Valid() && i < |blocks| && b == blocks[i].addr && !blocks[i].free
      modifies this
      ensures Valid() && blocks == Release(old(blocks), i)
      ensures Kept(old(mem), mem, Live(blocks)) && OutsideSame(old(mem), mem, base)
    {
      assert Hdr(mem, b) == HeaderOf(blocks, i);
      ReleaseTotal(blocks, i);
      ReleaseKeeps(blocks, base, i);
      ReleaseLive(blocks, base, i);
      usedBytes := usedBytes - (Hdr(mem, b).size + HDR);
      MarkAndMerge(b, blocks, i);
      blocks := Release(blocks, i);
    }

    method Memset(d: nat, c: byte, n: nat)
      requires d + n <= |mem|
      modifies this`mem
      ensures mem == Patch(old(mem), d, seq(n, _ => c))
    {
      var i := 0;
      while i < n
        invariant i <= n && mem == Patch(old(mem), d, seq(i, _ => c))
      {
        PatchStep(old(mem), d, seq(i, _ => c), c);
        assert seq(i + 1, _ => c) == seq(i, _ => c) + [c];
        mem := mem[d + i := c];
        i := i + 1;
      }
    }

    // Regions that do not overlap, as the callers guarantee.
    method Memcpy(d: nat, s: nat, n: nat)
      requires d + n <= |mem| && s + n <= |mem| && (d + n <= s || s + n <= d)
      modifies this`mem
      ensures mem == Patch(old(mem), d, old(mem)[s..s + n])
    {
      ghost var m := mem;
      var i := 0;
      while i < n
        invariant i <= n && |mem| == |m| && Copied(m, mem, d, s, i)
      {
        CopyStep(m, mem, d, s, i);
        mem := mem[d + i := mem[s + i]];
        i := i + 1;
      }
      CopyDone(m, mem, d, s, n);
    }

    // The owner of a live block stores bytes inside it.
    method Store(p: nat, off: nat, data: seq<byte>)
      requires Valid() && Owned(p) && off + |data| <= blocks[Find(blocks, p)].size
      modifies this`mem
      ensures Valid() && mem == Patch(old(mem), p + off, data)
      ensures Kept(old(mem), mem, Live(blocks) - {blocks[Find(blocks, p)]}) && OutsideSame(old(mem), mem, base)
    {
      ghost var i := Find(blocks, p);
      Inside(blocks, base, i);
      mem := Patch(mem, p + off, data);
      PayloadWriteDescribed(old(mem), mem, blocks, base, i);
      PayloadWriteKept(old(mem), mem, blocks, base, i);
    }

    // memset over the front of a live block.
    method FillOver(c: nat, v: byte, n: nat, ghost dst: Block)
      requires Valid() && dst in Live(blocks) && c == dst.Ptr() && n <= dst.size
      modifies this`mem
      ensures Valid() && Holds(mem, c, seq(n, _ => v))
      ensures Kept(old(mem), mem, Live(blocks) - {dst}) && OutsideSame(old(mem), mem, base)
    {
      LiveFound(blocks, base, dst);
      Inside(blocks, base, Find(blocks, c));
      Memset(c, v, n);
      PayloadWriteDescribed(old(mem), mem, blocks, base, Find(blocks, c));
      PayloadWriteKept(old(mem), mem, blocks, base, Find(blocks, c));
    }

    // A product for which align_up wraps would make memset run past the block.
    method Kcalloc(n: word, size: word) returns (p: nat)
      requires Valid() && Product(n, size) <= MAX_REQUEST
      modifies this
      ensures Valid() && (blocks, p) == Allocate(old(blocks), Product(n, size))
      ensures p == NULL ==> mem == old(mem)
      ensures p != NULL ==> Owned(p) && blocks[Find(blocks, p)].size >= Product(n, size)
      ensures p != NULL ==> Holds(mem, p, seq(Product(n, size), _ => 0))
      ensures Kept(old(mem), mem, Live(old(blocks))) && OutsideSame(old(mem), mem, base)
    {
      var total := Product(n, size);
      AllocateGives(blocks, base, total);
      AlignUpCovers(total);
      p := Kmalloc(total);
      if p != NULL {
        ghost var m1 := mem;
        ghost var c := blocks[Find(blocks, p)];
        FillOver(p, 0, total, c);
        KeptThen(old(mem), m1, mem, Live(old(blocks)), Live(blocks) - {c});
        assert Live(old(blocks)) * (Live(blocks) - {c}) == Live(old(blocks));
      }
    }

    // memcpy from one live block into another, larger one.
    method CopyOver(b: nat, c: nat, n: nat, ghost src: Block, ghost dst: Block)
      requires Valid() && src in Live(blocks) && dst in Live(blocks) && src != dst
      requires b == src.Ptr() && c == dst.Ptr() && n == src.size <= dst.size
      modifies this`mem
      ensures Valid() && Holds(mem, c, old(mem)[b..src.End()])
      ensures Kept(old(mem), mem, Live(blocks) - {dst}) && OutsideSame(old(mem), mem, base)
    {
      LiveApart(blocks, base, src, dst);
      LiveApart(blocks, base, dst, src);
      LiveFound(blocks, base, dst);
      Memcpy(c, b, n);
      PayloadWriteDescribed(old(mem), mem, blocks, base, Find(blocks, c));
      PayloadWriteKept(old(mem), mem, blocks, base, Find(blocks, c));
    }

    // Copy the old block b into the new block c and free the old one.
    method Relocate(p: nat, q: nat, ghost b: Block, ghost c: Block)
      requires Valid() && b in Live(blocks) && c in Live(blocks) && b != c
      requires p == b.Ptr() && q == c.Ptr() && b.size <= c.size
      modifies this
      ensures Valid() && blocks == Deallocate(old(blocks), p)
      ensures b.End() <= |old(mem)| && Holds(mem, q, old(mem)[p..b.End()])
      ensures Kept(old(mem), mem, Live(old(blocks)) - {b, c}) && OutsideSame(old(mem), mem, base)
    {
      LiveApart(blocks, base, b, c);
      LiveApart(blocks, base, c, b);
      LiveFound(blocks, base, b);
      assert Hdr(mem, p - HDR) == HeaderOf(blocks, Find(blocks, p));
      DeallocateTakes(blocks, base, p);
      ghost var cs, m1 := blocks, mem;
      CopyOver(p, q, Hdr(mem, p - HDR).size, b, c);
      ghost var m2 := mem;
      Kfree(p);
      RelocateKept(m1, m2, mem, Live(cs), b, c, m1[p..b.End()]);
    }

    // krealloc's slow path: a new block, the bytes of the old block b copied over, b freed.
    method Move(p: nat, request: word, ghost b: Block) returns (q: nat)
      requires Valid() && p != NULL && Owned(p) && b == blocks[Find(blocks, p)]
      requires b.size < request <= MAX_REQUEST && b.End() <= |mem|
      modifies this
      ensures Valid() && (blocks, q) == Reallocate(old(blocks), p, request)
      ensures q == NULL ==> mem == old(mem)
      ensures q != NULL ==> Owned(q) && blocks[Find(blocks, q)].size >= request
      ensures q != NULL ==> Holds(mem, q, old(mem)[p..b.End()])
      ensures Kept(old(mem), mem, Live(old(blocks)) - {b}) && OutsideSame(old(mem), mem, base)
    {
      ghost var bs, m0 := blocks, mem;
      AllocateGives(bs, base, request);
      AlignUpCovers(request);
      q := Kmalloc(request);
      if q != NULL {
        ReallocateMoves(bs, base, p, request);
        ghost var cs, m1 := blocks, mem;
        ghost var c := cs[Find(cs, q)];
        Relocate(p, q, b, c);
        MoveKept(m0, m1, mem, Live(bs), b, c);
      }
    }

    // krealloc of a live block to a positive size: in place if there is room, else by moving.
    method Resize(p: nat, request: word) returns (q: nat)
      requires Valid() && p != NULL && Owned(p) && 0 < request <= MAX_REQUEST
      modifies this
      ensures Valid() && (blocks, q) == Reallocate(old(blocks), p, request)
      ensures q == NULL ==> mem == old(mem)
      ensures q != NULL ==> Owned(q) && blocks[Find(blocks, q)].size >= request
      ensures q != NULL ==>
        var b := old(blocks)[Find(old(blocks), p)]; b.End() <= |old(mem)| && Holds(mem, q, old(mem)[p..b.End()])
      ensures Kept(old(mem), mem, Live(old(blocks)) - {old(blocks)[Find(old(blocks), p)]})
        && OutsideSame(old(mem), mem, base)
    {
      ghost var b := blocks[Find(blocks, p)];
      Inside(blocks, base, Find(blocks, p));
      assert Hdr(mem, p - HDR) == HeaderOf(blocks, Find(blocks, p));
      if Hdr(mem, p - HDR).size >= request { return p; }
      q := Move(p, request, b);
    }

    // A request for which align_up wraps would make memcpy run past the new block.
    method Krealloc(p: nat, request: word) returns (q: nat)
      requires Valid() && (p == NULL || Owned(p)) && request <= MAX_REQUEST
      modifies this
      ensures Valid() && (blocks, q) == Reallocate(old(blocks), p, request)
      ensures q == NULL && request > 0 ==> mem == old(mem)
      ensures q != NULL ==> Owned(q) && blocks[Find(blocks, q)].size >= request
      ensures p != NULL && q != NULL ==>
        var b := old(blocks)[Find(old(blocks), p)]; b.End() <= |old(mem)| && Holds(mem, q, old(mem)[p..b.End()])
      ensures Kept(old(mem), mem, set b | b in Live(old(blocks)) && b.Ptr() != p) && OutsideSame(old(mem), mem, base)
    {
      if p == NULL {
        AllocateGives(blocks, base, request);
        AlignUpCovers(request);
        q := Kmalloc(request);
        return;
      }
      if request == 0 {
        DeallocateTakes(blocks, base, p);
        Kfree(p);
        return NULL;
      }
      q := Resize(p, request);
    }
  }
}
