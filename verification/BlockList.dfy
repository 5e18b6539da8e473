// The allocator's block list as a value: what the headers in the arena describe,
// and the two list transformations of kernel/mm/heap.c, splitting and coalescing.
module BlockList {
  const HDR: nat := 16
  const ALIGN: nat := 8
  const HEAP_SIZE: nat := 8 * 1024 * 1024

  // A header at `addr` owning the `size` bytes that follow it.
  datatype Block = Block(addr: nat, size: nat, free: bool) {
    function Ptr(): nat { addr + HDR }
    function End(): nat { addr + HDR + size }
  }

  // align_up on a 32-bit size_t: the sum wraps before the mask is applied.
  function AlignUp(n: nat): (r: nat) {
    (n + (ALIGN - 1)) % 0x1_0000_0000 / ALIGN * ALIGN
  }

  predicate Touch(bs: seq<Block>, i: nat)
    requires 0 < i < |bs|
  {
    bs[i].addr == bs[i - 1].End()
  }

  // The blocks lie back to back from `base` to the end of the arena.
  ghost predicate Tiles(bs: seq<Block>, base: nat) {
    && |bs| > 0
    && bs[0].addr == base
    && (forall i {:trigger Touch(bs, i)} :: 0 < i < |bs| ==> Touch(bs, i))
    && bs[|bs| - 1].End() == base + HEAP_SIZE
  }

  predicate EightAligned(n: int) {
    n % ALIGN == 0
  }

  ghost predicate Aligned(bs: seq<Block>) {
    forall i {:trigger EightAligned(bs[i].size)} :: 0 <= i < |bs| ==> EightAligned(bs[i].size)
  }

  predicate BothFree(bs: seq<Block>, i: nat)
    requires 0 < i < |bs|
  {
    bs[i - 1].free && bs[i].free
  }

  ghost predicate NoFreeNeighbours(bs: seq<Block>) {
    forall i {:trigger BothFree(bs, i)} :: 0 < i < |bs| ==> !BothFree(bs, i)
  }

  ghost predicate WellFormed(bs: seq<Block>, base: nat) {
    Tiles(bs, base) && Aligned(bs) && NoFreeNeighbours(bs)
  }

  function Initial(base: nat): seq<Block> {
    [Block(base, HEAP_SIZE - HDR, true)]
  }

  // Bytes taken by the blocks whose free flag is f, headers included.
  function Total(bs: seq<Block>, f: bool): nat {
    if bs == [] then 0
    else Total(bs[..|bs| - 1], f) + Weight(bs[|bs| - 1], f)
  }

  function Weight(b: Block, f: bool): nat {
    if b.free == f then b.size + HDR else 0
  }

  predicate Fits(b: Block, size: nat) {
    b.free && b.size >= size
  }

  // Index of the lowest-address block that fits, or |bs|.
  function FirstFit(bs: seq<Block>, size: nat): (i: nat)
    ensures i <= |bs|
    ensures i < |bs| ==> Fits(bs[i], size)
    ensures forall j :: 0 <= j < i ==> !Fits(bs[j], size)
  {
    if bs == [] then 0
    else if Fits(bs[0], size) then 0
    else 1 + FirstFit(bs[1..], size)
  }

  lemma {:induction false} FirstFitIs(bs: seq<Block>, size: nat, i: nat)
    requires i <= |bs| && forall j :: 0 <= j < i ==> !Fits(bs[j], size)
    requires i < |bs| ==> Fits(bs[i], size)
    ensures FirstFit(bs, size) == i
  {
  }

  predicate Splits(b: Block, size: nat) {
    b.size >= size + HDR + ALIGN
  }

  // The used front and the free back that block b is cut into.
  function Cut(bs: seq<Block>, i: nat, size: nat): seq<Block>
    requires i < |bs| && Splits(bs[i], size)
  {
    var b := bs[i];
    bs[..i] + [Block(b.addr, size, false), Block(b.addr + HDR + size, b.size - size - HDR, true)] + bs[i + 1..]
  }

  function Carve(bs: seq<Block>, i: nat, size: nat): seq<Block>
    requires i < |bs|
  {
    if Splits(bs[i], size) then Cut(bs, i, size) else bs[i := bs[i].(free := false)]
  }

  // What kmalloc does to the list, and the pointer it returns (0 for none).
  function Allocate(bs: seq<Block>, request: nat): (seq<Block>, nat) {
    var i := FirstFit(bs, AlignUp(request));
    if request == 0 || i == |bs| then (bs, 0)
    else (Carve(bs, i, AlignUp(request)), bs[i].Ptr())
  }

  // Block i absorbs its successor.
  function Absorb(bs: seq<Block>, i: nat): seq<Block>
    requires i + 1 < |bs|
  {
    bs[..i] + [bs[i].(size := bs[i].size + HDR + bs[i + 1].size)] + bs[i + 2..]
  }

  function MergeNext(bs: seq<Block>, i: nat): seq<Block>
    requires i < |bs|
  {
    if i + 1 < |bs| && bs[i + 1].free then Absorb(bs, i) else bs
  }

  function MergePrev(bs: seq<Block>, i: nat): seq<Block>
    requires i < |bs|
  {
    if i > 0 && bs[i - 1].free then Absorb(bs, i - 1) else bs
  }

  function Release(bs: seq<Block>, i: nat): seq<Block>
    requires i < |bs|
  {
    MergePrev(MergeNext(bs[i := bs[i].(free := true)], i), i)
  }

  // n * size in 32-bit arithmetic.
  function Product(n: nat, size: nat): (r: nat)
    ensures r < 0x1_0000_0000
    ensures r == n * size <==> n * size < 0x1_0000_0000
  {
    n * size % 0x1_0000_0000
  }

  // The block whose payload starts at p, or |bs|.
  function Find(bs: seq<Block>, p: nat): (i: nat)
    ensures i <= |bs|
    ensures i < |bs| ==> bs[i].Ptr() == p
    ensures forall j :: 0 <= j < i ==> bs[j].Ptr() != p
  {
    if bs == [] || bs[0].Ptr() == p then 0 else 1 + Find(bs[1..], p)
  }

  predicate IsLive(bs: seq<Block>, p: nat) {
    Find(bs, p) < |bs| && !bs[Find(bs, p)].free
  }

  // kfree: NULL and a block that is free already are left alone.
  function Deallocate(bs: seq<Block>, p: nat): seq<Block> {
    if p == 0 || !IsLive(bs, p) then bs else Release(bs, Find(bs, p))
  }

  // krealloc, with the pointer it returns.
  function Reallocate(bs: seq<Block>, p: nat, request: nat): (seq<Block>, nat) {
    if p == 0 then Allocate(bs, request)
    else if request == 0 then (Deallocate(bs, p), 0)
    else if IsLive(bs, p) && bs[Find(bs, p)].size >= request then (bs, p)
    else
      var (cs, q) := Allocate(bs, request);
      if q == 0 then (bs, 0) else (Deallocate(cs, p), q)
  }

  // ---- Geometry of a tiling ----

  lemma Ordered(bs: seq<Block>, base: nat, i: nat, j: nat)
    requires Tiles(bs, base) && i < j < |bs|
    ensures bs[i].End() <= bs[j].addr
    decreases j
  {
    assert Touch(bs, j);
    if i + 1 < j {
      Ordered(bs, base, i, j - 1);
    }
  }

  lemma Inside(bs: seq<Block>, base: nat, i: nat)
    requires Tiles(bs, base) && i < |bs|
    ensures base <= bs[i].addr && bs[i].End() <= base + HEAP_SIZE
  {
    if i > 0 { Ordered(bs, base, 0, i); }
    if i < |bs| - 1 { Ordered(bs, base, i, |bs| - 1); }
  }

  lemma AlignedSum(a: int, b: int)
    requires EightAligned(a) && EightAligned(b)
    ensures EightAligned(a + HDR + b) && EightAligned(a - b - HDR)
  {
  }

  lemma AddressesAligned(bs: seq<Block>, base: nat, i: nat)
    requires Tiles(bs, base) && Aligned(bs) && EightAligned(base) && i < |bs|
    ensures EightAligned(bs[i].addr)
    decreases i
  {
    if i > 0 {
      assert Touch(bs, i) && EightAligned(bs[i - 1].size);
      AddressesAligned(bs, base, i - 1);
      AlignedSum(bs[i - 1].addr, bs[i - 1].size);
    }
  }

  lemma {:induction false} TotalAppend(a: seq<Block>, b: seq<Block>, f: bool)
    ensures Total(a + b, f) == Total(a, f) + Total(b, f)
    decreases |b|
  {
    if b == [] {
      assert a + b == a;
    } else {
      var n := |b| - 1;
      assert (a + b)[..|a + b| - 1] == a + b[..n];
      TotalAppend(a, b[..n], f);
    }
  }

  lemma {:induction false} TotalOne(b: Block, f: bool)
    ensures Total([b], f) == Weight(b, f)
  {
    assert [b][..0] == [];
  }

  lemma {:induction false} TotalAt(bs: seq<Block>, i: nat, f: bool)
    requires i < |bs|
    ensures Total(bs, f) == Total(bs[..i], f) + Weight(bs[i], f) + Total(bs[i + 1..], f)
  {
    assert bs == bs[..i] + ([bs[i]] + bs[i + 1..]);
    TotalAppend(bs[..i], [bs[i]] + bs[i + 1..], f);
    TotalAppend([bs[i]], bs[i + 1..], f);
    TotalOne(bs[i], f);
  }

  lemma {:induction false} TotalsFillArena(bs: seq<Block>, base: nat)
    requires |bs| > 0 && bs[0].addr == base
    requires forall i {:trigger Touch(bs, i)} :: 0 < i < |bs| ==> Touch(bs, i)
    ensures Total(bs, true) + Total(bs, false) == bs[|bs| - 1].End() - base
    decreases |bs|
  {
    var n := |bs| - 1;
    if n > 0 {
      assert forall i :: 0 < i < n ==> Touch(bs[..n], i) == Touch(bs, i);
      TotalsFillArena(bs[..n], base);
      assert Touch(bs, n);
    } else {
      assert bs[..0] == [];
    }
  }

  // ---- What the two transformations keep ----

  lemma CutTiles(bs: seq<Block>, base: nat, i: nat, size: nat)
    requires Tiles(bs, base) && i < |bs| && Splits(bs[i], size)
    ensures Tiles(Cut(bs, i, size), base)
  {
    var cs := Cut(bs, i, size);
    forall j | 0 < j < |cs| ensures Touch(cs, j) {
      if j <= i { assert Touch(bs, j); } else if j > i + 1 { assert Touch(bs, j - 1); }
    }
  }

  lemma CarveNoFreeNeighbours(bs: seq<Block>, i: nat, size: nat)
    requires NoFreeNeighbours(bs) && i < |bs| && bs[i].free
    ensures NoFreeNeighbours(Carve(bs, i, size))
  {
    var cs := Carve(bs, i, size);
    var d := |cs| - |bs|;
    forall j | 0 < j < |cs| ensures !BothFree(cs, j) {
      if j <= i { assert !BothFree(bs, j); } else if j > i + d { assert !BothFree(bs, j - d); }
    }
  }

  lemma CarveAligned(bs: seq<Block>, i: nat, size: nat)
    requires Aligned(bs) && i < |bs| && EightAligned(size)
    ensures Aligned(Carve(bs, i, size))
  {
    var cs := Carve(bs, i, size);
    forall j | 0 <= j < |cs| ensures EightAligned(cs[j].size) {
      assert EightAligned(bs[i].size);
      AlignedSum(bs[i].size, size);
      if j < i || |cs| == |bs| {
        assert EightAligned(bs[j].size);
      } else if j > i + 1 {
        assert EightAligned(bs[j - 1].size);
      }
    }
  }

  lemma {:induction false} CutTotal(bs: seq<Block>, i: nat, size: nat)
    requires i < |bs| && bs[i].free && Splits(bs[i], size)
    ensures Total(Cut(bs, i, size), false) == Total(bs, false) + size + HDR
  {
    var cs := Cut(bs, i, size);
    TotalAt(bs, i, false);
    TotalAt(cs, i, false);
    TotalAt(cs[i + 1..], 0, false);
    assert cs[..i] == bs[..i] && cs[i + 1..][..0] == [] && cs[i + 1..][1..] == bs[i + 1..];
  }

  lemma FlagTotal(bs: seq<Block>, i: nat, f: bool)
    requires i < |bs| && bs[i].free != f
    ensures Total(bs[i := bs[i].(free := f)], false) + Weight(bs[i], false)
         == Total(bs, false) + Weight(bs[i].(free := f), false)
  {
    var cs := bs[i := bs[i].(free := f)];
    TotalAt(bs, i, false);
    TotalAt(cs, i, false);
    assert cs[..i] == bs[..i] && cs[i + 1..] == bs[i + 1..];
  }

  // What allocation adds to the live total, and the room it gives.
  lemma {:induction false} CarveTotal(bs: seq<Block>, i: nat, size: nat)
    requires i < |bs| && Fits(bs[i], size)
    ensures var b := Carve(bs, i, size)[i];
      && !b.free && b.addr == bs[i].addr && b.size >= size
      && Total(Carve(bs, i, size), false) == Total(bs, false) + b.size + HDR
  {
    if Splits(bs[i], size) { CutTotal(bs, i, size); } else { FlagTotal(bs, i, false); }
  }

  lemma AbsorbTiles(bs: seq<Block>, base: nat, i: nat)
    requires Tiles(bs, base) && i + 1 < |bs|
    ensures Tiles(Absorb(bs, i), base)
  {
    var cs := Absorb(bs, i);
    assert Touch(bs, i + 1);
    forall j | 0 < j < |cs| ensures Touch(cs, j) {
      if j <= i { assert Touch(bs, j); } else { assert Touch(bs, j + 1); }
    }
  }

  lemma AbsorbAligned(bs: seq<Block>, i: nat)
    requires Aligned(bs) && i + 1 < |bs|
    ensures Aligned(Absorb(bs, i))
  {
    var cs := Absorb(bs, i);
    forall j | 0 <= j < |cs| ensures EightAligned(cs[j].size) {
      assert EightAligned(bs[if j <= i then j else j + 1].size);
      if j == i {
        assert EightAligned(bs[i + 1].size);
        AlignedSum(bs[i].size, bs[i + 1].size);
      }
    }
  }

  lemma {:induction false} AbsorbTotal(bs: seq<Block>, i: nat)
    requires i + 1 < |bs| && bs[i].free && bs[i + 1].free
    ensures Total(Absorb(bs, i), false) == Total(bs, false)
  {
    var cs := Absorb(bs, i);
    TotalAt(cs, i, false);
    TotalAt(bs, i, false);
    TotalAt(bs[i + 1..], 0, false);
    assert cs[..i] == bs[..i] && bs[i + 1..][..0] == [] && bs[i + 1..][1..] == cs[i + 1..];
  }

  lemma FlagTiles(bs: seq<Block>, base: nat, i: nat, f: bool)
    requires Tiles(bs, base) && Aligned(bs) && i < |bs|
    ensures Tiles(bs[i := bs[i].(free := f)], base) && Aligned(bs[i := bs[i].(free := f)])
  {
    var cs := bs[i := bs[i].(free := f)];
    forall j | 0 < j < |cs| ensures Touch(cs, j) { assert Touch(bs, j); }
    forall j | 0 <= j < |cs| ensures EightAligned(cs[j].size) { assert EightAligned(bs[j].size); }
  }

  lemma MergeTiles(bs: seq<Block>, base: nat, i: nat)
    requires Tiles(bs, base) && Aligned(bs) && i < |bs|
    ensures Tiles(MergeNext(bs, i), base) && Aligned(MergeNext(bs, i))
    ensures Tiles(MergePrev(bs, i), base) && Aligned(MergePrev(bs, i))
  {
    if i + 1 < |bs| && bs[i + 1].free { AbsorbTiles(bs, base, i); AbsorbAligned(bs, i); }
    if i > 0 && bs[i - 1].free { AbsorbTiles(bs, base, i - 1); AbsorbAligned(bs, i - 1); }
  }

  // Both neighbours are looked at, so no two free blocks touch afterwards.
  lemma ReleaseNoFreeNeighbours(bs: seq<Block>, i: nat)
    requires NoFreeNeighbours(bs) && i < |bs|
    ensures NoFreeNeighbours(Release(bs, i))
  {
    var s0 := bs[i := bs[i].(free := true)];
    var s1 := MergeNext(s0, i);
    forall j | 0 < j < |s1| && j != i ensures !BothFree(s1, j) {
      assert !BothFree(bs, if j < i then j else j + |bs| - |s1|);
      if j == i + 1 && |s1| == |s0| { assert !bs[i + 1].free; }
    }
    var s2 := MergePrev(s1, i);
    if i > 0 && s1[i - 1].free {
      forall j | 0 < j < |s2| ensures !BothFree(s2, j) {
        assert !BothFree(s1, if j < i then j else j + 1);
      }
    }
  }

  lemma {:induction false} ReleaseTotal(bs: seq<Block>, i: nat)
    requires i < |bs| && !bs[i].free
    ensures Total(Release(bs, i), false) == Total(bs, false) - bs[i].size - HDR
  {
    FlagTotal(bs, i, true);
    var s0 := bs[i := bs[i].(free := true)];
    if i + 1 < |s0| && s0[i + 1].free { AbsorbTotal(s0, i); }
    var s1 := MergeNext(s0, i);
    if i > 0 && s1[i - 1].free { AbsorbTotal(s1, i - 1); }
  }

  lemma CarveKeeps(bs: seq<Block>, base: nat, i: nat, size: nat)
    requires WellFormed(bs, base) && i < |bs| && Fits(bs[i], size) && EightAligned(size)
    ensures WellFormed(Carve(bs, i, size), base)
  {
    if Splits(bs[i], size) { CutTiles(bs, base, i, size); } else { FlagTiles(bs, base, i, false); }
    CarveNoFreeNeighbours(bs, i, size);
    CarveAligned(bs, i, size);
  }

  lemma ReleaseKeeps(bs: seq<Block>, base: nat, i: nat)
    requires WellFormed(bs, base) && i < |bs|
    ensures WellFormed(Release(bs, i), base)
  {
    var s0 := bs[i := bs[i].(free := true)];
    FlagTiles(bs, base, i, true);
    MergeTiles(s0, base, i);
    MergeTiles(MergeNext(s0, i), base, i);
    ReleaseNoFreeNeighbours(bs, i);
  }

  // With nothing live, coalescing has restored the single block heap_init made.
  lemma AllFreeIsInitial(bs: seq<Block>, base: nat)
    requires WellFormed(bs, base) && forall i :: 0 <= i < |bs| ==> bs[i].free
    ensures bs == Initial(base)
  {
    assert |bs| > 1 ==> !BothFree(bs, 1);
  }

  // ---- The live blocks ----

  ghost function Live(bs: seq<Block>): set<Block> {
    set b | b in bs && !b.free
  }

  // Addresses of the live blocks' payloads.
  ghost function LivePtrs(bs: seq<Block>): set<nat> {
    set b | b in Live(bs) :: b.Ptr()
  }

  lemma CarveLive(bs: seq<Block>, base: nat, i: nat, size: nat)
    requires Tiles(bs, base) && i < |bs| && Fits(bs[i], size)
    ensures var b := Carve(bs, i, size)[i]; Live(Carve(bs, i, size)) == Live(bs) + {b} && b !in Live(bs)
  {
    var cs := Carve(bs, i, size);
    var d := |cs| - |bs|;
    forall j | 0 <= j < |bs| && !bs[j].free ensures bs[j] in cs && bs[j].addr != bs[i].addr {
      assert cs[if j < i then j else j + d] == bs[j];
      if j < i { Ordered(bs, base, j, i); } else { Ordered(bs, base, i, j); }
    }
    forall j | 0 <= j < |cs| && !cs[j].free ensures cs[j] in Live(bs) + {cs[i]} {
      if j < i { assert cs[j] == bs[j]; } else if j > i + d { assert cs[j] == bs[j - d]; }
    }
  }

  lemma AbsorbLive(bs: seq<Block>, i: nat)
    requires i + 1 < |bs| && bs[i].free && bs[i + 1].free
    ensures Live(Absorb(bs, i)) == Live(bs)
  {
    var cs := Absorb(bs, i);
    forall j | 0 <= j < |bs| && !bs[j].free ensures bs[j] in cs {
      assert cs[if j < i then j else j - 1] == bs[j];
    }
    forall j | 0 <= j < |cs| && !cs[j].free ensures cs[j] in bs {
      assert cs[j] == bs[if j < i then j else j + 1];
    }
  }

  lemma MergeLive(bs: seq<Block>, i: nat)
    requires i < |bs| && bs[i].free
    ensures Live(MergeNext(bs, i)) == Live(bs) && Live(MergePrev(bs, i)) == Live(bs)
  {
    if i + 1 < |bs| && bs[i + 1].free { AbsorbLive(bs, i); }
    if i > 0 && bs[i - 1].free { AbsorbLive(bs, i - 1); }
  }

  lemma FlagLive(bs: seq<Block>, base: nat, i: nat)
    requires Tiles(bs, base) && i < |bs|
    ensures Live(bs[i := bs[i].(free := true)]) == Live(bs) - {bs[i]}
  {
    var s0 := bs[i := bs[i].(free := true)];
    forall j | 0 <= j < |bs| && j != i ensures bs[j] != bs[i] && bs[j] == s0[j] {
      if j < i { Ordered(bs, base, j, i); } else { Ordered(bs, base, i, j); }
    }
  }

  lemma ReleaseLive(bs: seq<Block>, base: nat, i: nat)
    requires Tiles(bs, base) && i < |bs|
    ensures Live(Release(bs, i)) == Live(bs) - {bs[i]}
  {
    var s0 := bs[i := bs[i].(free := true)];
    FlagLive(bs, base, i);
    MergeLive(s0, i);
    MergeLive(MergeNext(s0, i), i);
  }

  // Pointers name blocks: Find returns the index of the only block with that payload.
  lemma {:induction false} FindIs(bs: seq<Block>, base: nat, i: nat)
    requires Tiles(bs, base) && i < |bs|
    ensures Find(bs, bs[i].Ptr()) == i
  {
    var f := Find(bs, bs[i].Ptr());
    if f < i { Ordered(bs, base, f, i); }
  }

  // ---- The 32-bit request ----

  const MAX_REQUEST: nat := 0xFFFF_FFF8

  // The rounded size covers the request exactly when the addition did not wrap;
  // a wrapped request is rounded to 0.
  lemma AlignUpCovers(n: nat)
    requires n < 0x1_0000_0000
    ensures EightAligned(AlignUp(n))
    ensures AlignUp(n) >= n <==> n <= MAX_REQUEST
    ensures n <= MAX_REQUEST ==> AlignUp(n) < n + ALIGN
    ensures n > MAX_REQUEST ==> AlignUp(n) == 0
  {
  }

  lemma AlignUpLeast(n: nat, size: nat)
    requires n <= MAX_REQUEST && EightAligned(size)
    ensures size >= AlignUp(n) <==> size >= n
  {
  }

  // A successful allocation makes one new live block, at the lowest free block with room.
  lemma AllocateGives(bs: seq<Block>, base: nat, request: nat)
    requires WellFormed(bs, base) && EightAligned(base) && request < 0x1_0000_0000
    ensures WellFormed(Allocate(bs, request).0, base)
    ensures var (cs, p) := Allocate(bs, request);
      if p == 0 then cs == bs
      else
        && p >= HDR && IsLive(cs, p) && EightAligned(p)
        && cs[Find(cs, p)].size >= AlignUp(request)
        && Live(cs) == Live(bs) + {cs[Find(cs, p)]} && cs[Find(cs, p)] !in Live(bs)
        && !IsLive(bs, p)
  {
    var (cs, p) := Allocate(bs, request);
    var i := FirstFit(bs, AlignUp(request));
    if request != 0 && i < |bs| {
      AlignUpCovers(request);
      CarveKeeps(bs, base, i, AlignUp(request));
      CarveTotal(bs, i, AlignUp(request));
      CarveLive(bs, base, i, AlignUp(request));
      FindIs(cs, base, i);
      FindIs(bs, base, i);
      AddressesAligned(bs, base, i);
      AlignedSum(bs[i].addr, 0);
    }
  }

  // kmalloc fails on a positive request exactly when no free block is large enough,
  // and otherwise uses the first that is.
  lemma AllocateFails(bs: seq<Block>, request: nat)
    requires Aligned(bs) && 0 < request <= MAX_REQUEST
    ensures Allocate(bs, request).1 == 0 <==> forall b :: b in bs ==> !Fits(b, request)
    ensures Allocate(bs, request).1 != 0 ==>
      exists i :: 0 <= i < |bs| && Fits(bs[i], request) && Allocate(bs, request).1 == bs[i].Ptr()
               && forall j :: 0 <= j < i ==> !Fits(bs[j], request)
  {
    forall j | 0 <= j < |bs| ensures Fits(bs[j], request) == Fits(bs[j], AlignUp(request)) {
      assert EightAligned(bs[j].size);
      AlignUpLeast(request, bs[j].size);
    }
    var i := FirstFit(bs, AlignUp(request));
    if i < |bs| { assert Fits(bs[i], request) && bs[i] in bs; }
  }

  // A request in the wrapped range succeeds on any heap with a free block, and where that
  // block is large enough to split the caller gets no room at all.
  lemma {:induction false} WrappedRequest(bs: seq<Block>, request: nat)
    requires MAX_REQUEST < request < 0x1_0000_0000
    ensures Allocate(bs, request).1 != 0 <==> exists i :: 0 <= i < |bs| && bs[i].free
    ensures var i := FirstFit(bs, 0);
      i < |bs| && Splits(bs[i], 0) ==> Allocate(bs, request).0[i] == Block(bs[i].addr, 0, false)
  {
    AlignUpCovers(request);
    var i := FirstFit(bs, 0);
    assert forall j :: 0 <= j < |bs| ==> Fits(bs[j], 0) == bs[j].free;
    if i < |bs| { assert bs[i].free; }
  }

  // The block handed out covers the request if and only if rounding it up did not wrap.
  lemma AllocatedSizeIff(bs: seq<Block>, base: nat, request: nat)
    requires WellFormed(bs, base) && EightAligned(base) && request < 0x1_0000_0000
    ensures var (cs, p) := Allocate(bs, request);
      p != 0 ==>
        && IsLive(cs, p) && cs[Find(cs, p)].size <= HEAP_SIZE
        && (cs[Find(cs, p)].size >= request <==> request <= MAX_REQUEST)
  {
    var (cs, p) := Allocate(bs, request);
    AllocateGives(bs, base, request);
    AlignUpCovers(request);
    if p != 0 { Inside(cs, base, Find(cs, p)); }
  }

  // What this means for kcalloc, which zeroes n * size bytes from p on: it stays within its block
  // if and only if the product does not wrap align_up, and otherwise runs past the whole arena.
  lemma ZeroingFitsIff(bs: seq<Block>, base: nat, n: nat, size: nat)
    requires WellFormed(bs, base) && EightAligned(base)
    ensures var r := Product(n, size); var (cs, p) := Allocate(bs, r);
      p != 0 ==>
        && IsLive(cs, p)
        && (p + r <= cs[Find(cs, p)].End() <==> r <= MAX_REQUEST)
        && (r > MAX_REQUEST ==> p + r > base + HEAP_SIZE)
  {
    var r := Product(n, size);
    var (cs, p) := Allocate(bs, r);
    AllocatedSizeIff(bs, base, r);
    AllocateGives(bs, base, r);
    if p != 0 { Inside(cs, base, Find(cs, p)); }
  }

  // Room in the block a wrapped request gets.
  function WrappedRoom(b: Block): nat {
    if Splits(b, 0) then 0 else b.size
  }

  // ... and for krealloc, which copies the b.size bytes of the old block: they fit the new one if
  // and only if the request does not wrap, or the first free block is too small to split and
  // happens to have room for them.
  lemma {:induction false} CopyFitsIff(bs: seq<Block>, base: nat, p: nat, request: nat)
    requires WellFormed(bs, base) && EightAligned(base) && request < 0x1_0000_0000
    requires IsLive(bs, p) && bs[Find(bs, p)].size < request && Allocate(bs, request).1 != 0
    ensures var (cs, q) := Allocate(bs, request);
      var b, i := bs[Find(bs, p)], FirstFit(bs, 0);
      && IsLive(cs, q)
      && (request > MAX_REQUEST ==> i < |bs|)
      && (b.size <= cs[Find(cs, q)].size <==> request <= MAX_REQUEST || b.size <= WrappedRoom(bs[i]))
      && (request > MAX_REQUEST && b.size >= HDR + ALIGN ==> b.size > cs[Find(cs, q)].size)
  {
    AllocatedSizeIff(bs, base, request);
    AlignUpCovers(request);
    if request > MAX_REQUEST {
      var (cs, q) := Allocate(bs, request);
      var i := FirstFit(bs, 0);
      CarveKeeps(bs, base, i, 0);
      FindIs(cs, base, i);
    }
  }

  // Freeing removes exactly the block named by the pointer from the live ones.
  lemma {:induction false} DeallocateTakes(bs: seq<Block>, base: nat, p: nat)
    requires WellFormed(bs, base)
    ensures WellFormed(Deallocate(bs, p), base)
    ensures p != 0 && IsLive(bs, p) ==> Live(Deallocate(bs, p)) == Live(bs) - {bs[Find(bs, p)]}
    ensures p == 0 || !IsLive(bs, p) ==> Deallocate(bs, p) == bs
  {
    var i := Find(bs, p);
    if p != 0 && IsLive(bs, p) {
      ReleaseKeeps(bs, base, i);
      ReleaseLive(bs, base, i);
    }
  }

  // A block stays live, at its address, while others come and go.
  lemma {:induction false} LiveFound(bs: seq<Block>, base: nat, b: Block)
    requires Tiles(bs, base) && b in Live(bs)
    ensures IsLive(bs, b.Ptr()) && bs[Find(bs, b.Ptr())] == b
  {
    var i :| 0 <= i < |bs| && bs[i] == b;
    FindIs(bs, base, i);
  }

  lemma LiveApart(bs: seq<Block>, base: nat, b: Block, c: Block)
    requires Tiles(bs, base) && b in Live(bs) && c in Live(bs) && b != c
    ensures b.End() <= c.addr || c.End() <= b.addr
    ensures base <= b.addr && b.End() <= base + HEAP_SIZE
  {
    var i :| 0 <= i < |bs| && bs[i] == b;
    var j :| 0 <= j < |bs| && bs[j] == c;
    Inside(bs, base, i);
    if i < j { Ordered(bs, base, i, j); } else { Ordered(bs, base, j, i); }
  }

  // The lists krealloc passes through when it moves block b = bs[Find(bs, p)].
  lemma {:induction false} ReallocateMoves(bs: seq<Block>, base: nat, p: nat, request: nat)
    requires WellFormed(bs, base) && EightAligned(base) && request < 0x1_0000_0000
    requires p != 0 && IsLive(bs, p) && Allocate(bs, request).1 != 0
    ensures IsLive(Allocate(bs, request).0, Allocate(bs, request).1)
    ensures var (cs, q) := Allocate(bs, request);
      var b, c := bs[Find(bs, p)], cs[Find(cs, q)];
      && b in Live(cs) && c in Live(cs) && b != c
      && IsLive(cs, p) && cs[Find(cs, p)] == b
      && WellFormed(Deallocate(cs, p), base)
      && Live(Deallocate(cs, p)) == Live(bs) - {b} + {c}
      && IsLive(Deallocate(cs, p), q) && Deallocate(cs, p)[Find(Deallocate(cs, p), q)] == c
  {
    var (cs, q) := Allocate(bs, request);
    AllocateGives(bs, base, request);
    var b, c := bs[Find(bs, p)], cs[Find(cs, q)];
    assert b in Live(bs);
    LiveFound(cs, base, b);
    DeallocateTakes(cs, base, p);
    LiveFound(Deallocate(cs, p), base, c);
  }

  // In place, by moving, by freeing or not at all, krealloc leaves a well-formed list.
  lemma ReallocateKeeps(bs: seq<Block>, base: nat, p: nat, request: nat)
    requires WellFormed(bs, base) && EightAligned(base) && request < 0x1_0000_0000 && (p == 0 || IsLive(bs, p))
    ensures WellFormed(Reallocate(bs, p, request).0, base)
  {
    AllocateGives(bs, base, request);
    DeallocateTakes(bs, base, p);
    if p != 0 && Allocate(bs, request).1 != 0 { ReallocateMoves(bs, base, p, request); }
  }

  // ... and every live block but the one named by p as it was.
  lemma ReallocateKeepsOthers(bs: seq<Block>, base: nat, p: nat, request: nat, b: Block)
    requires WellFormed(bs, base) && EightAligned(base) && request < 0x1_0000_0000 && (p == 0 || IsLive(bs, p))
    requires b in Live(bs) && b.Ptr() != p
    ensures b in Live(Reallocate(bs, p, request).0)
  {
    AllocateGives(bs, base, request);
    DeallocateTakes(bs, base, p);
    if p != 0 && Allocate(bs, request).1 != 0 { ReallocateMoves(bs, base, p, request); }
  }
}
