// What every run of kmalloc, kcalloc, krealloc and kfree keeps, from heap_init on.
module HeapRuns {
  import opened BlockList
  import opened Heap

  datatype Call = Malloc(request: nat) | Calloc(n: nat, size: nat) | Realloc(p: nat, request: nat) | Free(p: nat)

  function Step(bs: seq<Block>, c: Call): seq<Block> {
    match c
    case Malloc(request) => Allocate(bs, request).0
    case Calloc(n, size) => Allocate(bs, Product(n, size)).0
    case Realloc(p, request) => Reallocate(bs, p, request).0
    case Free(p) => Deallocate(bs, p)
  }

  // What the heap asks of its callers: 32-bit arguments, a pointer that is NULL or live, and for
  // the two calls that write into the block a size that align_up does not wrap (ZeroingFitsIff,
  // CopyFitsIff).
  predicate Permitted(bs: seq<Block>, c: Call) {
    match c
    case Malloc(request) => request < 0x1_0000_0000
    case Calloc(n, size) => n < 0x1_0000_0000 && size < 0x1_0000_0000 && Product(n, size) <= MAX_REQUEST
    case Realloc(p, request) => request <= MAX_REQUEST && (p == 0 || IsLive(bs, p))
    case Free(p) => p == 0 || IsLive(bs, p)
  }

  predicate PermittedRun(bs: seq<Block>, calls: seq<Call>)
    decreases |calls|
  {
    calls == [] || (Permitted(bs, calls[0]) && PermittedRun(Step(bs, calls[0]), calls[1..]))
  }

  function Run(bs: seq<Block>, calls: seq<Call>): seq<Block>
    decreases |calls|
  {
    if calls == [] then bs else Run(Step(bs, calls[0]), calls[1..])
  }

  lemma StepKeeps(bs: seq<Block>, base: nat, c: Call)
    requires WellFormed(bs, base) && EightAligned(base) && Permitted(bs, c)
    ensures WellFormed(Step(bs, c), base)
  {
    match c
    case Malloc(request) => AllocateGives(bs, base, request);
    case Calloc(n, size) => AllocateGives(bs, base, Product(n, size));
    case Free(p) => DeallocateTakes(bs, base, p);
    case Realloc(p, request) => ReallocateKeeps(bs, base, p, request);
  }

  // Tiling in address order, 8-byte sizes and maximal coalescing hold after every run.
  lemma {:induction false} RunKeeps(bs: seq<Block>, base: nat, calls: seq<Call>)
    requires WellFormed(bs, base) && EightAligned(base) && PermittedRun(bs, calls)
    ensures WellFormed(Run(bs, calls), base)
    decreases |calls|
  {
    if calls != [] {
      StepKeeps(bs, base, calls[0]);
      RunKeeps(Step(bs, calls[0]), base, calls[1..]);
    }
  }

  // A live block stays where it is, with its size, until a call names its pointer.
  lemma StepKeepsOthers(bs: seq<Block>, base: nat, c: Call, b: Block)
    requires WellFormed(bs, base) && EightAligned(base) && Permitted(bs, c) && b in Live(bs)
    requires c.Realloc? || c.Free? ==> c.p != b.Ptr()
    ensures b in Live(Step(bs, c))
  {
    match c
    case Malloc(request) => AllocateGives(bs, base, request);
    case Calloc(n, size) => AllocateGives(bs, base, Product(n, size));
    case Free(p) => DeallocateTakes(bs, base, p);
    case Realloc(p, request) => ReallocateKeepsOthers(bs, base, p, request, b);
  }

  predicate Names(c: Call, p: nat) {
    (c.Realloc? || c.Free?) && c.p == p
  }

  // The live blocks that none of these calls names.
  ghost function Unnamed(bs: seq<Block>, calls: seq<Call>): set<Block> {
    set b | b in Live(bs) && forall i :: 0 <= i < |calls| ==> !Names(calls[i], b.Ptr())
  }

  // Over a run, too.
  lemma {:induction false} RunKeepsOthers(bs: seq<Block>, base: nat, calls: seq<Call>)
    requires WellFormed(bs, base) && EightAligned(base) && PermittedRun(bs, calls)
    ensures Unnamed(bs, calls) <= Live(Run(bs, calls))
    decreases |calls|
  {
    if calls != [] {
      var c, rest := calls[0], calls[1..];
      var next := Step(bs, c);
      StepKeeps(bs, base, c);
      UnnamedStays(bs, base, calls);
      RunKeepsOthers(next, base, rest);
    }
  }

  lemma UnnamedStays(bs: seq<Block>, base: nat, calls: seq<Call>)
    requires WellFormed(bs, base) && EightAligned(base) && calls != [] && Permitted(bs, calls[0])
    ensures Unnamed(bs, calls) <= Unnamed(Step(bs, calls[0]), calls[1..])
  {
    forall b | b in Unnamed(bs, calls) ensures b in Unnamed(Step(bs, calls[0]), calls[1..]) {
      assert !Names(calls[0], b.Ptr());
      StepKeepsOthers(bs, base, calls[0], b);
      assert forall i :: 0 <= i < |calls| - 1 ==> calls[1..][i] == calls[i + 1];
    }
  }

  // ---- Runs on the byte arena ----

  // One call. The bytes of every live block it does not name stay as they are.
  method Perform(heap: Arena, c: Call)
    requires heap.Valid() && Permitted(heap.blocks, c)
    modifies heap
    ensures heap.Valid() && heap.blocks == Step(old(heap.blocks), c)
    ensures Kept(old(heap.mem), heap.mem, Unnamed(old(heap.blocks), [c]))
      && OutsideSame(old(heap.mem), heap.mem, heap.base)
  {
    ghost var bs := heap.blocks;
    UnnamedStays(bs, heap.base, [c]);
    assert forall b :: b in Unnamed(bs, [c]) ==> b in Live(bs) && !Names([c][0], b.Ptr());
    match c
    case Malloc(request) => var p := heap.Kmalloc(request);
    case Calloc(n, size) => var p := heap.Kcalloc(n, size);
    case Realloc(p, request) => var q := heap.Krealloc(p, request);
    case Free(p) => heap.Kfree(p);
  }

  // A run of calls: the heap stays valid and follows Run, and every live block that no call names
  // is live at the end with the same bytes.
  method PerformAll(heap: Arena, calls: seq<Call>)
    requires heap.Valid() && PermittedRun(heap.blocks, calls)
    modifies heap
    ensures heap.Valid() && heap.blocks == Run(old(heap.blocks), calls)
    ensures Unnamed(old(heap.blocks), calls) <= Live(heap.blocks)
    ensures Kept(old(heap.mem), heap.mem, Unnamed(old(heap.blocks), calls))
      && OutsideSame(old(heap.mem), heap.mem, heap.base)
  {
    ghost var bs, m := heap.blocks, heap.mem;
    ghost var safe := Unnamed(bs, calls);
    RunKeepsOthers(bs, heap.base, calls);
    assert calls[0..] == calls;
    var i := 0;
    while i < |calls|
      invariant i <= |calls| && heap.Valid() && PermittedRun(heap.blocks, calls[i..])
      invariant Run(heap.blocks, calls[i..]) == Run(bs, calls)
      invariant safe <= Unnamed(heap.blocks, calls[i..])
      invariant Kept(m, heap.mem, safe) && OutsideSame(m, heap.mem, heap.base)
    {
      ghost var bs1, m1 := heap.blocks, heap.mem;
      assert calls[i..][0] == calls[i] && calls[i..][1..] == calls[i + 1..];
      UnnamedStays(bs1, heap.base, calls[i..]);
      ghost var spared := Unnamed(bs1, [calls[i]]);
      assert safe <= spared;
      Perform(heap, calls[i]);
      KeptThen(m, m1, heap.mem, safe, spared);
      assert safe * spared == safe;
      i := i + 1;
    }
  }

  ghost predicate Disjoint(lo: int, hi: int, lo': int, hi': int) {
    hi <= lo' || hi' <= lo
  }

  // In any state a run can reach, a live payload is 8-aligned, inside the arena, clear of every
  // header and clear of every other live payload.
  lemma {:induction false} LivePayloadsSafe(base: nat, calls: seq<Call>, b: Block, c: Block)
    requires EightAligned(base) && PermittedRun(Initial(base), calls)
    requires b in Live(Run(Initial(base), calls)) && c in Run(Initial(base), calls)
    ensures EightAligned(b.Ptr()) && base <= b.Ptr() && b.End() <= base + HEAP_SIZE
    ensures Disjoint(b.Ptr(), b.End(), c.addr, c.Ptr())
    ensures b != c ==> Disjoint(b.Ptr(), b.End(), c.Ptr(), c.End())
  {
    InitialWellFormed(base);
    RunKeeps(Initial(base), base, calls);
    var bs := Run(Initial(base), calls);
    var i :| 0 <= i < |bs| && bs[i] == b;
    var j :| 0 <= j < |bs| && bs[j] == c;
    AddressesAligned(bs, base, i);
    AlignedSum(b.addr, 0);
    Inside(bs, base, i);
    if i < j { Ordered(bs, base, i, j); } else if j < i { Ordered(bs, base, j, i); }
  }

  lemma InitialWellFormed(base: nat)
    ensures WellFormed(Initial(base), base)
  {
    assert EightAligned(HEAP_SIZE - HDR);
  }

  // used_bytes and heap_free() split the arena between the live and the free blocks.
  lemma {:induction false} Accounting(base: nat, calls: seq<Call>)
    requires EightAligned(base) && PermittedRun(Initial(base), calls)
    ensures var bs := Run(Initial(base), calls); HEAP_SIZE - Total(bs, false) == Total(bs, true)
  {
    InitialWellFormed(base);
    RunKeeps(Initial(base), base, calls);
    TotalsFillArena(Run(Initial(base), calls), base);
  }

  function FreeEach(ps: seq<nat>): seq<Call> {
    seq(|ps|, i requires 0 <= i < |ps| => Free(ps[i]))
  }

  // ps lists the live pointers.
  ghost predicate Lists(ps: seq<nat>, bs: seq<Block>) {
    forall p :: p in ps <==> p in LivePtrs(bs)
  }

  lemma NothingLive(bs: seq<Block>, base: nat)
    requires WellFormed(bs, base) && LivePtrs(bs) == {}
    ensures bs == Initial(base)
  {
    assert forall b :: b in Live(bs) ==> b.Ptr() in LivePtrs(bs);
    assert forall i :: 0 <= i < |bs| ==> bs[i].free || bs[i] in Live(bs);
    AllFreeIsInitial(bs, base);
  }

  // Freeing a live pointer removes it from the live ones.
  lemma FreeTakes(bs: seq<Block>, base: nat, p: nat)
    requires WellFormed(bs, base) && p in LivePtrs(bs)
    ensures IsLive(bs, p) && p != 0 && WellFormed(Deallocate(bs, p), base)
      && LivePtrs(Deallocate(bs, p)) == LivePtrs(bs) - {p}
  {
    var b :| b in Live(bs) && b.Ptr() == p;
    LiveFound(bs, base, b);
    DeallocateTakes(bs, base, p);
    var cs := Deallocate(bs, p);
    forall q | q in LivePtrs(bs) && q != p ensures q in LivePtrs(cs) {
      var c :| c in Live(bs) && c.Ptr() == q;
      assert c in Live(cs);
    }
    forall q | q in LivePtrs(cs) ensures q in LivePtrs(bs) && q != p {
      var c :| c in Live(cs) && c.Ptr() == q;
      LiveFound(bs, base, c);
    }
  }

  // Freeing the live pointers, each once and in any order, restores the state heap_init made.
  lemma {:induction false} FreeingAllRestores(bs: seq<Block>, base: nat, ps: seq<nat>)
    requires WellFormed(bs, base) && Lists(ps, bs)
    requires forall i, j :: 0 <= i < j < |ps| ==> ps[i] != ps[j]
    ensures PermittedRun(bs, FreeEach(ps)) && Run(bs, FreeEach(ps)) == Initial(base)
    decreases |ps|
  {
    if ps == [] {
      NothingLive(bs, base);
    } else {
      var p, rest := ps[0], ps[1..];
      FreeTakes(bs, base, p);
      var cs := Deallocate(bs, p);
      forall q ensures q in rest <==> q in LivePtrs(cs) {
        assert q in ps <==> q == p || q in rest;
        assert p !in rest;
      }
      FreeingAllRestores(cs, base, rest);
      assert FreeEach(ps)[1..] == FreeEach(rest);
    }
  }
}
