// The heap as its clients see it: the room behind every live pointer and the bytes in it.
module HeapClient {
  import opened Memory
  import opened BlockList
  import opened Heap

  // Payload size of the live block behind each live pointer.
  ghost function Rooms(bs: seq<Block>): map<nat, nat> {
    map p | p in LivePtrs(bs) :: if Find(bs, p) < |bs| then bs[Find(bs, p)].size else 0
  }

  // The bytes behind these pointers read the same in both memories.
  ghost predicate SameBytes(m: seq<byte>, r: seq<byte>, rooms: map<nat, nat>) {
    && |m| == |r|
    && forall p {:trigger p in rooms} ::
        p in rooms && p + rooms[p] <= |m| ==> r[p..p + rooms[p]] == m[p..p + rooms[p]]
  }

  lemma {:induction false} RoomAt(bs: seq<Block>, base: nat, b: Block)
    requires Tiles(bs, base) && b in Live(bs)
    ensures b.Ptr() in Rooms(bs) && Rooms(bs)[b.Ptr()] == b.size && bs[Find(bs, b.Ptr())] == b && IsLive(bs, b.Ptr())
    ensures HDR <= b.Ptr() && b.End() <= base + HEAP_SIZE
  {
    LiveFound(bs, base, b);
    Inside(bs, base, Find(bs, b.Ptr()));
  }

  lemma BlockAt(bs: seq<Block>, base: nat, p: nat) returns (b: Block)
    requires Tiles(bs, base) && p in Rooms(bs)
    ensures b in Live(bs) && b.Ptr() == p && b.size == Rooms(bs)[p] && IsLive(bs, p) && bs[Find(bs, p)] == b
    ensures HDR <= p && b.End() <= base + HEAP_SIZE
  {
    b :| b in Live(bs) && b.Ptr() == p;
    RoomAt(bs, base, b);
  }

  lemma RoomsLess(bs: seq<Block>, cs: seq<Block>, base: nat, b: Block)
    requires Tiles(bs, base) && Tiles(cs, base) && b in Live(bs) && Live(cs) == Live(bs) - {b}
    ensures Rooms(cs) == Rooms(bs) - {b.Ptr()}
  {
    RoomAt(bs, base, b);
    forall p | p in Rooms(cs) ensures p in Rooms(bs) && p != b.Ptr() && Rooms(cs)[p] == Rooms(bs)[p] {
      var c := BlockAt(cs, base, p);
      RoomAt(bs, base, c);
    }
    forall p | p in Rooms(bs) && p != b.Ptr() ensures p in Rooms(cs) {
      var c := BlockAt(bs, base, p);
      RoomAt(cs, base, c);
    }
  }

  lemma RoomsMore(bs: seq<Block>, cs: seq<Block>, base: nat, c: Block)
    requires Tiles(bs, base) && Tiles(cs, base) && c !in Live(bs) && Live(cs) == Live(bs) + {c}
    ensures c.Ptr() !in Rooms(bs) && Rooms(cs) == Rooms(bs)[c.Ptr() := c.size]
  {
    assert Live(bs) == Live(cs) - {c};
    RoomsLess(cs, bs, base, c);
    RoomAt(cs, base, c);
  }

  lemma KeptBytes(m: seq<byte>, r: seq<byte>, bs: seq<Block>, base: nat, s: set<Block>, rooms: map<nat, nat>)
    requires Tiles(bs, base) && Kept(m, r, s)
    requires forall p :: p in rooms ==> p in Rooms(bs) && rooms[p] == Rooms(bs)[p]
    requires forall b :: b in Live(bs) && b.Ptr() in rooms ==> b in s
    ensures SameBytes(m, r, rooms)
  {
    forall p | p in rooms && p + rooms[p] <= |m| ensures r[p..p + rooms[p]] == m[p..p + rooms[p]] {
      var b := BlockAt(bs, base, p);
      BlockKept(m, r, s, b, p, rooms[p]);
    }
  }

  lemma BlockKept(m: seq<byte>, r: seq<byte>, s: set<Block>, b: Block, p: nat, n: nat)
    requires Kept(m, r, s) && b in s && p == b.Ptr() && n == b.size && p + n <= |m|
    ensures r[p..p + n] == m[p..p + n]
  {
  }

  lemma RoomsInside(heap: Arena)
    requires heap.Valid()
    ensures forall p :: p in Rooms(heap.blocks) ==> p + Rooms(heap.blocks)[p] <= |heap.mem|
  {
    forall p | p in Rooms(heap.blocks) ensures p + Rooms(heap.blocks)[p] <= |heap.mem| {
      var b := BlockAt(heap.blocks, heap.base, p);
    }
  }

  // kmalloc and krealloc have nothing for this request.
  ghost predicate Exhausted(bs: seq<Block>, request: nat) {
    Allocate(bs, request).1 == NULL
  }

  ghost predicate CannotGrow(bs: seq<Block>, p: nat, request: nat) {
    Reallocate(bs, p, request).1 == NULL
  }

  // kcalloc(1, size)
  method AllocZeroed(heap: Arena, size: word) returns (p: nat)
    requires heap.Valid() && 0 < size <= MAX_REQUEST
    modifies heap
    ensures heap.Valid() && SameBytes(old(heap.mem), heap.mem, old(Rooms(heap.blocks)))
    ensures p == NULL <==> Exhausted(old(heap.blocks), size)
    ensures p == NULL ==> heap.blocks == old(heap.blocks) && heap.mem == old(heap.mem)
    ensures p != NULL ==> p !in old(Rooms(heap.blocks)) && p in Rooms(heap.blocks) && size <= Rooms(heap.blocks)[p]
    ensures p != NULL ==> Rooms(heap.blocks) == old(Rooms(heap.blocks))[p := Rooms(heap.blocks)[p]]
    ensures p != NULL ==> Holds(heap.mem, p, seq(size, _ => 0))
  {
    ghost var bs, m := heap.blocks, heap.mem;
    assert Product(1, size) == size;
    p := heap.Kcalloc(1, size);
    AllocateGives(bs, heap.base, size);
    KeptBytes(m, heap.mem, bs, heap.base, Live(bs), Rooms(bs));
    if p != NULL {
      RoomsMore(bs, heap.blocks, heap.base, heap.blocks[Find(heap.blocks, p)]);
    }
  }

  // kfree of a live pointer
  method Free(heap: Arena, p: nat)
    requires heap.Valid() && p in Rooms(heap.blocks)
    modifies heap
    ensures heap.Valid() && Rooms(heap.blocks) == old(Rooms(heap.blocks)) - {p}
    ensures SameBytes(old(heap.mem), heap.mem, Rooms(heap.blocks))
  {
    ghost var bs, m := heap.blocks, heap.mem;
    ghost var b := BlockAt(bs, heap.base, p);
    DeallocateTakes(bs, heap.base, p);
    heap.Kfree(p);
    RoomsLess(bs, heap.blocks, heap.base, b);
    KeptBytes(m, heap.mem, heap.blocks, heap.base, Live(heap.blocks), Rooms(heap.blocks));
  }

  // Block c came and block b went.
  lemma RoomsSwapped(bs: seq<Block>, ds: seq<Block>, cs: seq<Block>, base: nat, b: Block, c: Block)
    requires Tiles(bs, base) && Tiles(ds, base) && Tiles(cs, base)
    requires c !in Live(bs) && Live(ds) == Live(bs) + {c} && b in Live(bs) && Live(cs) == Live(ds) - {b}
    ensures c.Ptr() in Rooms(cs) && c.Ptr() !in Rooms(bs)
    ensures Rooms(cs) == (Rooms(bs) - {b.Ptr()})[c.Ptr() := Rooms(cs)[c.Ptr()]]
  {
    RoomsMore(bs, ds, base, c);
    RoomsLess(ds, cs, base, b);
    RoomAt(cs, base, c);
    RoomAt(bs, base, b);
  }

  // The rooms krealloc leaves when it moves a block.
  lemma RoomsMoved(bs: seq<Block>, base: nat, p: nat, request: nat, ds: seq<Block>, q: nat, cs: seq<Block>)
    requires WellFormed(bs, base) && EightAligned(base) && 0 < request < 0x1_0000_0000
    requires p != NULL && IsLive(bs, p) && (ds, q) == Allocate(bs, request) && q != NULL && cs == Deallocate(ds, p)
    ensures q in Rooms(cs) && Rooms(cs) == (Rooms(bs) - {p})[q := Rooms(cs)[q]] && q !in Rooms(bs)
  {
    AllocateGives(bs, base, request);
    ReallocateMoves(bs, base, p, request);
    DeallocateTakes(ds, base, p);
    RoomsSwapped(bs, ds, cs, base, bs[Find(bs, p)], ds[Find(ds, q)]);
  }

  lemma RoomsTaken(bs: seq<Block>, base: nat, request: nat)
    requires WellFormed(bs, base) && EightAligned(base) && 0 < request < 0x1_0000_0000
    ensures var (cs, q) := Allocate(bs, request);
      if q == NULL then cs == bs else q in Rooms(cs) && Rooms(cs) == Rooms(bs)[q := Rooms(cs)[q]] && q !in Rooms(bs)
  {
    AllocateGives(bs, base, request);
    var (cs, q) := Allocate(bs, request);
    if q != NULL { RoomsMore(bs, cs, base, cs[Find(cs, q)]); }
  }

  lemma NullNotLive(bs: seq<Block>, base: nat)
    requires Tiles(bs, base)
    ensures NULL !in Rooms(bs) && Rooms(bs) - {NULL} == Rooms(bs)
  {
    if NULL in Rooms(bs) { var b := BlockAt(bs, base, NULL); }
  }

  // The rooms any successful or failed krealloc leaves.
  lemma RoomsGrown(bs: seq<Block>, base: nat, p: nat, request: nat)
    requires WellFormed(bs, base) && EightAligned(base) && 0 < request < 0x1_0000_0000
    requires p == NULL || p in Rooms(bs)
    ensures var (cs, q) := Reallocate(bs, p, request);
      if q == NULL then cs == bs
      else q in Rooms(cs) && Rooms(cs) == (Rooms(bs) - {p})[q := Rooms(cs)[q]] && (q == p || q !in Rooms(bs))
  {
    if p == NULL {
      RoomsTaken(bs, base, request);
      NullNotLive(bs, base);
    } else {
      var b := BlockAt(bs, base, p);
      var (ds, d) := Allocate(bs, request);
      if b.size < request && d != NULL { RoomsMoved(bs, base, p, request, ds, d, Deallocate(ds, p)); }
    }
  }

  // krealloc has moved or kept the block p, with its bytes, and nothing else.
  ghost predicate Enlarged(p: nat, request: nat, rooms: map<nat, nat>, m: seq<byte>, q: nat, rooms': map<nat, nat>,
                           m': seq<byte>) {
    && q in rooms' && request <= rooms'[q] && q + rooms'[q] <= |m'|
    && rooms' == (rooms - {p})[q := rooms'[q]] && (q == p || q !in rooms)
    && SameBytes(m, m', rooms - {p})
    && (p != NULL ==> p in rooms && p + rooms[p] <= |m| && Holds(m', q, m[p..p + rooms[p]]))
  }

  // krealloc to a positive size
  method Grow(heap: Arena, p: nat, request: word) returns (q: nat)
    requires heap.Valid() && 0 < request <= MAX_REQUEST && (p == NULL || p in Rooms(heap.blocks))
    modifies heap
    ensures heap.Valid()
    ensures q == NULL <==> CannotGrow(old(heap.blocks), p, request)
    ensures q == NULL ==> heap.blocks == old(heap.blocks) && heap.mem == old(heap.mem)
    ensures q != NULL ==> Enlarged(p, request, old(Rooms(heap.blocks)), old(heap.mem), q, Rooms(heap.blocks), heap.mem)
  {
    ghost var bs, m := heap.blocks, heap.mem;
    ghost var b: Block;
    if p != NULL { b := BlockAt(bs, heap.base, p); }
    RoomsGrown(bs, heap.base, p, request);
    q := heap.Krealloc(p, request);
    KeptBytes(m, heap.mem, bs, heap.base, (set c | c in Live(bs) && c.Ptr() != p), Rooms(bs) - {p});
    if q != NULL {
      RoomAt(heap.blocks, heap.base, heap.blocks[Find(heap.blocks, q)]);
    }
  }

  // The owner of a live pointer stores bytes behind it.
  method StoreAt(heap: Arena, p: nat, off: nat, data: seq<byte>)
    requires heap.Valid() && p in Rooms(heap.blocks) && off + |data| <= Rooms(heap.blocks)[p]
    modifies heap`mem
    ensures heap.Valid() && p + off + |data| <= |old(heap.mem)| && heap.mem == Patch(old(heap.mem), p + off, data)
    ensures SameBytes(old(heap.mem), heap.mem, Rooms(heap.blocks) - {p})
  {
    ghost var bs, m := heap.blocks, heap.mem;
    ghost var b := BlockAt(bs, heap.base, p);
    heap.Store(p, off, data);
    forall c | c in Live(bs) && c.Ptr() in Rooms(bs) - {p} ensures c in Live(bs) - {b} {
      RoomAt(bs, heap.base, c);
    }
    KeptBytes(m, heap.mem, bs, heap.base, Live(bs) - {b}, Rooms(bs) - {p});
  }

  lemma SameBytesThen(m: seq<byte>, m1: seq<byte>, r: seq<byte>, rooms: map<nat, nat>)
    requires SameBytes(m, m1, rooms) && SameBytes(m1, r, rooms)
    ensures SameBytes(m, r, rooms)
  {
  }
}
