// kernel/mm/pmm.c: the physical frame bitmap, built from the Multiboot memory map.
module Pmm {
  const PAGE_SIZE: nat := 4096
  const MAX_FRAMES: nat := 1024 * 1024
  const BITMAP_BYTES: nat := MAX_FRAMES / 8
  const LOW_FRAMES: nat := 256 // the first megabyte

  // ---- The bits of a byte ----

  // (b >> k) & 1
  function Bit(b: bv8, k: nat): bool
    requires k < 8
  {
    (b >> k) & 1 == 1
  }

  lemma BitSet(b: bv8, j: nat, k: nat)
    requires j < 8 && k < 8
    ensures Bit(b | (1 << j), k) == (k == j || Bit(b, k))
  {
  }

  lemma BitClear(b: bv8, j: nat, k: nat)
    requires j < 8 && k < 8
    ensures Bit(b & !(1 << j), k) == (k != j && Bit(b, k))
  {
  }

  lemma BitsSet(b: bv8, j: nat)
    requires j < 8
    ensures forall k :: 0 <= k < 8 ==> Bit(b | (1 << j), k) == if k == j then true else Bit(b, k)
  {
    forall k | 0 <= k < 8 ensures Bit(b | (1 << j), k) == if k == j then true else Bit(b, k) { BitSet(b, j, k); }
  }

  lemma BitsCleared(b: bv8, j: nat)
    requires j < 8
    ensures forall k :: 0 <= k < 8 ==> Bit(b & !(1 << j), k) == if k == j then false else Bit(b, k)
  {
    forall k | 0 <= k < 8 ensures Bit(b & !(1 << j), k) == if k == j then false else Bit(b, k) { BitClear(b, j, k); }
  }

  lemma AllBitsSet(k: nat)
    requires k < 8
    ensures Bit(0xFF, k)
  {
  }

  // ---- The bitmap as a sequence of flags ----

  function Flags(bytes: seq<bv8>): (s: seq<bool>)
    ensures |s| == 8 * |bytes|
    ensures forall f :: 0 <= f < |s| ==> s[f] == Bit(bytes[f / 8], f % 8)
  {
    seq(8 * |bytes|, f requires 0 <= f < 8 * |bytes| => Bit(bytes[f / 8], f % 8))
  }

  // A frame is told from all others by its byte and its bit.
  lemma SameFrame(f: nat, g: nat)
    ensures f == g <==> f / 8 == g / 8 && f % 8 == g % 8
  {
  }

  // Replacing a byte by one that differs in a single bit changes a single flag.
  lemma OneFlag(bytes: seq<bv8>, f: nat, q: nat, k: nat, v: bv8, on: bool)
    requires f < 8 * |bytes| && q == f / 8 && k == f % 8
    requires forall i :: 0 <= i < 8 ==> Bit(v, i) == if i == k then on else Bit(bytes[q], i)
    ensures Flags(bytes[q := v]) == Flags(bytes)[f := on]
  {
    var s, r := Flags(bytes), Flags(bytes[q := v]);
    forall g: nat | g < |s| ensures r[g] == s[f := on][g] {
      SameFrame(f, g);
    }
  }

  lemma FlagSet(bytes: seq<bv8>, f: nat, q: nat, k: nat)
    requires f < 8 * |bytes| && q == f / 8 && k == f % 8
    ensures Flags(bytes[q := bytes[q] | (1 << k)]) == Flags(bytes)[f := true]
  {
    BitsSet(bytes[q], k);
    OneFlag(bytes, f, q, k, bytes[q] | (1 << k), true);
  }

  lemma FlagClear(bytes: seq<bv8>, f: nat, q: nat, k: nat)
    requires f < 8 * |bytes| && q == f / 8 && k == f % 8
    ensures Flags(bytes[q := bytes[q] & !(1 << k)]) == Flags(bytes)[f := false]
  {
    BitsCleared(bytes[q], k);
    OneFlag(bytes, f, q, k, bytes[q] & !(1 << k), false);
  }

  // How many of the first n flags are set.
  function Count(s: seq<bool>, n: nat): (c: nat)
    requires n <= |s|
    ensures c <= n
  {
    if n == 0 then 0 else Count(s, n - 1) + if s[n - 1] then 1 else 0
  }

  lemma CountUpdate(s: seq<bool>, n: nat, f: nat, v: bool)
    requires n <= |s| && f < |s| && s[f] != v
    ensures Count(s[f := v], n) == Count(s, n) + if f >= n then 0 else if v then 1 else -1
    decreases n
  {
    if n > 0 { CountUpdate(s, n - 1, f, v); }
  }

  lemma {:induction false} CountAll(s: seq<bool>, n: nat)
    requires n <= |s| && forall f :: 0 <= f < n ==> s[f]
    ensures Count(s, n) == n
    decreases n
  {
    if n > 0 { CountAll(s, n - 1); }
  }

  // ---- The memory map ----

  datatype Entry = Entry(addr: nat, len: nat, kind: nat) // kind 1 is available RAM

  // Physical addresses below 2^44, the range in which a page number fits 32 bits.
  predicate Sane(e: Entry) {
    e.addr + e.len < 0x1000_0000_0000
  }

  // Frames that the freeing loop of pmm_init reaches for this entry.
  predicate Covers(e: Entry, f: nat) {
    e.kind == 1 && e.addr / PAGE_SIZE <= f < e.addr / PAGE_SIZE + e.len / PAGE_SIZE
  }

  predicate WhollyInside(e: Entry, f: nat) {
    e.addr <= f * PAGE_SIZE && (f + 1) * PAGE_SIZE <= e.addr + e.len
  }

  // From a page-aligned region exactly the frames that lie wholly inside are freed.
  lemma AlignedCoversInside(e: Entry, f: nat)
    requires e.kind == 1 && e.addr % PAGE_SIZE == 0
    ensures Covers(e, f) <==> WhollyInside(e, f)
  {
    var a := e.addr / PAGE_SIZE;
    assert e.addr == a * PAGE_SIZE;
  }

  // The loop frees only frames inside the region exactly when the region starts on a page
  // boundary or is too short to free anything; otherwise its first frame begins before it.
  lemma CoversInsideIff(e: Entry)
    requires e.kind == 1
    ensures (forall f: nat :: Covers(e, f) ==> WhollyInside(e, f)) <==> (e.addr % PAGE_SIZE == 0 || e.len < PAGE_SIZE)
  {
    if e.addr % PAGE_SIZE == 0 {
      forall f: nat ensures Covers(e, f) ==> WhollyInside(e, f) { AlignedCoversInside(e, f); }
    } else if e.len >= PAGE_SIZE {
      var f := e.addr / PAGE_SIZE;
      assert Covers(e, f) && !WhollyInside(e, f);
    }
  }

  datatype MemoryMap = Mmap(entries: seq<Entry>) | MemUpper(kib: nat) | NoInfo

  // The highest available address, at least 16 MB with a memory map.
  function MaxAddr(m: MemoryMap): nat {
    match m
    case Mmap(entries) => MaxEnd(entries)
    case MemUpper(kib) => (kib + 1024) % 0x1_0000_0000 * 1024
    case NoInfo => 16 * 1024 * 1024
  }

  function MaxEnd(entries: seq<Entry>): nat {
    if entries == [] then 16 * 1024 * 1024
    else
      var (m, e) := (MaxEnd(entries[..|entries| - 1]), entries[|entries| - 1]);
      if e.kind == 1 && e.addr + e.len > m then e.addr + e.len else m
  }

  // (uint32_t)(max_addr / PAGE_SIZE), capped.
  function TotalFrames(m: MemoryMap): (n: nat)
    ensures n <= MAX_FRAMES
  {
    var t := MaxAddr(m) / PAGE_SIZE % 0x1_0000_0000;
    if t > MAX_FRAMES then MAX_FRAMES else t
  }

  lemma {:induction false} MaxEndSane(entries: seq<Entry>)
    requires forall e :: e in entries ==> Sane(e)
    ensures MaxEnd(entries) < 0x1000_0000_0000
    decreases |entries|
  {
    if entries != [] {
      assert entries[|entries| - 1] in entries;
      MaxEndSane(entries[..|entries| - 1]);
    }
  }

  // Below 2^44 the cast loses nothing: every frame of available memory is counted, up to the cap.
  lemma {:induction false} FramesNotTruncated(entries: seq<Entry>)
    requires forall e :: e in entries ==> Sane(e)
    ensures var t := MaxEnd(entries) / PAGE_SIZE;
      TotalFrames(Mmap(entries)) == if t > MAX_FRAMES then MAX_FRAMES else t
  {
    MaxEndSane(entries);
  }

  method CountFrames(m: MemoryMap) returns (n: nat)
    ensures n == TotalFrames(m)
  {
    var maxAddr: nat := 16 * 1024 * 1024;
    if m.Mmap? {
      var i := 0;
      while i < |m.entries|
        invariant i <= |m.entries| && maxAddr == MaxEnd(m.entries[..i])
      {
        assert m.entries[..i + 1][..i] == m.entries[..i];
        var e := m.entries[i];
        if e.kind == 1 {
          if e.addr + e.len > maxAddr { maxAddr := e.addr + e.len; }
        }
        i := i + 1;
      }
      assert m.entries[..i] == m.entries;
    } else if m.MemUpper? {
      maxAddr := (m.kib + 1024) % 0x1_0000_0000 * 1024;
    }
    n := maxAddr / PAGE_SIZE % 0x1_0000_0000;
    if n > MAX_FRAMES { n := MAX_FRAMES; }
  }

  // Frames freed before the reservations.
  predicate Available(m: MemoryMap, f: nat) {
    match m
    case Mmap(entries) => exists i :: 0 <= i < |entries| && Covers(entries[i], f)
    case _ => f >= LOW_FRAMES
  }

  lemma OneMoreEntry(entries: seq<Entry>, i: nat, f: nat)
    requires i < |entries|
    ensures Available(Mmap(entries[..i + 1]), f) <==> Available(Mmap(entries[..i]), f) || Covers(entries[i], f)
  {
    var all := entries[..i + 1];
    assert all == entries[..i] + [entries[i]];
    if j :| 0 <= j < |all| && Covers(all[j], f) && j < i { assert Covers(entries[..i][j], f); }
    if j :| 0 <= j < i && Covers(entries[..i][j], f) { assert Covers(all[j], f); }
    assert all[i] == entries[i];
  }

  // In a map whose available regions are page-aligned, these are the frames that lie wholly inside
  // one of them.
  ghost predicate Aligned(entries: seq<Entry>) {
    forall i :: 0 <= i < |entries| && entries[i].kind == 1 ==> entries[i].addr % PAGE_SIZE == 0
  }

  ghost predicate Backed(entries: seq<Entry>, f: nat) {
    exists i :: 0 <= i < |entries| && entries[i].kind == 1 && WhollyInside(entries[i], f)
  }

  lemma AvailableIsBacked(entries: seq<Entry>, f: nat)
    requires Aligned(entries)
    ensures Available(Mmap(entries), f) <==> Backed(entries, f)
  {
    forall i | 0 <= i < |entries| && entries[i].kind == 1
      ensures Covers(entries[i], f) <==> WhollyInside(entries[i], f)
    {
      AlignedCoversInside(entries[i], f);
    }
  }

  function Reserve(kernelEnd: nat): nat {
    var kend := (kernelEnd + PAGE_SIZE - 1) / PAGE_SIZE;
    if kend > LOW_FRAMES then kend else LOW_FRAMES
  }

  class FrameMap {
    const bitmap: array<bv8>
    var totalFrames: nat
    var usedFrames: nat

    ghost predicate Valid()
      reads this, bitmap
    {
      bitmap.Length == BITMAP_BYTES && totalFrames <= MAX_FRAMES && usedFrames == Count(Used(), totalFrames)
    }

    ghost function Used(): (s: seq<bool>)
      requires bitmap.Length == BITMAP_BYTES
      reads this, bitmap
      ensures |s| == MAX_FRAMES
    {
      Flags(bitmap[..])
    }

    // bm_set, bm_clear, bm_test
    method BmSet(f: nat)
      requires bitmap.Length == BITMAP_BYTES && f < MAX_FRAMES
      modifies bitmap
      ensures Used() == old(Used())[f := true]
    {
      var q, k := f / 8, f % 8;
      var v := bitmap[q] | (1 << k);
      ghost var b := bitmap[..];
      FlagSet(b, f, q, k);
      bitmap[q] := v;
      assert bitmap[..] == b[q := v];
    }

    method BmClear(f: nat)
      requires bitmap.Length == BITMAP_BYTES && f < MAX_FRAMES
      modifies bitmap
      ensures Used() == old(Used())[f := false]
    {
      var q, k := f / 8, f % 8;
      var v := bitmap[q] & !(1 << k);
      ghost var b := bitmap[..];
      FlagClear(b, f, q, k);
      bitmap[q] := v;
      assert bitmap[..] == b[q := v];
    }

    method BmTest(f: nat) returns (b: bool)
      requires bitmap.Length == BITMAP_BYTES && f < MAX_FRAMES
      ensures b == Used()[f]
    {
      b := Bit(bitmap[f / 8], f % 8);
    }

    method MarkUsed(f: nat)
      requires Valid()
      modifies `usedFrames, bitmap
      ensures Valid() && Used() == if f < totalFrames then old(Used())[f := true] else old(Used())
    {
      if f >= totalFrames { return; }
      var b := BmTest(f);
      if !b {
        CountUpdate(Used(), totalFrames, f, true);
        BmSet(f);
        usedFrames := usedFrames + 1;
      }
    }

    method MarkFree(f: nat)
      requires Valid()
      modifies `usedFrames, bitmap
      ensures Valid() && Used() == if f < totalFrames then old(Used())[f := false] else old(Used())
    {
      if f >= totalFrames { return; }
      var b := BmTest(f);
      if b {
        CountUpdate(Used(), totalFrames, f, false);
        BmClear(f);
        usedFrames := usedFrames - 1;
      }
    }

    // The loop of pmm_init over the pages of one available region.
    method FreeEntry(e: Entry)
      requires Valid() && Sane(e) && e.kind == 1
      modifies `usedFrames, bitmap
      ensures Valid()
      ensures forall f :: 0 <= f < totalFrames ==> (Used()[f] <==> old(Used())[f] && !Covers(e, f))
    {
      ghost var was, k: nat := Used(), 0;
      var a := e.addr;
      while a + PAGE_SIZE <= e.addr + e.len
        invariant Valid() && a == e.addr + PAGE_SIZE * k && k <= e.len / PAGE_SIZE
        invariant forall f :: 0 <= f < totalFrames ==>
          (Used()[f] <==> was[f] && !(e.addr / PAGE_SIZE <= f < e.addr / PAGE_SIZE + k))
        decreases e.addr + e.len - a
      {
        PageOf(e.addr, k);
        MarkFree(a / PAGE_SIZE);
        a := a + PAGE_SIZE;
        k := k + 1;
      }
      assert k == e.len / PAGE_SIZE;
    }

    // The pass of pmm_init over the memory map.
    method FreeMmap(entries: seq<Entry>)
      requires Valid() && (forall e :: e in entries ==> Sane(e)) && forall f :: 0 <= f < totalFrames ==> Used()[f]
      modifies `usedFrames, bitmap
      ensures Valid()
      ensures forall f :: 0 <= f < totalFrames ==> (!Used()[f] <==> Available(Mmap(entries), f))
    {
      var i := 0;
      while i < |entries|
        invariant i <= |entries| && Valid()
        invariant forall f :: 0 <= f < totalFrames ==> (!Used()[f] <==> Available(Mmap(entries[..i]), f))
      {
        if entries[i].kind == 1 { FreeEntry(entries[i]); }
        forall f: nat
          ensures Available(Mmap(entries[..i + 1]), f) <==> Available(Mmap(entries[..i]), f) || Covers(entries[i], f)
        {
          OneMoreEntry(entries, i, f);
        }
        i := i + 1;
      }
      assert entries[..i] == entries;
    }

    // Without a memory map everything above the first megabyte is taken to be RAM.
    method FreeHigh()
      requires Valid() && forall f :: 0 <= f < totalFrames ==> Used()[f]
      modifies `usedFrames, bitmap
      ensures Valid() && forall f :: 0 <= f < totalFrames ==> (!Used()[f] <==> f >= LOW_FRAMES)
    {
      var f := LOW_FRAMES;
      while f < totalFrames
        invariant LOW_FRAMES <= f && Valid()
        invariant forall g :: 0 <= g < totalFrames ==> (!Used()[g] <==> LOW_FRAMES <= g < f)
        decreases totalFrames - f
      {
        MarkFree(f);
        f := f + 1;
      }
    }

    // The low megabyte and the kernel image are taken again.
    method ReserveLow(n: nat)
      requires Valid()
      modifies `usedFrames, bitmap
      ensures Valid() && forall f :: 0 <= f < totalFrames ==> (Used()[f] <==> old(Used())[f] || f < n)
    {
      ghost var was := Used();
      var f := 0;
      while f < n
        invariant f <= n && Valid()
        invariant forall g :: 0 <= g < totalFrames ==> (Used()[g] <==> was[g] || g < f)
      {
        MarkUsed(f);
        f := f + 1;
      }
    }

    // pmm_init, starting from a full bitmap.
    constructor (m: MemoryMap, kernelEnd: nat)
      requires m.Mmap? ==> forall e :: e in m.entries ==> Sane(e)
      requires m.MemUpper? ==> m.kib < 0x1_0000_0000
      requires kernelEnd + PAGE_SIZE - 1 < 0x1_0000_0000
      ensures Valid() && totalFrames == TotalFrames(m)
      ensures forall f :: 0 <= f < totalFrames ==> (!Used()[f] <==> Available(m, f) && f >= Reserve(kernelEnd))
    {
      bitmap := new bv8[BITMAP_BYTES](_ => 0xFF);
      var n := CountFrames(m);
      totalFrames := n;
      usedFrames := n;
      new;
      AllSet();
      if m.Mmap? { FreeMmap(m.entries); } else { FreeHigh(); }
      ReserveLow(Reserve(kernelEnd));
    }

    lemma AllSet()
      requires bitmap.Length == BITMAP_BYTES && totalFrames <= MAX_FRAMES
        && forall k :: 0 <= k < bitmap.Length ==> bitmap[k] == 0xFF
      ensures forall f :: 0 <= f < MAX_FRAMES ==> Used()[f]
      ensures Count(Used(), totalFrames) == totalFrames
    {
      forall f | 0 <= f < MAX_FRAMES ensures Used()[f] { AllBitsSet(f % 8); }
      CountAll(Used(), totalFrames);
    }

    // pmm_alloc_frame: the address of the lowest free frame, 0 if there is none.
    method AllocFrame() returns (addr: nat)
      requires Valid()
      modifies `usedFrames, bitmap
      ensures Valid()
      ensures var f := FirstFree(old(Used()), totalFrames);
        if f < totalFrames then addr == f * PAGE_SIZE && Used() == old(Used())[f := true]
        else addr == 0 && Used() == old(Used())
    {
      var f := 0;
      while f < totalFrames
        invariant f <= totalFrames && f <= FirstFree(Used(), totalFrames) && Valid() && Used() == old(Used())
      {
        var b := BmTest(f);
        if !b {
          CountUpdate(Used(), totalFrames, f, true);
          BmSet(f);
          usedFrames := usedFrames + 1;
          return f * PAGE_SIZE;
        }
        f := f + 1;
      }
      return 0;
    }

    // pmm_free_frame
    method FreeFrame(addr: nat)
      requires Valid()
      modifies `usedFrames, bitmap
      ensures Valid()
      ensures Used() == if addr / PAGE_SIZE < totalFrames then old(Used())[addr / PAGE_SIZE := false] else old(Used())
    {
      MarkFree(addr / PAGE_SIZE);
    }
  }

  lemma PageOf(addr: nat, k: nat)
    ensures (addr + PAGE_SIZE * k) / PAGE_SIZE == addr / PAGE_SIZE + k
  {
  }

  // The lowest free frame below n, or n.
  function FirstFree(used: seq<bool>, n: nat): (f: nat)
    requires n <= |used|
    ensures f <= n && (f < n ==> !used[f]) && forall g :: 0 <= g < f ==> used[g]
  {
    if n == 0 then 0
    else
      var f := FirstFree(used, n - 1);
      if f < n - 1 || !used[n - 1] then f else n
  }

  // ---- Runs of allocation and freeing ----

  datatype Request = Alloc | Free(f: nat)

  // The flags, and the frames that have been handed out and not yet freed.
  datatype Pool = Pool(used: seq<bool>, owned: set<nat>)

  // What AllocFrame and FreeFrame do to them.
  function Serve(p: Pool, n: nat, r: Request): Pool
    requires n <= |p.used|
  {
    match r
    case Alloc =>
      var f := FirstFree(p.used, n);
      if f < n then Pool(p.used[f := true], p.owned + {f}) else p
    case Free(f) =>
      if f < n then Pool(p.used[f := false], p.owned - {f}) else p
  }

  // Only frames that are handed out are freed.
  predicate Proper(p: Pool, n: nat, rs: seq<Request>)
    requires n <= |p.used|
    decreases |rs|
  {
    rs == [] || ((rs[0].Free? ==> rs[0].f in p.owned) && Proper(Serve(p, n, rs[0]), n, rs[1..]))
  }

  function ServeAll(p: Pool, n: nat, rs: seq<Request>): (q: Pool)
    requires n <= |p.used|
    ensures |q.used| == |p.used|
    decreases |rs|
  {
    if rs == [] then p else ServeAll(Serve(p, n, rs[0]), n, rs[1..])
  }

  // `start` is the state pmm_init leaves: what is used now beyond it is exactly what is owned.
  ghost predicate Accounted(p: Pool, start: seq<bool>, n: nat) {
    n <= |start| == |p.used|
    && (forall f :: 0 <= f < n ==> (p.used[f] <==> start[f] || f in p.owned))
    && (forall f :: f in p.owned ==> f < n && !start[f])
  }

  lemma {:induction false} RunsAccounted(p: Pool, start: seq<bool>, n: nat, rs: seq<Request>)
    requires Accounted(p, start, n) && Proper(p, n, rs)
    ensures Accounted(ServeAll(p, n, rs), start, n)
    decreases |rs|
  {
    if rs != [] { RunsAccounted(Serve(p, n, rs[0]), start, n, rs[1..]); }
  }

  // In every reachable state an allocation yields the lowest free frame, which is neither reserved
  // nor handed out already, as a nonzero address below 2^32; it fails only when nothing is free.
  lemma {:induction false} AllocSafe(start: seq<bool>, n: nat, reserved: nat, rs: seq<Request>)
    requires n <= |start| && n <= MAX_FRAMES && Proper(Pool(start, {}), n, rs)
    requires LOW_FRAMES <= reserved && forall f :: 0 <= f < n && f < reserved ==> start[f]
    ensures var p := ServeAll(Pool(start, {}), n, rs);
      var f := FirstFree(p.used, n);
      && (f < n ==> !start[f] && f !in p.owned && f >= reserved && 0 < f * PAGE_SIZE < 0x1_0000_0000)
      && (f == n <==> forall g :: 0 <= g < n ==> start[g] || g in p.owned)
  {
    RunsAccounted(Pool(start, {}), start, n, rs);
    var p := ServeAll(Pool(start, {}), n, rs);
    var f := FirstFree(p.used, n);
    if f < n { assert p.used[f] <==> start[f] || f in p.owned; }
  }

  // With a page-aligned map: what pmm_init leaves free and any run of requests hands out next lies
  // wholly inside an available region and above the kernel.
  lemma {:induction false} AllocBacked(entries: seq<Entry>, kernelEnd: nat, start: seq<bool>, n: nat, rs: seq<Request>)
    requires Aligned(entries) && n <= |start| && n <= MAX_FRAMES && Proper(Pool(start, {}), n, rs)
    requires forall f :: 0 <= f < n ==> (!start[f] <==> Available(Mmap(entries), f) && f >= Reserve(kernelEnd))
    ensures var p := ServeAll(Pool(start, {}), n, rs);
      var f := FirstFree(p.used, n);
      && (f < n ==> Backed(entries, f) && f >= Reserve(kernelEnd) && f !in p.owned)
      && (f == n <==> forall g :: 0 <= g < n && g >= Reserve(kernelEnd) && Backed(entries, g) ==> g in p.owned)
  {
    AllocSafe(start, n, Reserve(kernelEnd), rs);
    forall f: nat ensures Available(Mmap(entries), f) <==> Backed(entries, f) { AvailableIsBacked(entries, f); }
  }

  // ---- Runs on the bitmap ----

  // One request; the address to free is that of the frame's page.
  method ServeOne(frames: FrameMap, r: Request, ghost p: Pool) returns (ghost q: Pool)
    requires frames.Valid() && p.used == frames.Used()
    modifies frames`usedFrames, frames.bitmap
    ensures frames.Valid() && q == Serve(p, frames.totalFrames, r) && q.used == frames.Used()
  {
    q := Serve(p, frames.totalFrames, r);
    match r
    case Alloc => var addr := frames.AllocFrame();
    case Free(f) => frames.FreeFrame(f * PAGE_SIZE);
  }

  // A run of requests that frees only what was handed out: the bitmap follows the pool, so
  // RunsAccounted and AllocSafe speak of the bitmap.
  method ServeRun(frames: FrameMap, rs: seq<Request>) returns (ghost q: Pool)
    requires frames.Valid() && Proper(Pool(frames.Used(), {}), frames.totalFrames, rs)
    modifies frames`usedFrames, frames.bitmap
    ensures frames.Valid() && q == ServeAll(Pool(old(frames.Used()), {}), frames.totalFrames, rs)
      && q.used == frames.Used()
    ensures Accounted(q, old(frames.Used()), frames.totalFrames)
  {
    ghost var start := frames.Used();
    q := Pool(start, {});
    RunsAccounted(q, start, frames.totalFrames, rs);
    assert rs[0..] == rs;
    var i := 0;
    while i < |rs|
      invariant i <= |rs| && frames.Valid() && q.used == frames.Used()
      invariant ServeAll(q, frames.totalFrames, rs[i..]) == ServeAll(Pool(start, {}), frames.totalFrames, rs)
    {
      assert rs[i..][0] == rs[i] && rs[i..][1..] == rs[i + 1..];
      q := ServeOne(frames, rs[i], q);
      i := i + 1;
    }
  }
}
