// kernel/process/process.c and the clock of kernel/drivers/timer.c: the task table, its `next`
// ring and the operations on them, refining the round-robin policy. Interrupts are off inside
// every operation, so each method is one atomic step. A task is its slot number; NIL stands
// for a null `next`.
module Scheduler {
  import opened Memory
  import opened RoundRobin
  import opened Context
  import Strings

  const NIL: int := -1

  datatype Task = Task(
    pid: nat, name: string, state: Status, stackBase: nat, esp: nat, wakeTick: nat, cpuTicks: nat, next: int)

  const NAME_MAX: nat := 32
  const STACK_SIZE: nat := 16384

  // A PCB after memset.
  const ZERO: Task := Task(0, "", Ready, 0, 0, 0, 0, NIL)

  // `ring` lists the used slots.
  ghost predicate Members(used: seq<bool>, ring: seq<nat>) {
    && |used| == MAX_TASKS
    && (forall p :: 0 <= p < |ring| ==> ring[p] < MAX_TASKS && used[ring[p]])
    && (forall i :: 0 <= i < MAX_TASKS && used[i] ==> i in ring)
  }

  // From ring_head, `next` visits each slot of `ring` once, in that order, and comes back.
  ghost predicate Links(tasks: seq<Task>, ring: seq<nat>) {
    && |tasks| == MAX_TASKS
    && 0 < |ring| && ring[0] == 0
    && (forall p :: 0 <= p < |ring| ==> ring[p] < MAX_TASKS)
    && (forall p, q :: 0 <= p < q < |ring| ==> ring[p] != ring[q])
    && (forall p {:trigger tasks[ring[p]].next} :: 0 <= p < |ring| ==>
          tasks[ring[p]].next == ring[if p + 1 < |ring| then p + 1 else 0])
  }

  function View(i: nat, t: Task): Thread {
    Thread(i, t.pid, t.state, t.wakeTick, t.cpuTicks)
  }

  // The run queue that the table and its ring represent.
  function Threads(tasks: seq<Task>, ring: seq<nat>): (q: seq<Thread>)
    requires forall p :: 0 <= p < |ring| ==> ring[p] < |tasks|
    ensures |q| == |ring|
    ensures forall p {:trigger q[p]} :: 0 <= p < |ring| ==> q[p] == View(ring[p], tasks[ring[p]])
  {
    seq(|ring|, p requires 0 <= p < |ring| => View(ring[p], tasks[ring[p]]))
  }

  lemma ThreadsUpdate(tasks: seq<Task>, ring: seq<nat>, p: nat, t: Task)
    requires forall k :: 0 <= k < |ring| ==> ring[k] < |tasks|
    requires forall j, k :: 0 <= j < k < |ring| ==> ring[j] != ring[k]
    requires p < |ring|
    ensures Threads(tasks[ring[p] := t], ring) == Threads(tasks, ring)[p := View(ring[p], t)]
  {
  }

  lemma LinksUpdate(tasks: seq<Task>, ring: seq<nat>, i: nat, t: Task)
    requires Links(tasks, ring) && i < MAX_TASKS && t.next == tasks[i].next
    ensures Links(tasks[i := t], ring)
  {
    forall p | 0 <= p < |ring|
      ensures tasks[i := t][ring[p]].next == ring[if p + 1 < |ring| then p + 1 else 0]
    {
      assert tasks[ring[p]].next == ring[if p + 1 < |ring| then p + 1 else 0];
    }
  }

  lemma Pigeonhole(ring: seq<nat>, n: nat)
    requires forall p :: 0 <= p < |ring| ==> ring[p] < n
    requires forall p, q :: 0 <= p < q < |ring| ==> ring[p] != ring[q]
    ensures |ring| <= n
    decreases n
  {
    if |ring| > 0 {
      assert ring[0] < n;
      if p :| 0 <= p < |ring| && ring[p] == n - 1 {
        var rest := ring[..p] + ring[p + 1..];
        assert forall q :: 0 <= q < |rest| ==> rest[q] == ring[if q < p then q else q + 1];
        Pigeonhole(rest, n - 1);
      } else {
        Pigeonhole(ring, n - 1);
      }
    }
  }

  // The slot d links behind position p.
  lemma NextAt(tasks: seq<Task>, ring: seq<nat>, p: nat, d: nat)
    requires Links(tasks, ring) && p < |ring| && d < |ring|
    ensures tasks[ring[At(|ring|, p, d)]].next == ring[At(|ring|, p, d + 1)]
  {
  }

  // i tasks behind position p0 have been looked at without finding a READY one, and p is next;
  // after a full round, nobody is READY.
  ghost predicate Scanned(q: seq<Thread>, p0: nat, i: nat, p: nat) {
    p0 < |q| && p < |q| &&
    ((i < |q| && p == At(|q|, p0, i + 1) && forall d :: 1 <= d <= i ==> q[At(|q|, p0, d)].state != Ready)
     || forall k :: 0 <= k < |q| ==> q[k].state != Ready)
  }

  lemma ScannedStep(q: seq<Thread>, p0: nat, i: nat, p: nat)
    requires Scanned(q, p0, i, p) && q[p].state != Ready && q[p0].state != Ready
    ensures Scanned(q, p0, i + 1, if p + 1 < |q| then p + 1 else 0)
  {
    if i + 1 == |q| && p == At(|q|, p0, i + 1) && forall d :: 1 <= d <= i ==> q[At(|q|, p0, d)].state != Ready {
      forall k | 0 <= k < |q| ensures q[k].state != Ready {
        if k != p0 { assert At(|q|, p0, Dist(|q|, p0, k)) == k; }
      }
    }
  }

  lemma {:induction false} ScannedFound(q: seq<Thread>, p0: nat, i: nat, p: nat)
    requires Scanned(q, p0, i, p) && q[p].state == Ready && q[p0].state != Ready
    ensures Turn(q, p0, 1) < |q| && p == At(|q|, p0, Turn(q, p0, 1))
  {
    TurnIs(q, p0, i + 1);
  }

  lemma {:induction false} ScannedAll(q: seq<Thread>, p0: nat, i: nat, p: nat)
    requires Scanned(q, p0, i, p) && i >= |q|
    ensures Turn(q, p0, 1) == |q| && q[p].state != Ready
  {
    TurnIs(q, p0, |q|);
  }

  // The wake-up pass after k threads.
  function Woken(q: seq<Thread>, k: nat, now: nat): (r: seq<Thread>)
    ensures |r| == |q|
  {
    seq(|q|, i requires 0 <= i < |q| => if i < k then Wake(q[i], now) else q[i])
  }

  lemma WokenEnds(q: seq<Thread>, now: nat)
    ensures Woken(q, 0, now) == q && Woken(q, |q|, now) == WakeAll(q, now)
  {
  }

  lemma WokenStep(q: seq<Thread>, k: nat, now: nat)
    requires k < |q|
    ensures Woken(q, k, now)[k] == q[k]
    ensures Woken(q, k + 1, now) == Woken(q, k, now)[k := Wake(q[k], now)]
  {
  }

  // ---- Creating a task ----

  datatype Slot = Fresh(i: nat) | Reclaimed(i: nat) | NoSlot

  function FirstUnused(used: seq<bool>): (r: nat)
    ensures r <= |used| && (r < |used| ==> !used[r]) && forall j :: 0 <= j < r ==> used[j]
  {
    if used == [] || !used[0] then 0 else 1 + FirstUnused(used[1..])
  }

  function FirstDead(tasks: seq<Task>, used: seq<bool>): (r: nat)
    requires |tasks| == |used|
    ensures r <= |used| && (r < |used| ==> used[r] && tasks[r].state == Dead)
    ensures forall j :: 0 <= j < r ==> !(used[j] && tasks[j].state == Dead)
  {
    if used == [] || (used[0] && tasks[0].state == Dead) then 0 else 1 + FirstDead(tasks[1..], used[1..])
  }

  // Which slot alloc_pcb hands out: the first unused one, else that of the first dead task.
  function AllocSlot(tasks: seq<Task>, used: seq<bool>): Slot
    requires |tasks| == |used|
  {
    var (i, d) := (FirstUnused(used), FirstDead(tasks, used));
    if i < |used| then Fresh(i) else if d < |used| then Reclaimed(d) else NoSlot
  }

  // What task_create fills in; stack is what kmalloc returned, 0 for nothing.
  datatype New = New(pid: nat, name: string, stack: nat)

  // The PCB once its name and number are set, and once it is ready to run.
  function Begun(n: New): Task {
    ZERO.(pid := n.pid, name := Strings.Cut(n.name, NAME_MAX))
  }

  function Filled(n: New, next: int): Task {
    Begun(n).(stackBase := n.stack, esp := n.stack + STACK_SIZE - 28, state := Ready, next := next)
  }

  // The table once task_create has used slot i.
  function Created(tasks: seq<Task>, used: seq<bool>, i: nat, n: New): (seq<Task>, seq<bool>)
    requires 0 < |tasks| == |used| && i < |tasks|
  {
    var zeroed := tasks[i := ZERO];
    if n.stack == 0 then (zeroed[i := Begun(n)], used[i := false])
    else
      var linked := zeroed[i := Filled(n, zeroed[0].next)];
      (linked[0 := linked[0].(next := i)], used[i := true])
  }

  // A new task is linked right behind ring_head.
  function Inserted(ring: seq<nat>, i: nat): seq<nat>
    requires 0 < |ring|
  {
    ring[..1] + [i] + ring[1..]
  }

  lemma FreshMembers(used: seq<bool>, ring: seq<nat>, i: nat)
    requires Members(used, ring) && 0 < |ring| && i < MAX_TASKS && !used[i]
    ensures i !in ring
    ensures Members(used[i := true], Inserted(ring, i))
    ensures Members(used[i := false], ring)
  {
    var r := Inserted(ring, i);
    forall j | j in ring ensures j in r {
      var p :| 0 <= p < |ring| && ring[p] == j;
      assert r[if p == 0 then 0 else p + 1] == j;
    }
    assert r[1] == i;
    assert forall p :: 2 <= p < |r| ==> r[p] == ring[p - 1];
  }

  lemma FreshLinks(tasks: seq<Task>, used: seq<bool>, ring: seq<nat>, i: nat, n: New)
    requires Links(tasks, ring) && |used| == MAX_TASKS && i < MAX_TASKS && i !in ring && n.stack != 0
    ensures Links(Created(tasks, used, i, n).0, Inserted(ring, i))
  {
    var ts := Created(tasks, used, i, n).0;
    var r := Inserted(ring, i);
    assert forall p :: 2 <= p < |r| ==> r[p] == ring[p - 1];
    assert tasks[ring[0]].next == ring[if 1 < |ring| then 1 else 0];
    forall p | 0 <= p < |r| ensures ts[r[p]].next == r[if p + 1 < |r| then p + 1 else 0] {
      if p >= 2 {
        assert ring[p - 1] != ring[0] && ts[r[p]] == tasks[ring[p - 1]];
        assert tasks[ring[p - 1]].next == ring[if p < |ring| then p else 0];
      }
    }
  }

  lemma FreshThreads(tasks: seq<Task>, used: seq<bool>, ring: seq<nat>, i: nat, n: New)
    requires Links(tasks, ring) && |used| == MAX_TASKS && i < MAX_TASKS && i !in ring && n.stack != 0
    requires forall p :: 0 <= p < |Inserted(ring, i)| ==> Inserted(ring, i)[p] < MAX_TASKS
    ensures Threads(Created(tasks, used, i, n).0, Inserted(ring, i))
         == Threads(tasks, ring)[..1] + [Thread(i, n.pid, Ready, 0, 0)] + Threads(tasks, ring)[1..]
  {
    var ts := Created(tasks, used, i, n).0;
    var r := Inserted(ring, i);
    assert forall p :: 2 <= p < |r| ==> r[p] == ring[p - 1] && ring[p - 1] in ring;
  }

  // A failed kmalloc leaves the ring alone.
  lemma FailedLinks(tasks: seq<Task>, used: seq<bool>, ring: seq<nat>, i: nat, n: New)
    requires Links(tasks, ring) && |used| == MAX_TASKS && i < MAX_TASKS && i !in ring && n.stack == 0
    ensures Links(Created(tasks, used, i, n).0, ring)
    ensures Threads(Created(tasks, used, i, n).0, ring) == Threads(tasks, ring)
  {
    OffRing(tasks, Created(tasks, used, i, n).0, ring, i);
  }

  // What happens to a slot that is not linked does not show.
  lemma OffRing(tasks: seq<Task>, ts: seq<Task>, ring: seq<nat>, i: nat)
    requires Links(tasks, ring) && i !in ring && |ts| == |tasks|
    requires forall k :: 0 <= k < |ts| && k != i ==> ts[k] == tasks[k]
    ensures Links(ts, ring) && Threads(ts, ring) == Threads(tasks, ring)
  {
    forall p | 0 <= p < |ring| ensures ts[ring[p]] == tasks[ring[p]] {
      assert ring[p] in ring;
    }
  }

  // alloc_pcb has zeroed the PCB and claimed the slot already.
  lemma CreatedTwice(tasks: seq<Task>, used: seq<bool>, i: nat, n: New)
    requires 0 < |tasks| == |used| && i < |tasks|
    ensures Created(tasks[i := ZERO], used[i := true], i, n) == Created(tasks, used, i, n)
    ensures used[i] ==> used[i := true] == used
  {
    assert tasks[i := ZERO][i := ZERO] == tasks[i := ZERO];
    assert used[i := true][i := true] == used[i := true] && used[i := true][i := false] == used[i := false];
  }

  // task_create in a free slot, with a stack: the ring grows behind its head.
  lemma SpawnRefines(tasks: seq<Task>, used: seq<bool>, ring: seq<nat>, i: nat, n: New,
                     ts: seq<Task>, us: seq<bool>, r: seq<nat>)
    requires Links(tasks, ring) && Members(used, ring) && i < MAX_TASKS && !used[i] && n.stack != 0
    requires (ts, us) == Created(tasks, used, i, n) && r == Inserted(ring, i)
    ensures Links(ts, r) && Members(us, r)
    ensures Threads(ts, r) == Threads(tasks, ring)[..1] + [Thread(i, n.pid, Ready, 0, 0)] + Threads(tasks, ring)[1..]
  {
    FreshMembers(used, ring, i);
    FreshLinks(tasks, used, ring, i, n);
    FreshThreads(tasks, used, ring, i, n);
  }

  // ... and without one.
  lemma FailedSpawnRefines(tasks: seq<Task>, used: seq<bool>, ring: seq<nat>, i: nat, n: New,
                           ts: seq<Task>, us: seq<bool>)
    requires Links(tasks, ring) && Members(used, ring) && i < MAX_TASKS && !used[i] && n.stack == 0
    requires (ts, us) == Created(tasks, used, i, n)
    ensures Links(ts, ring) && Members(us, ring)
    ensures Threads(ts, ring) == Threads(tasks, ring)
  {
    FreshMembers(used, ring, i);
    FailedLinks(tasks, used, ring, i, n);
  }

  // ---- The reclaim branch of alloc_pcb ----

  ghost predicate HasRing(tasks: seq<Task>, used: seq<bool>) {
    exists r :: Links(tasks, r) && Members(used, r)
  }

  // After reclaiming d = ring[p] with a stack, `next` never leaves ring[1..p + 1] again.
  lemma StaysInLoop(tasks: seq<Task>, used: seq<bool>, ring: seq<nat>, p: nat, n: New, r: seq<nat>, k: nat)
    requires Links(tasks, ring) && |used| == MAX_TASKS && 0 < p < |ring| && n.stack != 0
    requires Links(Created(tasks, used, ring[p], n).0, r) && k < |r|
    ensures exists j :: 1 <= j <= p && Created(tasks, used, ring[p], n).0[r[k]].next == ring[j]
    ensures Created(tasks, used, ring[p], n).0[r[k]].next != 0
    decreases k
  {
    var ts := Created(tasks, used, ring[p], n).0;
    assert forall j :: 1 <= j <= p ==> ring[j] != ring[0];
    if k == 0 {
      assert ts[r[0]].next == ring[p];
    } else {
      StaysInLoop(tasks, used, ring, p, n, r, k - 1);
      var j :| 1 <= j <= p && ts[r[k - 1]].next == ring[j];
      assert ts[r[k - 1]].next == r[k];
      assert ring[j] != ring[0] && (j != p ==> ring[j] != ring[p]);
      if j < p {
        assert tasks[ring[j]].next == ring[if j + 1 < |ring| then j + 1 else 0];
        assert ts[r[k]].next == ring[j + 1];
      } else {
        assert tasks[ring[0]].next == ring[if 1 < |ring| then 1 else 0];
        assert ts[r[k]].next == ring[1];
      }
    }
  }

  // After reclaiming d = ring[p] without a stack, `next` still leads from ring_head to d.
  lemma StillReaches(tasks: seq<Task>, used: seq<bool>, ring: seq<nat>, p: nat, n: New, r: seq<nat>, k: nat)
    requires Links(tasks, ring) && |used| == MAX_TASKS && 0 < p < |ring| && k <= p && n.stack == 0
    requires Links(Created(tasks, used, ring[p], n).0, r)
    ensures k < |r| && r[k] == ring[k]
    decreases k
  {
    var ts := Created(tasks, used, ring[p], n).0;
    if k > 0 {
      StillReaches(tasks, used, ring, p, n, r, k - 1);
      assert ring[k - 1] != ring[p] && ring[k] != ring[0];
      assert tasks[ring[k - 1]].next == ring[if k < |ring| then k else 0];
      assert ts[r[k - 1]].next == r[if k < |r| then k else 0];
    }
  }

  // Reclaiming the slot of a task that is still linked destroys the ring, with or without a
  // stack: no order of the used slots is one that `next` visits and returns from.
  lemma ReclaimBreaksRing(tasks: seq<Task>, used: seq<bool>, ring: seq<nat>, d: nat, n: New)
    requires Links(tasks, ring) && Members(used, ring) && d in ring && d != 0
    ensures var (ts, us) := Created(tasks, used, d, n); !HasRing(ts, us)
  {
    var (ts, us) := Created(tasks, used, d, n);
    var p :| 0 <= p < |ring| && ring[p] == d;
    forall r | Links(ts, r) ensures !Members(us, r) {
      if n.stack != 0 {
        StaysInLoop(tasks, used, ring, p, n, r, |r| - 1);
      } else {
        StillReaches(tasks, used, ring, p, n, r, p);
        assert !us[r[p]];
      }
    }
  }

  // So does reclaiming slot 0, if any other slot is used.
  lemma HeadReclaimBreaksRing(tasks: seq<Task>, used: seq<bool>, n: New)
    requires |tasks| == |used| == MAX_TASKS && used[1]
    ensures var (ts, us) := Created(tasks, used, 0, n); !HasRing(ts, us)
  {
    var (ts, us) := Created(tasks, used, 0, n);
    forall r | Links(ts, r) ensures !Members(us, r) {
      assert ts[r[0]].next == r[if 1 < |r| then 1 else 0];
      assert us[1];
    }
  }

  // The table after task_create, whatever alloc_pcb finds.
  function AfterCreate(tasks: seq<Task>, used: seq<bool>, n: New): (seq<Task>, seq<bool>)
    requires 0 < |tasks| == |used|
  {
    var slot := AllocSlot(tasks, used);
    if slot.NoSlot? then (tasks, used) else Created(tasks, used, slot.i, n)
  }

  // task_create keeps a ring if and only if it does not reclaim a slot: some slot is unused, or
  // no task in a used one is dead.
  lemma SpawnKeepsRingIff(tasks: seq<Task>, used: seq<bool>, ring: seq<nat>, n: New)
    requires Links(tasks, ring) && Members(used, ring)
    ensures var (ts, us) := AfterCreate(tasks, used, n);
      HasRing(ts, us) <==> ((exists i :: 0 <= i < MAX_TASKS && !used[i])
                            || forall i :: 0 <= i < MAX_TASKS && used[i] ==> tasks[i].state != Dead)
  {
    var slot := AllocSlot(tasks, used);
    var (ts, us) := AfterCreate(tasks, used, n);
    match slot
    case Fresh(i) =>
      FreshKeepsRing(tasks, used, ring, n, i);
      assert !used[i];
    case Reclaimed(i) =>
      if i == 0 { HeadReclaimBreaksRing(tasks, used, n); } else { ReclaimBreaksRing(tasks, used, ring, i, n); }
    case NoSlot =>
      assert Links(ts, ring) && Members(us, ring);
  }

  lemma FreshKeepsRing(tasks: seq<Task>, used: seq<bool>, ring: seq<nat>, n: New, i: nat)
    requires Links(tasks, ring) && Members(used, ring) && i < MAX_TASKS && !used[i]
    ensures var (ts, us) := Created(tasks, used, i, n); HasRing(ts, us)
  {
    var (ts, us) := Created(tasks, used, i, n);
    if n.stack == 0 {
      FailedSpawnRefines(tasks, used, ring, i, n, ts, us);
      assert Links(ts, ring) && Members(us, ring);
    } else {
      SpawnRefines(tasks, used, ring, i, n, ts, us, Inserted(ring, i));
      assert Links(ts, Inserted(ring, i)) && Members(us, Inserted(ring, i));
    }
  }

  // The stack of a new task, prepared below its top, and no other word changed.
  ghost predicate NewStack(m: seq<word>, m': seq<word>, stack: nat, entry: word, exit: word) {
    var top := stack + STACK_SIZE;
    Prepared(m', top, entry, exit) && SameOutside(m, m', top - 28, top)
  }

  // What task_create is to the policy unless it reclaims a slot.
  function SpawnEvent(slot: Slot, stack: nat): Event
    requires !slot.Reclaimed?
  {
    if slot.NoSlot? then SpawnFails(0) else if stack == 0 then SpawnFails(1) else Spawn(slot.i)
  }

  class Kernel {
    const tasks: array<Task>
    const slotUsed: array<bool>
    const freq: nat
    var current: nat
    var nextPid: nat
    var quantum: int
    var ticks: nat
    ghost var ring: seq<nat>   // slots in `next` order
    ghost var pos: nat         // where in it `current` is

    // The ring, which is all that scheduling looks at.
    ghost predicate Ringed()
      reads this, tasks
    {
      tasks.Length == MAX_TASKS && Links(tasks[..], ring) && pos < |ring| && ring[pos] == current
    }

    ghost predicate Valid()
      reads this, tasks, slotUsed
    {
      Ringed() && slotUsed.Length == MAX_TASKS && Members(slotUsed[..], ring)
    }

    // The run queue this table represents.
    ghost function Abs(): (a: Queue)
      requires Ringed()
      reads this, tasks
      ensures a.cur < |a.q|
    {
      Queue(Threads(tasks[..], ring), pos, nextPid, quantum, ticks, freq)
    }

    // scheduler_init: the boot flow becomes task 0.
    constructor (hz: nat, now: nat)
      ensures Valid() && ring == [0] && fresh(tasks) && fresh(slotUsed)
      ensures Abs() == Queue([Thread(0, 0, Running, 0, 0)], 0, 1, QUANTUM, now, hz)
    {
      freq := hz;
      ticks := now;
      tasks := new Task[MAX_TASKS](i => if i == 0 then ZERO.(name := "kernel", state := Running, next := 0) else ZERO);
      slotUsed := new bool[MAX_TASKS](i => i == 0);
      current, nextPid, quantum := 0, 1, QUANTUM;
      ring, pos := [0], 0;
      new;
      assert slotUsed[0] && forall i :: 0 < i < MAX_TASKS ==> !slotUsed[i];
    }

    // Stores a PCB whose link does not change.
    method SetTask(i: nat, t: Task, ghost p: nat)
      requires Ringed() && p < |ring| && ring[p] == i && t.next == tasks[i].next
      modifies tasks
      ensures Ringed() && tasks[..] == old(tasks[..])[i := t]
      ensures Abs() == old(Abs()).(q := old(Abs()).q[p := View(i, t)])
    {
      ghost var before := tasks[..];
      tasks[i] := t;
      assert tasks[..] == before[i := t];
      ThreadsUpdate(before, ring, p, t);
      LinksUpdate(before, ring, i, t);
    }

    // The loop of schedule(): at most MAX_TASKS steps along `next`, stopping at a READY task.
    method Pick() returns (n: nat, ghost p: nat)
      requires Ringed() && tasks[current].state != Ready
      ensures p < |ring| && n == ring[p]
      ensures var e := Turn(Abs().q, pos, 1);
        if e < |ring| then p == At(|ring|, pos, e) else tasks[n].state != Ready
    {
      ghost var q := Abs().q;
      p := At(|ring|, pos, 1);
      Pigeonhole(ring, MAX_TASKS);
      NextAt(tasks[..], ring, pos, 0);
      n := tasks[current].next;
      var i := 0;
      while i < MAX_TASKS
        invariant i <= MAX_TASKS && p < |ring| && n == ring[p] && Scanned(q, pos, i, p)
      {
        assert q[p] == View(n, tasks[n]);
        if tasks[n].state == Ready {
          ScannedFound(q, pos, i, p);
          return;
        }
        ScannedStep(q, pos, i, p);
        n := tasks[n].next;
        p := if p + 1 < |ring| then p + 1 else 0;
        i := i + 1;
      }
      ScannedAll(q, pos, i, p);
      assert q[p] == View(n, tasks[n]);
    }

    // prev->state = READY if it was RUNNING, n->state = RUNNING, current = n. The switch to n's
    // stack is in the Context module.
    method HandOver(n: nat, ghost m: nat)
      requires Ringed() && m < |ring| && ring[m] == n && m != pos
      modifies tasks, `current, `pos
      ensures Ringed()
      ensures var a := old(Abs());
        Abs() == a.(q := SetState(if a.q[a.cur].state == Running then SetState(a.q, a.cur, Ready) else a.q, m, Running),
                    cur := m)
    {
      if tasks[current].state == Running { SetTask(current, tasks[current].(state := Ready), pos); }
      SetTask(n, tasks[n].(state := Running), m);
      current := n;
      pos := m;
    }

    method Schedule()
      requires Ringed() && tasks[current].state != Ready
      modifies tasks, `current, `pos
      ensures Ringed() && ring == old(ring)
      ensures Abs() == RoundRobin.Schedule(old(Abs()))
    {
      var prev := current;
      ghost var p;
      var n;
      n, p := Pick();
      assert Abs().q[pos] == View(prev, tasks[prev]) && Abs().q[p] == View(n, tasks[n]);
      if tasks[n].state != Ready {
        if tasks[prev].state == Running { return; }
        n := prev;
      }
      if n == prev {
        SetTask(prev, tasks[prev].(state := Running), pos);
        return;
      }
      HandOver(n, p);
    }

    method WakeOne(t: nat, ghost p: nat)
      requires Ringed() && p < |ring| && ring[p] == t
      modifies tasks
      ensures Ringed() && tasks[t].next == old(tasks[t].next)
      ensures Abs() == old(Abs()).(q := old(Abs()).q[p := Wake(old(Abs()).q[p], ticks)])
    {
      assert Abs().q[p] == View(t, tasks[t]);
      if tasks[t].state == Sleeping && ticks >= tasks[t].wakeTick {
        SetTask(t, tasks[t].(state := Ready), p);
      }
    }

    // One round of that pass, which ends when it is back at ring_head.
    method WakeNext(t: nat, ghost p: nat) returns (n: nat)
      requires Ringed() && p < |ring| && ring[p] == t
      modifies tasks
      ensures Ringed() && (if p + 1 < |ring| then n == ring[p + 1] && n != 0 else n == 0)
      ensures var q := old(Threads(tasks[..], ring)); Threads(tasks[..], ring) == q[p := Wake(q[p], ticks)]
    {
      WakeOne(t, p);
      assert tasks[..][ring[p]].next == ring[if p + 1 < |ring| then p + 1 else 0];
      assert p + 1 < |ring| ==> ring[p + 1] != ring[0];
      n := tasks[t].next;
    }

    // The do-while pass of scheduler_tick over the ring.
    method WakeSleepers()
      requires Ringed()
      modifies tasks
      ensures Ringed()
      ensures Abs() == old(Abs()).(q := WakeAll(old(Abs()).q, ticks))
    {
      ghost var q := Threads(tasks[..], ring);
      ghost var k: nat := 0;
      var t := 0;
      WokenEnds(q, ticks);
      while true
        invariant Ringed() && k < |ring| == |q| && t == ring[k]
        invariant Threads(tasks[..], ring) == Woken(q, k, ticks)
        decreases |ring| - k
      {
        WokenStep(q, k, ticks);
        t := WakeNext(t, k);
        k := k + 1;
        if t == 0 { break; }
      }
    }

    // timer_callback, and scheduler_tick up to the quantum.
    method ChargeAndWake()
      requires Ringed()
      modifies `ticks, tasks
      ensures Ringed() && Abs() == Clock(old(Abs()))
    {
      ghost var q := Abs().q;
      ticks := ticks + 1;
      assert q[pos] == View(current, tasks[current]);
      SetTask(current, tasks[current].(cpuTicks := tasks[current].cpuTicks + 1), pos);
      assert Abs().q == q[pos := q[pos].(cpuTicks := q[pos].cpuTicks + 1)];
      WakeSleepers();
    }

    // The timer interrupt: timer_callback and scheduler_tick.
    method Tick()
      requires Valid() && tasks[current].state == Running
      modifies this, tasks
      ensures Valid() && ring == old(ring)
      ensures Abs() == Step(old(Abs()), RoundRobin.Tick)
    {
      ghost var a := Abs();
      ChargeAndWake();
      assert Abs().q[pos] == View(current, tasks[current]);
      quantum := quantum - 1;
      if quantum > 0 { return; }
      quantum := QUANTUM;
      assert Abs() == Before(a, RoundRobin.Tick);
      Schedule();
    }

    method TaskYield()
      requires Valid() && tasks[current].state == Running
      modifies tasks, `current, `pos
      ensures Valid() && ring == old(ring)
      ensures Abs() == Step(old(Abs()), Yield)
    {
      Schedule();
    }

    method TaskSleep(ms: nat)
      requires Valid() && tasks[current].state == Running
      modifies tasks, `current, `pos
      ensures Valid() && ring == old(ring)
      ensures Abs() == Step(old(Abs()), Sleep(ms))
    {
      ghost var a := Abs();
      SetTask(current, tasks[current].(wakeTick := ticks + ms * freq / 1000, state := Sleeping), pos);
      assert Abs() == Before(a, Sleep(ms));
      Schedule();
    }

    method TaskExit()
      requires Valid() && tasks[current].state == Running
      modifies tasks, `current, `pos
      ensures Valid() && ring == old(ring)
      ensures Abs() == Step(old(Abs()), Exit)
    {
      ghost var a := Abs();
      SetTask(current, tasks[current].(state := Dead), pos);
      assert Abs() == Before(a, Exit);
      Schedule();
    }

    // alloc_pcb; `freed` is the stack it gives back to the heap, 0 for none.
    method AllocPcb() returns (i: int, freed: nat)
      requires tasks.Length == slotUsed.Length == MAX_TASKS
      modifies tasks, slotUsed
      ensures match AllocSlot(old(tasks[..]), old(slotUsed[..]))
        case NoSlot => i == NIL && freed == 0 && tasks[..] == old(tasks[..]) && slotUsed[..] == old(slotUsed[..])
        case Fresh(j) =>
          && i == j && freed == 0
          && tasks[..] == old(tasks[..])[j := ZERO] && slotUsed[..] == old(slotUsed[..])[j := true]
        case Reclaimed(j) =>
          && i == j && freed == old(tasks[j].stackBase)
          && tasks[..] == old(tasks[..])[j := ZERO] && slotUsed[..] == old(slotUsed[..])
    {
      ghost var ts, us := tasks[..], slotUsed[..];
      freed := 0;
      i := 0;
      while i < MAX_TASKS
        invariant 0 <= i <= MAX_TASKS && FirstUnused(us) >= i
        invariant tasks[..] == ts && slotUsed[..] == us
      {
        if !slotUsed[i] {
          slotUsed[i] := true;
          tasks[i] := ZERO;
          return;
        }
        i := i + 1;
      }
      i := 0;
      while i < MAX_TASKS
        invariant 0 <= i <= MAX_TASKS && FirstDead(ts, us) >= i
        invariant tasks[..] == ts && slotUsed[..] == us
      {
        if slotUsed[i] && tasks[i].state == Dead {
          freed := tasks[i].stackBase;
          tasks[i] := ZERO;
          return;
        }
        i := i + 1;
      }
      return NIL, 0;
    }

    // Fills in the PCB at i, prepares its stack and links it behind ring_head.
    method FillPcb(i: nat, n: New, cpu: Cpu, entry: word, exit: word)
      requires tasks.Length == slotUsed.Length == MAX_TASKS && i < MAX_TASKS && tasks[i] == ZERO && slotUsed[i]
      requires n.pid == nextPid && n.stack + STACK_SIZE <= |cpu.mem|
      modifies `nextPid, tasks, slotUsed, cpu`mem
      ensures nextPid == old(nextPid) + 1
      ensures (tasks[..], slotUsed[..]) == Created(old(tasks[..]), old(slotUsed[..]), i, n)
      ensures if n.stack == 0 then cpu.mem == old(cpu.mem) else NewStack(old(cpu.mem), cpu.mem, n.stack, entry, exit)
    {
      ghost var ts, us := tasks[..], slotUsed[..];
      assert ts[i := ZERO] == ts && us[i := true] == us;
      tasks[i] := tasks[i].(pid := nextPid);
      nextPid := nextPid + 1;
      tasks[i] := tasks[i].(name := Strings.Cut(n.name, NAME_MAX));
      tasks[i] := tasks[i].(stackBase := n.stack);
      assert tasks[..] == ts[i := Begun(n).(stackBase := n.stack)];
      if n.stack == 0 {
        slotUsed[i] := false;
      } else {
        tasks[i] := tasks[i].(state := Ready);
        var sp := PrepareStack(cpu, n.stack + STACK_SIZE, entry, exit);
        tasks[i] := tasks[i].(esp := sp);
        assert tasks[..] == ts[i := Filled(n, NIL)];
        Link(i);
        assert ts[i := Filled(n, NIL)][i := Filled(n, ts[i := Filled(n, NIL)][0].next)]
          == ts[i := Filled(n, ts[0].next)];
      }
    }

    // insert right after the kernel task
    method Link(i: nat)
      requires tasks.Length == MAX_TASKS && i < MAX_TASKS
      modifies tasks
      ensures var linked := old(tasks[..])[i := old(tasks[i]).(next := old(tasks[0].next))];
        tasks[..] == linked[0 := linked[0].(next := i)]
    {
      tasks[i] := tasks[i].(next := tasks[0].next);
      tasks[0] := tasks[0].(next := i);
    }

    // The table now is ts and us with a task created in the free slot i: the ring grows with it,
    // unless there was no stack.
    ghost method Adopt(ts: seq<Task>, us: seq<bool>, i: nat, n: New, a: Queue)
      requires Links(ts, ring) && Members(us, ring) && i < MAX_TASKS && !us[i]
      requires tasks.Length == slotUsed.Length == MAX_TASKS
      requires (tasks[..], slotUsed[..]) == Created(ts, us, i, n)
      requires a == Queue(Threads(ts, ring), pos, n.pid, quantum, ticks, freq) && nextPid == n.pid + 1
      requires pos < |ring| && ring[pos] == current
      modifies `ring, `pos
      ensures Spawns(a, Fresh(i), n.stack)
    {
      if n.stack == 0 {
        FailedSpawnRefines(ts, us, ring, i, n, tasks[..], slotUsed[..]);
        assert Abs() == a.(nextPid := a.nextPid + 1);
      } else {
        AdoptLinked(ts, us, i, n, a);
      }
    }

    ghost method AdoptLinked(ts: seq<Task>, us: seq<bool>, i: nat, n: New, a: Queue)
      requires Links(ts, ring) && Members(us, ring) && i < MAX_TASKS && !us[i] && n.stack != 0
      requires tasks.Length == slotUsed.Length == MAX_TASKS
      requires (tasks[..], slotUsed[..]) == Created(ts, us, i, n)
      requires a == Queue(Threads(ts, ring), pos, n.pid, quantum, ticks, freq) && nextPid == n.pid + 1
      requires pos < |ring| && ring[pos] == current
      modifies `ring, `pos
      ensures Valid() && Abs() == Spawned(a, i)
    {
      ghost var r := Inserted(ring, i);
      SpawnRefines(ts, us, ring, i, n, tasks[..], slotUsed[..], r);
      ring, pos := r, if pos == 0 then 0 else pos + 1;
    }

    // task_create, given what kmalloc returns for its stack; `freed` is the stack of a reclaimed
    // task. Unless a slot is reclaimed it is the policy's Spawn; if one is, see ReclaimBreaksRing.
    method TaskCreate(name: string, entry: word, exit: word, stack: nat, cpu: Cpu) returns (t: int, freed: nat)
      requires Valid() && stack + STACK_SIZE <= |cpu.mem|
      modifies this, tasks, slotUsed, cpu`mem
      ensures var slot := AllocSlot(old(tasks[..]), old(slotUsed[..]));
        && t == (if slot.NoSlot? || stack == 0 then NIL else slot.i)
        && freed == (if slot.Reclaimed? then old(tasks[..])[slot.i].stackBase else 0)
      ensures (tasks[..], slotUsed[..])
        == AfterCreate(old(tasks[..]), old(slotUsed[..]), New(old(nextPid), name, stack))
      ensures if t == NIL then cpu.mem == old(cpu.mem) else NewStack(old(cpu.mem), cpu.mem, stack, entry, exit)
      ensures !AllocSlot(old(tasks[..]), old(slotUsed[..])).Reclaimed? ==>
        Spawns(old(Abs()), AllocSlot(old(tasks[..]), old(slotUsed[..])), stack)
    {
      ghost var ts, us, slot, a := tasks[..], slotUsed[..], AllocSlot(tasks[..], slotUsed[..]), Abs();
      var i;
      i, freed := AllocPcb();
      if i == NIL { return NIL, 0; }
      var n := New(nextPid, name, stack);
      CreatedTwice(ts, us, i, n);
      FillPcb(i, n, cpu, entry, exit);
      t := if stack == 0 then NIL else i;
      if slot.Fresh? { Adopt(ts, us, i, n, a); }
    }

    ghost predicate Spawns(a: Queue, slot: Slot, stack: nat)
      requires !slot.Reclaimed? && a.cur < |a.q|
      reads this, tasks, slotUsed
    {
      Valid() && Abs() == Step(a, SpawnEvent(slot, stack))
    }
  }
}
