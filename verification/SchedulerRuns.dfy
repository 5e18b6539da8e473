// Runs of scheduler calls on the task table: each is a run of the round-robin policy, so what is
// proved of those holds of the table.
module SchedulerRuns {
  import opened Memory
  import opened RoundRobin
  import opened Context
  import opened Scheduler

  // A task_create, given what kmalloc returns for its stack, the timer interrupt, and the three
  // calls of the running task.
  datatype Call =
    | Create(name: string, entry: word, exit: word, stack: nat)
    | Interrupt
    | GiveWay
    | SleepFor(ms: nat)
    | Leave

  // The slots that the threads of a run queue occupy.
  ghost function Occupied(a: Queue): (s: seq<bool>)
    ensures |s| == MAX_TASKS
  {
    seq(MAX_TASKS, i requires 0 <= i < MAX_TASKS => exists j :: 0 <= j < |a.q| && a.q[j].slot == i)
  }

  // A call of a task_create that reclaims no slot, or one that the boot flow may make.
  ghost predicate Allowed(a: Queue, c: Call) {
    match c
    case Create(_, _, _, _) => FirstUnused(Occupied(a)) < MAX_TASKS
      || forall j :: 0 <= j < |a.q| ==> a.q[j].state != Dead
    case SleepFor(_) => a.cur != 0
    case Leave => a.cur != 0
    case _ => true
  }

  // What the call is to the policy.
  ghost function EventOf(a: Queue, c: Call): Event {
    match c
    case Create(_, _, _, stack) =>
      var i := FirstUnused(Occupied(a));
      if i == MAX_TASKS then SpawnFails(0) else if stack == 0 then SpawnFails(1) else Spawn(i)
    case Interrupt => RoundRobin.Tick
    case GiveWay => Yield
    case SleepFor(ms) => Sleep(ms)
    case Leave => Exit
  }

  ghost predicate AllowedRun(a: Queue, cs: seq<Call>)
    requires a.cur < |a.q|
    decreases |cs|
  {
    cs == [] || (Allowed(a, cs[0]) && AllowedRun(Step(a, EventOf(a, cs[0])), cs[1..]))
  }

  ghost function Events(a: Queue, cs: seq<Call>): seq<Event>
    requires a.cur < |a.q|
    decreases |cs|
  {
    if cs == [] then [] else [EventOf(a, cs[0])] + Events(Step(a, EventOf(a, cs[0])), cs[1..])
  }

  // The policy's runs are those of the table.
  lemma {:induction false} EventsEnabled(a: Queue, cs: seq<Call>)
    requires Inv(a) && AllowedRun(a, cs)
    ensures EnabledRun(a, Events(a, cs)) && |Events(a, cs)| == |cs|
    decreases |cs|
  {
    if cs != [] {
      var e := EventOf(a, cs[0]);
      StepKeeps(a, e);
      EventsEnabled(Step(a, e), cs[1..]);
      assert Events(a, cs)[1..] == Events(Step(a, e), cs[1..]);
    }
  }

  // The first call, and the rest of the run.
  lemma {:induction false} RunNext(a: Queue, cs: seq<Call>)
    requires Inv(a) && cs != [] && AllowedRun(a, cs)
    ensures var b := Step(a, EventOf(a, cs[0]));
      && Allowed(a, cs[0]) && Inv(b) && AllowedRun(b, cs[1..])
      && Run(b, Events(b, cs[1..])) == Run(a, Events(a, cs))
  {
    var e := EventOf(a, cs[0]);
    StepKeeps(a, e);
    assert Events(a, cs)[1..] == Events(Step(a, e), cs[1..]);
  }

  // ---- The slots of the table ----

  lemma OccupiedIs(tasks: seq<Task>, used: seq<bool>, ring: seq<nat>, a: Queue)
    requires Links(tasks, ring) && Members(used, ring) && a.q == Threads(tasks, ring)
    ensures Occupied(a) == used
  {
    forall i | 0 <= i < MAX_TASKS ensures Occupied(a)[i] == used[i] {
      if used[i] {
        var j :| 0 <= j < |ring| && ring[j] == i;
        assert a.q[j].slot == i;
      }
      if Occupied(a)[i] {
        var j :| 0 <= j < |a.q| && a.q[j].slot == i;
        assert ring[j] == i;
      }
    }
  }

  lemma AllowedFindsSlot(tasks: seq<Task>, used: seq<bool>, ring: seq<nat>, a: Queue, c: Call)
    requires Links(tasks, ring) && Members(used, ring) && a.q == Threads(tasks, ring) && c.Create? && Allowed(a, c)
    ensures !AllocSlot(tasks, used).Reclaimed? && SpawnEvent(AllocSlot(tasks, used), c.stack) == EventOf(a, c)
  {
    OccupiedIs(tasks, used, ring, a);
    var d := FirstDead(tasks, used);
    if d < |used| {
      var j :| 0 <= j < |ring| && ring[j] == d;
      assert a.q[j].state == Dead;
    }
  }

  // ---- Performing calls ----

  // A stack lies in memory.
  predicate Stacked(c: Call, size: nat) {
    c.Create? ==> c.stack + STACK_SIZE <= size
  }

  method Perform(k: Kernel, c: Call, cpu: Cpu)
    requires k.Valid() && Inv(k.Abs()) && Allowed(k.Abs(), c) && Stacked(c, |cpu.mem|)
    modifies k, k.tasks, k.slotUsed, cpu`mem
    ensures k.Valid() && k.Abs() == Step(old(k.Abs()), EventOf(old(k.Abs()), c)) && |cpu.mem| == old(|cpu.mem|)
  {
    assert k.Abs().q[k.pos] == View(k.current, k.tasks[k.current]);
    match c
    case Create(name, entry, exit, stack) =>
      AllowedFindsSlot(k.tasks[..], k.slotUsed[..], k.ring, k.Abs(), c);
      var t, freed := k.TaskCreate(name, entry, exit, stack, cpu);
    case Interrupt => k.Tick();
    case GiveWay => k.TaskYield();
    case SleepFor(ms) => k.TaskSleep(ms);
    case Leave => k.TaskExit();
  }

  // A run of calls that reclaims no slot and in which the boot flow neither sleeps nor exits: the
  // ring stays whole, the invariant holds, and the table follows the policy.
  method PerformAll(k: Kernel, cs: seq<Call>, cpu: Cpu)
    requires k.Valid() && Inv(k.Abs()) && AllowedRun(k.Abs(), cs)
    requires forall i :: 0 <= i < |cs| ==> Stacked(cs[i], |cpu.mem|)
    modifies k, k.tasks, k.slotUsed, cpu`mem
    ensures k.Valid() && Inv(k.Abs())
    ensures k.Abs() == Run(old(k.Abs()), Events(old(k.Abs()), cs)) && EnabledRun(old(k.Abs()), Events(old(k.Abs()), cs))
  {
    ghost var a := k.Abs();
    EventsEnabled(a, cs);
    assert cs[0..] == cs;
    var i := 0;
    while i < |cs|
      invariant i <= |cs| && k.Valid() && Inv(k.Abs()) && AllowedRun(k.Abs(), cs[i..]) && |cpu.mem| == old(|cpu.mem|)
      invariant Run(k.Abs(), Events(k.Abs(), cs[i..])) == Run(a, Events(a, cs))
    {
      assert cs[i..][0] == cs[i] && cs[i..][1..] == cs[i + 1..];
      RunNext(k.Abs(), cs[i..]);
      Perform(k, cs[i], cpu);
      i := i + 1;
    }
  }
}
