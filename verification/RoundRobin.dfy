// The scheduler's policy on an abstract run queue: the threads in the order the ring of
// kernel/process/process.c visits them, thread 0 being the boot flow.
module RoundRobin {
  const MAX_TASKS: nat := 32
  const QUANTUM: int := 2

  datatype Status = Ready | Running | Sleeping | Dead
  datatype Thread = Thread(slot: nat, pid: nat, state: Status, wakeTick: nat, cpuTicks: nat)

  datatype Queue = Queue(q: seq<Thread>, cur: nat, nextPid: nat, quantum: int, ticks: nat, freq: nat)

  // The position d steps after p, around the ring.
  function At(n: nat, p: nat, d: nat): (r: nat)
    requires p < n && d <= n
    ensures r < n
  {
    if p + d < n then p + d else p + d - n
  }

  // Steps from p to t, a full round if they are equal.
  function Dist(n: nat, p: nat, t: nat): (d: nat)
    requires p < n && t < n
    ensures 1 <= d <= n && At(n, p, d) == t
  {
    if t > p then t - p else t + n - p
  }

  // The least number of steps, at least j, from p to a READY thread; |q| if there is none.
  function Turn(q: seq<Thread>, p: nat, j: nat): (r: nat)
    requires p < |q| && j <= |q|
    ensures j <= r <= |q|
    ensures forall d :: j <= d < r ==> q[At(|q|, p, d)].state != Ready
    ensures r < |q| ==> q[At(|q|, p, r)].state == Ready
    decreases |q| - j
  {
    if j == |q| || q[At(|q|, p, j)].state == Ready then j else Turn(q, p, j + 1)
  }

  function SetState(q: seq<Thread>, i: nat, s: Status): seq<Thread>
    requires i < |q|
  {
    q[i := q[i].(state := s)]
  }

  // Round robin: the next READY thread in ring order runs; with none, a RUNNING caller goes on
  // and any other caller is set RUNNING again.
  function Schedule(a: Queue): Queue
    requires a.cur < |a.q|
  {
    var e := Turn(a.q, a.cur, 1);
    if e < |a.q| then
      var m := At(|a.q|, a.cur, e);
      var q1 := if a.q[a.cur].state == Running then SetState(a.q, a.cur, Ready) else a.q;
      a.(q := SetState(q1, m, Running), cur := m)
    else if a.q[a.cur].state == Running then a
    else a.(q := SetState(a.q, a.cur, Running))
  }

  function Wake(t: Thread, now: nat): Thread {
    if t.state == Sleeping && now >= t.wakeTick then t.(state := Ready) else t
  }

  function WakeAll(q: seq<Thread>, now: nat): (r: seq<Thread>)
    ensures |r| == |q|
  {
    seq(|q|, i requires 0 <= i < |q| => Wake(q[i], now))
  }

  // The timer interrupt up to the quantum check.
  function Clock(a: Queue): (r: Queue)
    requires a.cur < |a.q|
    ensures |r.q| == |a.q| && r.cur == a.cur
  {
    var c := a.q[a.cur];
    a.(q := WakeAll(a.q[a.cur := c.(cpuTicks := c.cpuTicks + 1)], a.ticks + 1), ticks := a.ticks + 1)
  }

  // Spawn(slot): task_create in a free slot; SpawnFails(m): no slot (m = 0), or kmalloc failed
  // after a pid was used up (m = 1).
  datatype Event = Spawn(slot: nat) | SpawnFails(pids: nat) | Tick | Yield | Sleep(ms: nat) | Exit

  // A new thread is linked right behind the boot flow.
  function Spawned(a: Queue, slot: nat): Queue
    requires a.cur < |a.q|
  {
    a.(q := a.q[..1] + [Thread(slot, a.nextPid, Ready, 0, 0)] + a.q[1..],
       cur := if a.cur == 0 then 0 else a.cur + 1,
       nextPid := a.nextPid + 1)
  }

  // The state in which schedule() is entered, or the final state of an event that does not call it.
  function Before(a: Queue, e: Event): (r: Queue)
    requires a.cur < |a.q|
    ensures r.cur < |r.q|
  {
    var c := a.q[a.cur];
    match e
    case Spawn(slot) => Spawned(a, slot)
    case SpawnFails(pids) => a.(nextPid := a.nextPid + pids)
    case Tick => Clock(a).(quantum := if a.quantum - 1 > 0 then a.quantum - 1 else QUANTUM)
    case Yield => a
    case Sleep(ms) => a.(q := a.q[a.cur := c.(state := Sleeping, wakeTick := a.ticks + ms * a.freq / 1000)])
    case Exit => a.(q := SetState(a.q, a.cur, Dead))
  }

  predicate Schedules(a: Queue, e: Event) {
    match e
    case Spawn(_) => false
    case SpawnFails(_) => false
    case Tick => a.quantum - 1 <= 0
    case _ => true
  }

  function Step(a: Queue, e: Event): (r: Queue)
    requires a.cur < |a.q|
    ensures r.cur < |r.q|
  {
    if Schedules(a, e) then Schedule(Before(a, e)) else Before(a, e)
  }

  // The boot flow never sleeps or exits.
  predicate Enabled(a: Queue, e: Event) {
    e.Sleep? || e.Exit? ==> a.cur != 0
  }

  // ---- The invariant ----

  ghost predicate Inv(a: Queue) {
    && a.cur < |a.q|
    && (forall i :: 0 <= i < |a.q| ==> (a.q[i].state == Running <==> i == a.cur))
    && a.q[0].state in {Ready, Running}
    && (forall i :: 0 <= i < |a.q| ==> a.q[i].pid < a.nextPid)
    && (forall i, j :: 0 <= i < j < |a.q| ==> a.q[i].pid != a.q[j].pid)
    && 1 <= a.quantum <= QUANTUM
  }

  // On entry to schedule() nobody else runs and the caller is not READY.
  ghost predicate Entry(a: Queue) {
    && a.cur < |a.q| && a.q[a.cur].state != Ready
    && (forall i :: 0 <= i < |a.q| && i != a.cur ==> a.q[i].state != Running)
    && a.q[0].state in {Ready, Running}
    && (forall i :: 0 <= i < |a.q| ==> a.q[i].pid < a.nextPid)
    && (forall i, j :: 0 <= i < j < |a.q| ==> a.q[i].pid != a.q[j].pid)
    && 1 <= a.quantum <= QUANTUM
  }

  lemma {:induction false} TurnIs(q: seq<Thread>, p: nat, e: nat)
    requires p < |q| && 1 <= e <= |q|
    requires forall d :: 1 <= d < e ==> q[At(|q|, p, d)].state != Ready
    requires e < |q| ==> q[At(|q|, p, e)].state == Ready
    ensures Turn(q, p, 1) == e
  {
  }

  // A READY thread is found before a full round is over.
  lemma {:induction false} TurnComesFirst(q: seq<Thread>, p: nat, t: nat)
    requires p < |q| && t < |q| && p != t && q[t].state == Ready
    ensures 1 <= Turn(q, p, 1) <= Dist(|q|, p, t) < |q|
  {
    assert At(|q|, p, Dist(|q|, p, t)) == t;
  }

  lemma ScheduleKeeps(a: Queue)
    requires Entry(a)
    ensures Inv(Schedule(a))
  {
    if a.cur != 0 && a.q[0].state == Ready { TurnComesFirst(a.q, a.cur, 0); }
  }

  lemma SpawnKeeps(a: Queue, slot: nat)
    requires Inv(a)
    ensures Inv(Spawned(a, slot))
  {
    var r := Spawned(a, slot);
    assert forall i :: 0 <= i < |r.q| && i != 1 ==> r.q[i] == a.q[if i == 0 then 0 else i - 1];
  }

  lemma BeforeKeeps(a: Queue, e: Event)
    requires Inv(a) && Enabled(a, e)
    ensures Schedules(a, e) ==> Entry(Before(a, e))
    ensures !Schedules(a, e) ==> Inv(Before(a, e))
  {
    if e.Spawn? { SpawnKeeps(a, e.slot); }
  }

  lemma StepKeeps(a: Queue, e: Event)
    requires Inv(a) && Enabled(a, e)
    ensures Inv(Step(a, e))
  {
    BeforeKeeps(a, e);
    if Schedules(a, e) { ScheduleKeeps(Before(a, e)); }
  }

  // ---- Runs ----

  predicate EnabledRun(a: Queue, es: seq<Event>)
    requires a.cur < |a.q|
    decreases |es|
  {
    es == [] || (Enabled(a, es[0]) && EnabledRun(Step(a, es[0]), es[1..]))
  }

  function Run(a: Queue, es: seq<Event>): (r: Queue)
    requires a.cur < |a.q|
    ensures r.cur < |r.q|
    decreases |es|
  {
    if es == [] then a else Run(Step(a, es[0]), es[1..])
  }

  // Exactly one thread is RUNNING, namely the current one, pids are distinct and the quantum is
  // 1 or 2, after every run.
  lemma {:induction false} RunKeeps(a: Queue, es: seq<Event>)
    requires Inv(a) && EnabledRun(a, es)
    ensures Inv(Run(a, es))
    decreases |es|
  {
    if es != [] {
      StepKeeps(a, es[0]);
      RunKeeps(Step(a, es[0]), es[1..]);
    }
  }

  // Where the thread at position t is after the event.
  function Moved(t: nat, e: Event): nat {
    if e.Spawn? && t > 0 then t + 1 else t
  }

  function MovedBy(t: nat, es: seq<Event>): nat
    decreases |es|
  {
    if es == [] then t else MovedBy(Moved(t, es[0]), es[1..])
  }

  // ---- Bounded waiting ----

  lemma DistAfter(n: nat, p: nat, t: nat, e: nat)
    requires p < n && t < n && e < Dist(n, p, t)
    ensures Dist(n, At(n, p, e), t) == Dist(n, p, t) - e
  {
  }

  // A READY thread that schedule() passes over stays READY and comes strictly nearer.
  lemma ScheduleNearer(a: Queue, t: nat)
    requires a.cur < |a.q| && t < |a.q| && a.q[t].state == Ready && a.q[a.cur].state != Ready
    ensures var r := Schedule(a);
      |r.q| == |a.q| && r.cur < |r.q| &&
      (r.cur == t || (r.q[t].state == Ready && Dist(|r.q|, r.cur, t) < Dist(|a.q|, a.cur, t)))
  {
    TurnComesFirst(a.q, a.cur, t);
    var e := Turn(a.q, a.cur, 1);
    if e < Dist(|a.q|, a.cur, t) { DistAfter(|a.q|, a.cur, t, e); }
  }

  function One(b: bool): nat { if b then 1 else 0 }

  lemma StepNearer(a: Queue, t: nat, e: Event)
    requires Inv(a) && Enabled(a, e) && t < |a.q| && a.q[t].state == Ready
    ensures var (r, u) := (Step(a, e), Moved(t, e));
      u < |r.q| &&
      (r.cur == u || (r.q[u].state == Ready &&
        Dist(|r.q|, r.cur, u) + One(Schedules(a, e)) <= Dist(|a.q|, a.cur, t) + One(e.Spawn?)))
  {
    BeforeKeeps(a, e);
    var b := Before(a, e);
    if Schedules(a, e) {
      assert b.q[t].state == Ready && |b.q| == |a.q|;
      ScheduleNearer(b, t);
    }
  }

  function Calls(a: Queue, es: seq<Event>): nat
    requires a.cur < |a.q|
    decreases |es|
  {
    if es == [] then 0 else One(Schedules(a, es[0])) + Calls(Step(a, es[0]), es[1..])
  }

  function Spawns(es: seq<Event>): nat
    decreases |es|
  {
    if es == [] then 0 else One(es[0].Spawn?) + Spawns(es[1..])
  }

  // The thread that starts at position t is the current one after some event of the run.
  predicate Dispatched(a: Queue, t: nat, es: seq<Event>)
    requires a.cur < |a.q|
    decreases |es|
  {
    es != [] && (Step(a, es[0]).cur == Moved(t, es[0]) || Dispatched(Step(a, es[0]), Moved(t, es[0]), es[1..]))
  }

  // While a READY thread is not dispatched, schedule() calls and remaining distance together
  // never exceed the initial distance plus the number of threads created meanwhile.
  lemma {:induction false} WaitingBound(a: Queue, t: nat, es: seq<Event>)
    requires Inv(a) && EnabledRun(a, es) && t < |a.q| && a.q[t].state == Ready && !Dispatched(a, t, es)
    ensures var (r, u) := (Run(a, es), MovedBy(t, es));
      u < |r.q| && r.q[u].state == Ready &&
      Calls(a, es) + Dist(|r.q|, r.cur, u) <= Dist(|a.q|, a.cur, t) + Spawns(es)
    decreases |es|
  {
    if es != [] {
      StepKeeps(a, es[0]);
      StepNearer(a, t, es[0]);
      WaitingBound(Step(a, es[0]), Moved(t, es[0]), es[1..]);
    }
  }

  // Bounded waiting: a READY thread runs by the schedule() call numbered by its distance, each
  // thread created in between postponing it by at most one call.
  lemma {:induction false} BoundedWaiting(a: Queue, t: nat, es: seq<Event>)
    requires Inv(a) && EnabledRun(a, es) && t < |a.q| && a.q[t].state == Ready
    requires Calls(a, es) >= Dist(|a.q|, a.cur, t) + Spawns(es)
    ensures Dispatched(a, t, es)
  {
    if !Dispatched(a, t, es) { WaitingBound(a, t, es); }
  }

  // ---- Sleeping, dying and time ----

  // schedule() touches only threads that are READY or RUNNING.
  lemma ScheduleLeaves(a: Queue, t: nat)
    requires Entry(a) && t < |a.q| && a.q[t].state in {Sleeping, Dead}
    ensures |Schedule(a).q| == |a.q| && Schedule(a).q[t] == a.q[t] && Schedule(a).ticks == a.ticks
  {
    if a.cur != 0 { TurnComesFirst(a.q, a.cur, 0); }
  }

  lemma StepSleeps(a: Queue, t: nat, e: Event)
    requires Inv(a) && Enabled(a, e) && t < |a.q| && a.q[t].state == Sleeping
    ensures var (r, u) := (Step(a, e), Moved(t, e));
      u < |r.q| && r.q[u].wakeTick == a.q[t].wakeTick && r.ticks >= a.ticks &&
      (r.ticks < a.q[t].wakeTick ==> r.q[u].state == Sleeping)
  {
    var b, u := Before(a, e), Moved(t, e);
    assert b.q[u] == if e.Tick? then Wake(a.q[t], a.ticks + 1) else a.q[t];
    if Schedules(a, e) {
      BeforeKeeps(a, e);
      if b.q[u].state == Sleeping { ScheduleLeaves(b, u); }
    }
  }

  lemma StepDead(a: Queue, t: nat, e: Event)
    requires Inv(a) && Enabled(a, e) && t < |a.q| && a.q[t].state == Dead
    ensures Moved(t, e) < |Step(a, e).q| && Step(a, e).q[Moved(t, e)].state == Dead
  {
    var b, u := Before(a, e), Moved(t, e);
    assert b.q[u] == a.q[t];
    if Schedules(a, e) {
      BeforeKeeps(a, e);
      ScheduleLeaves(b, u);
    }
  }

  // A sleeping thread stays asleep, and so does not run, while its wake tick lies ahead.
  lemma {:induction false} SleepsUntilWake(a: Queue, t: nat, es: seq<Event>)
    requires Inv(a) && EnabledRun(a, es) && t < |a.q| && a.q[t].state == Sleeping
    requires Run(a, es).ticks < a.q[t].wakeTick
    ensures MovedBy(t, es) < |Run(a, es).q|
    ensures Run(a, es).q[MovedBy(t, es)].state == Sleeping && Run(a, es).cur != MovedBy(t, es)
    decreases |es|
  {
    TimeGrows(a, es);
    if es != [] {
      StepKeeps(a, es[0]);
      StepSleeps(a, t, es[0]);
      TimeGrows(Step(a, es[0]), es[1..]);
      SleepsUntilWake(Step(a, es[0]), Moved(t, es[0]), es[1..]);
    }
  }

  lemma {:induction false} TimeGrows(a: Queue, es: seq<Event>)
    requires a.cur < |a.q|
    ensures Run(a, es).ticks >= a.ticks
    decreases |es|
  {
    if es != [] { TimeGrows(Step(a, es[0]), es[1..]); }
  }

  // The current thread calls task_sleep(ms) at tick T: it does not run again before
  // T + ms * freq / 1000, whatever happens.
  lemma {:induction false} SleepIsLongEnough(a: Queue, ms: nat, es: seq<Event>)
    requires Inv(a) && a.cur != 0 && EnabledRun(Step(a, Sleep(ms)), es)
    requires Run(Step(a, Sleep(ms)), es).ticks < a.ticks + ms * a.freq / 1000
    ensures Run(Step(a, Sleep(ms)), es).cur != MovedBy(a.cur, es)
  {
    var s := Step(a, Sleep(ms));
    var b := Before(a, Sleep(ms));
    BeforeKeeps(a, Sleep(ms));
    StepKeeps(a, Sleep(ms));
    TimeGrows(s, es);
    assert b.q[a.cur].state == Sleeping && b.q[0].state == Ready;
    TurnComesFirst(b.q, a.cur, 0);
    assert s.q[a.cur] == b.q[a.cur];
    SleepsUntilWake(s, a.cur, es);
  }

  // After a timer tick nobody whose wake tick has passed is still asleep.
  lemma TickWakes(a: Queue, i: nat)
    requires Inv(a) && i < |Step(a, Tick).q| && Step(a, Tick).q[i].state == Sleeping
    ensures Step(a, Tick).ticks < Step(a, Tick).q[i].wakeTick
  {
    var b := Before(a, Tick);
    assert b.q[i].state == Sleeping && b.q[i] == Step(a, Tick).q[i];
  }

  // DEAD is never left.
  lemma {:induction false} DeadForGood(a: Queue, t: nat, es: seq<Event>)
    requires Inv(a) && EnabledRun(a, es) && t < |a.q| && a.q[t].state == Dead
    ensures MovedBy(t, es) < |Run(a, es).q| && Run(a, es).q[MovedBy(t, es)].state == Dead
    decreases |es|
  {
    if es != [] {
      StepKeeps(a, es[0]);
      StepDead(a, t, es[0]);
      DeadForGood(Step(a, es[0]), Moved(t, es[0]), es[1..]);
    }
  }

  function CpuTicks(q: seq<Thread>): nat {
    if q == [] then 0 else CpuTicks(q[..|q| - 1]) + q[|q| - 1].cpuTicks
  }

  lemma {:induction false} CpuTicksSame(q: seq<Thread>, r: seq<Thread>)
    requires |q| == |r| && forall i :: 0 <= i < |q| ==> q[i].cpuTicks == r[i].cpuTicks
    ensures CpuTicks(q) == CpuTicks(r)
    decreases |q|
  {
    if q != [] { CpuTicksSame(q[..|q| - 1], r[..|r| - 1]); }
  }

  lemma {:induction false} CpuTicksAppend(q: seq<Thread>, r: seq<Thread>)
    ensures CpuTicks(q + r) == CpuTicks(q) + CpuTicks(r)
    decreases |r|
  {
    if r == [] {
      assert q + r == q;
    } else {
      assert (q + r)[..|q + r| - 1] == q + r[..|r| - 1];
      CpuTicksAppend(q, r[..|r| - 1]);
    }
  }

  lemma {:induction false} CpuTicksAt(q: seq<Thread>, i: nat)
    requires i < |q|
    ensures CpuTicks(q) == CpuTicks(q[..i]) + q[i].cpuTicks + CpuTicks(q[i + 1..])
  {
    assert q == q[..i] + [q[i]] + q[i + 1..];
    CpuTicksAppend(q[..i] + [q[i]], q[i + 1..]);
    CpuTicksAppend(q[..i], [q[i]]);
    assert [q[i]][..0] == [];
  }

  lemma ScheduleCpu(a: Queue)
    requires a.cur < |a.q|
    ensures CpuTicks(Schedule(a).q) == CpuTicks(a.q) && Schedule(a).ticks == a.ticks
  {
    CpuTicksSame(a.q, Schedule(a).q);
  }

  lemma ClockCpu(a: Queue)
    requires a.cur < |a.q|
    ensures CpuTicks(Clock(a).q) == CpuTicks(a.q) + 1
  {
    var q1 := a.q[a.cur := a.q[a.cur].(cpuTicks := a.q[a.cur].cpuTicks + 1)];
    CpuTicksSame(Clock(a).q, q1);
    CpuTicksAt(a.q, a.cur);
    CpuTicksAt(q1, a.cur);
    assert q1[..a.cur] == a.q[..a.cur] && q1[a.cur + 1..] == a.q[a.cur + 1..];
  }

  lemma SpawnCpu(a: Queue, slot: nat)
    requires a.cur < |a.q|
    ensures CpuTicks(Spawned(a, slot).q) == CpuTicks(a.q)
  {
    var q := Spawned(a, slot).q;
    CpuTicksAt(q, 1);
    CpuTicksAppend(a.q[..1], a.q[1..]);
    assert q[..1] == a.q[..1] && q[2..] == a.q[1..] && a.q == a.q[..1] + a.q[1..];
  }

  lemma StepCpu(a: Queue, e: Event)
    requires a.cur < |a.q|
    ensures CpuTicks(Step(a, e).q) - Step(a, e).ticks == CpuTicks(a.q) - a.ticks
  {
    var b := Before(a, e);
    match e {
      case Tick => ClockCpu(a);
      case Spawn(slot) => SpawnCpu(a, slot);
      case _ => CpuTicksSame(a.q, b.q);
    }
    if Schedules(a, e) { ScheduleCpu(b); }
  }

  // Every tick is charged to exactly one thread: over a run the cpu_ticks grow by timer_ticks().
  lemma {:induction false} TimeIsCharged(a: Queue, es: seq<Event>)
    requires Inv(a) && EnabledRun(a, es)
    ensures CpuTicks(Run(a, es).q) - CpuTicks(a.q) == Run(a, es).ticks - a.ticks
    decreases |es|
  {
    if es != [] {
      StepKeeps(a, es[0]);
      StepCpu(a, es[0]);
      TimeIsCharged(Step(a, es[0]), es[1..]);
    }
  }
}
