// The key queue of kernel/drivers/keyboard.c: filled by push from the keyboard interrupt, emptied
// by keyboard_getc_nonblock, which the interrupt may cut in on between any two of its accesses.
module Keyboard {
  const BUF_SIZE: nat := 256

  // How far keyboard_getc_nonblock has got: not in it, past the comparison of head and tail, or
  // past the load of buf[tail].
  datatype Pc = Idle | Checked | Loaded(c: int)

  // The queue, with the codes push has stored and the codes finished reads have returned so far.
  datatype State = State(buf: seq<int>, head: nat, tail: nat, pc: Pc, accepted: seq<int>, taken: seq<int>)

  // One uninterrupted access. Push is the whole handler: nothing cuts in on an interrupt.
  datatype Access = Push(c: int) | Check | Load | Finish

  predicate Sized(s: State) {
    |s.buf| == BUF_SIZE && s.head < BUF_SIZE && s.tail < BUF_SIZE
  }

  // The reader's accesses come in program order; Push may come at any point.
  predicate CanDo(s: State, a: Access) {
    match a
    case Push(_) => true
    case Check => s.pc == Idle
    case Load => s.pc == Checked
    case Finish => s.pc.Loaded?
  }

  function Apply(s: State, a: Access): (r: State)
    requires Sized(s) && CanDo(s, a)
    ensures Sized(r)
  {
    match a
    case Push(c) =>
      var n := (s.head + 1) % BUF_SIZE;
      if n == s.tail then s else s.(buf := s.buf[s.head := c], head := n, accepted := s.accepted + [c])
    case Check => if s.head == s.tail then s else s.(pc := Checked)
    case Load => s.(pc := Loaded(s.buf[s.tail]))
    case Finish => s.(tail := (s.tail + 1) % BUF_SIZE, pc := Idle, taken := s.taken + [s.pc.c])
  }

  // How many codes the indices delimit.
  function Held(s: State): (n: nat)
    requires Sized(s)
    ensures n < BUF_SIZE
  {
    if s.head >= s.tail then s.head - s.tail else s.head + BUF_SIZE - s.tail
  }

  function Slot(tail: nat, i: nat): (k: nat)
    ensures k < BUF_SIZE
  {
    (tail + i) % BUF_SIZE
  }

  // The n codes from tail on.
  function Waiting(buf: seq<int>, tail: nat, n: nat): (s: seq<int>)
    requires |buf| == BUF_SIZE
    ensures |s| == n
  {
    seq(n, i requires 0 <= i < n => buf[Slot(tail, i)])
  }

  ghost predicate Inv(s: State) {
    && Sized(s)
    && s.accepted == s.taken + Waiting(s.buf, s.tail, Held(s))
    && (s.pc != Idle ==> Held(s) > 0)
    && (s.pc.Loaded? ==> s.pc.c == s.buf[s.tail])
  }

  lemma WaitingPush(buf: seq<int>, tail: nat, n: nat, c: int)
    requires |buf| == BUF_SIZE && tail < BUF_SIZE && n < BUF_SIZE - 1
    ensures Waiting(buf[Slot(tail, n) := c], tail, n + 1) == Waiting(buf, tail, n) + [c]
  {
  }

  lemma WaitingPop(buf: seq<int>, tail: nat, n: nat)
    requires |buf| == BUF_SIZE && tail < BUF_SIZE && 0 < n < BUF_SIZE
    ensures Waiting(buf, tail, n) == [buf[tail]] + Waiting(buf, Slot(tail, 1), n - 1)
  {
    var s, r := Waiting(buf, tail, n), [buf[tail]] + Waiting(buf, Slot(tail, 1), n - 1);
    forall i | 0 <= i < n ensures s[i] == r[i] {
      if i > 0 { assert Slot(Slot(tail, 1), i - 1) == Slot(tail, i); }
    }
  }

  lemma PushKeeps(s: State, c: int)
    requires Inv(s)
    ensures Inv(Apply(s, Push(c)))
  {
    if Held(s) < BUF_SIZE - 1 {
      WaitingPush(s.buf, s.tail, Held(s), c);
      assert s.head == Slot(s.tail, Held(s));
    }
  }

  lemma FinishKeeps(s: State)
    requires Inv(s) && s.pc.Loaded?
    ensures Inv(Apply(s, Finish))
  {
    WaitingPop(s.buf, s.tail, Held(s));
    assert s.taken + ([s.pc.c] + Waiting(s.buf, Slot(s.tail, 1), Held(s) - 1))
        == s.taken + [s.pc.c] + Waiting(s.buf, Slot(s.tail, 1), Held(s) - 1);
  }

  lemma StepKeeps(s: State, a: Access)
    requires Inv(s) && CanDo(s, a)
    ensures Inv(Apply(s, a))
  {
    match a
    case Push(c) => PushKeeps(s, c);
    case Finish => FinishKeeps(s);
    case _ =>
  }

  predicate CanRun(s: State, run: seq<Access>)
    requires Sized(s)
    decreases |run|
  {
    run == [] || (CanDo(s, run[0]) && CanRun(Apply(s, run[0]), run[1..]))
  }

  function Run(s: State, run: seq<Access>): (r: State)
    requires Sized(s) && CanRun(s, run)
    ensures Sized(r)
    decreases |run|
  {
    if run == [] then s else Run(Apply(s, run[0]), run[1..])
  }

  function Empty(buf: seq<int>): State {
    State(buf, 0, 0, Idle, [], [])
  }

  lemma {:induction false} RunKeeps(s: State, run: seq<Access>)
    requires Inv(s) && CanRun(s, run)
    ensures Inv(Run(s, run))
    decreases |run|
  {
    if run != [] {
      StepKeeps(s, run[0]);
      RunKeeps(Apply(s, run[0]), run[1..]);
    }
  }

  // However interrupts and reads interleave, the codes read are a prefix of the codes accepted,
  // in order and without loss or repetition; what is missing is what the buffer still holds, and
  // that is never more than 255 codes.
  lemma {:induction false} ReadsArePrefix(buf: seq<int>, run: seq<Access>)
    requires |buf| == BUF_SIZE && CanRun(Empty(buf), run)
    ensures var s := Run(Empty(buf), run);
      s.taken <= s.accepted && |s.accepted| - |s.taken| == Held(s) <= BUF_SIZE - 1
  {
    assert Waiting(buf, 0, 0) == [];
    RunKeeps(Empty(buf), run);
  }

  // A push is dropped exactly when 255 codes are held, and an empty answer is given exactly when
  // every accepted code has been read.
  lemma {:induction false} DropsOnlyWhenFull(buf: seq<int>, run: seq<Access>, c: int)
    requires |buf| == BUF_SIZE && CanRun(Empty(buf), run)
    ensures var s := Run(Empty(buf), run);
      && (Apply(s, Push(c)).accepted == s.accepted <==> |s.accepted| - |s.taken| == BUF_SIZE - 1)
      && (s.head == s.tail <==> s.taken == s.accepted)
  {
    ReadsArePrefix(buf, run);
  }

  class Queue {
    const buf: array<int>
    var head: nat
    var tail: nat
    var pc: Pc                   // the reader's progress, and its local variable c
    ghost var accepted: seq<int>
    ghost var taken: seq<int>

    ghost function View(): State
      reads this, buf
    {
      State(buf[..], head, tail, pc, accepted, taken)
    }

    constructor ()
      ensures Inv(View()) && View() == Empty(buf[..])
    {
      buf := new int[BUF_SIZE];
      head, tail, pc, accepted, taken := 0, 0, Idle, [], [];
      new;
      assert Waiting(buf[..], 0, 0) == [];
    }

    method Push(c: int)
      requires Inv(View())
      modifies `head, `accepted, buf
      ensures Inv(View()) && View() == Apply(old(View()), Access.Push(c))
    {
      StepKeeps(View(), Access.Push(c));
      var n := (head + 1) % BUF_SIZE;
      if n != tail {
        buf[head] := c;
        head := n;
        accepted := accepted + [c];
      }
    }

    // if (head == tail) return -1;
    method Check() returns (empty: bool)
      requires Inv(View()) && pc == Idle
      modifies `pc
      ensures Inv(View()) && View() == Apply(old(View()), Access.Check) && empty == (accepted == taken)
    {
      StepKeeps(View(), Access.Check);
      empty := head == tail;
      if !empty { pc := Checked; }
    }

    // int c = buf[tail];
    method Load()
      requires Inv(View()) && pc == Checked
      modifies `pc
      ensures Inv(View()) && View() == Apply(old(View()), Access.Load)
    {
      StepKeeps(View(), Access.Load);
      pc := Loaded(buf[tail]);
    }

    // tail = (tail + 1) % BUF_SIZE; return c;
    method Finish() returns (c: int)
      requires Inv(View()) && pc.Loaded?
      modifies `pc, `tail, `taken
      ensures Inv(View()) && View() == Apply(old(View()), Access.Finish) && taken == old(taken) + [c]
    {
      StepKeeps(View(), Access.Finish);
      c := pc.c;
      tail := (tail + 1) % BUF_SIZE;
      taken := taken + [c];
      pc := Idle;
    }
  }
}
