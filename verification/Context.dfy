// switch_context of kernel/arch/lowlevel.asm, instruction by instruction, and the first frame
// of a task built by task_create in kernel/process/process.c. Element a of the memory is the word
// at address a; only 4-aligned addresses are used.
module Context {
  import opened Memory

  datatype Regs = Regs(eflags: word, ebx: word, esi: word, edi: word, ebp: word, eip: word)

  const SPACE: nat := 0x1_0000_0000
  const FRAME: nat := 24      // bytes from a saved esp to the stack top after the switch
  const IF_SET: word := 0x202 // eflags with interrupts enabled

  // The registers that popfd, four pops and ret take from the stack at sp.
  function Saved(mem: seq<word>, sp: nat): Regs
    requires sp + FRAME <= |mem|
  {
    Regs(mem[sp], mem[sp + 4], mem[sp + 8], mem[sp + 12], mem[sp + 16], mem[sp + 20])
  }

  // a is one of the words a saved frame at sp consists of.
  predicate InFrame(a: nat, sp: nat) {
    sp <= a < sp + FRAME
  }

  // The stacks lie in memory, aligned, and save_to, a PCB field, is no part of the frame about to
  // be written.
  ghost predicate CanSwitch(sp: nat, m: seq<word>) {
    && |m| == SPACE && 20 <= sp && sp + 12 <= SPACE && sp % 4 == 0
    && m[sp + 4] % 4 == 0 && m[sp + 8] % 4 == 0 && m[sp + 8] + FRAME <= SPACE
    && !InFrame(m[sp + 4], sp - 20)
  }

  // Words outside lo..hi are the same in both memories.
  ghost predicate SameOutside(m: seq<word>, m': seq<word>, lo: int, hi: int) {
    |m| == |m'| && forall a :: 0 <= a < |m| && !(lo <= a < hi) ==> m'[a] == m[a]
  }

  // What switch_context does to registers, stack pointer and memory: the caller's registers and
  // return address end up in a frame below its stack pointer, whose address goes to save_to, and
  // everything is reloaded from the frame at load_val.
  ghost predicate Switches(r: Regs, sp: nat, m: seq<word>, r': Regs, sp': nat, m': seq<word>)
    requires CanSwitch(sp, m)
  {
    var saveTo, load := m[sp + 4], m[sp + 8];
    && |m'| == SPACE && m'[saveTo] == sp - 20
    && Saved(m', sp - 20) == r.(eip := m[sp])
    && (forall a :: 0 <= a < SPACE && a != saveTo && !(sp - 20 <= a < sp) ==> m'[a] == m[a])
    && r' == Saved(m', load) && sp' == load + FRAME
  }

  // Switching away from a task and, after any run that leaves its frame and its PCB's esp alone,
  // back to it restores its registers, its flags and its stack, and returns to its caller.
  lemma SwitchRoundTrip(r0: Regs, sp0: nat, m0: seq<word>, r1: Regs, sp1: nat, m1: seq<word>,
                        r2: Regs, sp2: nat, m2: seq<word>, r3: Regs, sp3: nat, m3: seq<word>)
    requires CanSwitch(sp0, m0) && Switches(r0, sp0, m0, r1, sp1, m1)
    requires CanSwitch(sp2, m2) && Switches(r2, sp2, m2, r3, sp3, m3)
    requires forall a: nat :: InFrame(a, sp0 - 20) ==> m2[a] == m1[a]  // the run in between
    requires m2[sp2 + 8] == m1[m0[sp0 + 4]]                            // load_val is the esp saved then
    requires sp2 <= sp0 - 20 || sp0 + 4 <= sp2 - 20                    // the other task has its own stack
    requires !InFrame(m2[sp2 + 4], sp0 - 20)                           // and its own PCB
    ensures r3 == r0.(eip := m0[sp0]) && sp3 == sp0 + 4
  {
    var sp := sp0 - 20;
    assert InFrame(sp, sp) && InFrame(sp + 4, sp) && InFrame(sp + 8, sp);
    assert InFrame(sp + 12, sp) && InFrame(sp + 16, sp) && InFrame(sp + 20, sp);
  }

  // The stack task_create prepares below `top`.
  ghost predicate Prepared(m: seq<word>, top: nat, entry: word, exit: word) {
    28 <= top <= |m| && m[top - 4] == exit && Saved(m, top - 28) == Regs(IF_SET, 0, 0, 0, 0, entry)
  }

  // The first switch to a new task starts `entry` with interrupts on and zeroed registers, its
  // stack holding task_exit as the return address.
  lemma FirstSwitch(r: Regs, sp: nat, m: seq<word>, r': Regs, sp': nat, m': seq<word>,
                    top: nat, entry: word, exit: word)
    requires CanSwitch(sp, m) && Switches(r, sp, m, r', sp', m')
    requires Prepared(m, top, entry, exit) && m[sp + 8] == top - 28
    requires sp <= top - 28 || top <= sp - 20                          // the new stack is another one
    requires !(top - 28 <= m[sp + 4] < top)
    ensures r'.eip == entry && sp' == top - 4 && m'[sp'] == exit
    ensures r'.eflags / 0x200 % 2 == 1
    ensures r'.ebx == r'.esi == r'.edi == r'.ebp == 0
  {
    assert forall a :: top - 28 <= a < top ==> m'[a] == m[a];
  }

  // Storing the stack pointer in the PCB does not touch the frame it points to.
  lemma FrameKept(m: seq<word>, m': seq<word>, saveTo: nat, sp: nat, r: Regs)
    requires |m| == |m'| && sp + FRAME <= |m| && !InFrame(saveTo, sp) && Saved(m, sp) == r
    requires forall a :: 0 <= a < |m| && a != saveTo ==> m'[a] == m[a]
    ensures Saved(m', sp) == r
  {
    assert InFrame(sp, sp) && InFrame(sp + 4, sp) && InFrame(sp + 8, sp);
    assert InFrame(sp + 12, sp) && InFrame(sp + 16, sp) && InFrame(sp + 20, sp);
  }

  // The five words pushed below sp, with the return address above them, are a saved frame.
  lemma FramePushed(m: seq<word>, sp: nat, r: Regs, m': seq<word>)
    requires 20 <= sp && sp + 4 <= |m|
    requires m' == m[sp - 4 := r.ebp][sp - 8 := r.edi][sp - 12 := r.esi][sp - 16 := r.ebx][sp - 20 := r.eflags]
    ensures Saved(m', sp - 20) == r.(eip := m[sp]) && SameOutside(m, m', sp - 20, sp)
  {
  }

  class Cpu {
    var eflags: word
    var ebx: word
    var esi: word
    var edi: word
    var ebp: word
    var eax: word
    var edx: word
    var eip: word
    var esp: nat
    var mem: seq<word>

    function Now(): Regs
      reads this
    {
      Regs(eflags, ebx, esi, edi, ebp, eip)
    }

    method Push(v: word)
      requires 4 <= esp <= |mem|
      modifies `esp, `mem
      ensures esp == old(esp) - 4 && mem == old(mem)[esp := v]
    {
      esp := esp - 4;
      mem := mem[esp := v];
    }

    method Pop() returns (v: word)
      requires esp < |mem|
      modifies `esp
      ensures v == mem[old(esp)] && esp == old(esp) + 4
    {
      v := mem[esp];
      esp := esp + 4;
    }

    // push ebp; push edi; push esi; push ebx; pushfd
    method SaveFrame()
      requires 20 <= esp && esp + 4 <= |mem|
      modifies `esp, `mem
      ensures esp == old(esp) - 20 && SameOutside(old(mem), mem, esp, esp + 20)
      ensures Saved(mem, esp) == Now().(eip := old(mem)[old(esp)])
    {
      ghost var sp, m := esp, mem;
      Push(ebp);
      Push(edi);
      Push(esi);
      Push(ebx);
      Push(eflags);
      FramePushed(m, sp, Now(), mem);
    }

    // popfd; pop ebx; pop esi; pop edi; pop ebp; ret
    method LoadFrame()
      requires esp + FRAME <= |mem|
      modifies `esp, `eflags, `ebx, `esi, `edi, `ebp, `eip
      ensures Now() == Saved(mem, old(esp)) && esp == old(esp) + FRAME
    {
      eflags := Pop();
      ebx := Pop();
      esi := Pop();
      edi := Pop();
      ebp := Pop();
      eip := Pop();
    }

    // On entry: the return address at [esp], save_to at [esp + 4], load_val at [esp + 8].
    method SwitchContext()
      requires CanSwitch(esp, mem)
      modifies this
      ensures Switches(old(Now()), old(esp), old(mem), Now(), esp, mem)
    {
      eax := mem[esp + 4];
      edx := mem[esp + 8];
      ghost var r, sp, m := Now(), esp, mem;
      SaveFrame();
      ghost var saved := mem;
      mem := mem[eax := esp];
      FrameKept(saved, mem, eax, esp, r.(eip := m[sp]));
      esp := edx;
      LoadFrame();
    }
  }

  // *--sp = v
  method Below(cpu: Cpu, sp: nat, v: word) returns (sp': nat)
    requires 4 <= sp <= |cpu.mem|
    modifies cpu`mem
    ensures sp' == sp - 4 && cpu.mem == old(cpu.mem)[sp' := v]
  {
    sp' := sp - 4;
    cpu.mem := cpu.mem[sp' := v];
  }

  // The seven stores of task_create, from the top of the new stack down.
  method PrepareStack(cpu: Cpu, top: nat, entry: word, exit: word) returns (sp: nat)
    requires 28 <= top <= |cpu.mem|
    modifies cpu`mem
    ensures sp == top - 28 && Prepared(cpu.mem, top, entry, exit) && SameOutside(old(cpu.mem), cpu.mem, sp, top)
  {
    sp := Below(cpu, top, exit);
    sp := Below(cpu, sp, entry);
    sp := Below(cpu, sp, 0);
    sp := Below(cpu, sp, 0);
    sp := Below(cpu, sp, 0);
    sp := Below(cpu, sp, 0);
    sp := Below(cpu, sp, IF_SET);
  }
}
