/** The process table, the scheduler and the context switch as the kernel runs
    them, refining `ProcessSpec`. */
module Process {
  import opened Machine
  import opened PageAllocator
  import opened ProcessSpec
  import ProcessTheorems

  class Scheduler {
    const mem: array<Word>
    const pmm: Pmm
    const procs: array<Proc>
    ghost const bootLow: nat
    var current: int
    var nextPid: nat
    var ticks: Word
    // the CPU
    var regs: Regs
    var esp: nat
    var eip: Word
    ghost var saved: seq<Context>

    ghost function Content(): System
      requires current >= 0 && pmm.bitmap.Length == BITMAP_BYTES
      reads this, mem, procs, pmm.bitmap
    {
      System(Sched(procs[..], current, nextPid), Context(regs, esp, eip), mem[..], pmm.Free(), ticks)
    }

    ghost predicate Valid()
      reads this, mem, procs, pmm.bitmap
    {
      && mem.Length == MEM_SIZE && procs.Length == MAX_PROCESSES && pmm.Valid()
      && 0 <= current && Inv(Content(), saved, bootLow)
    }

    constructor (mem: array<Word>, pmm: Pmm, ghost bootLow: nat, esp: nat)
      requires mem.Length == MEM_SIZE && pmm.Valid() && Within(bootLow, KERNEL_STACK_TOP, esp)
      ensures this.mem == mem && this.pmm == pmm && this.bootLow == bootLow && this.esp == esp
      ensures fresh(procs) && procs.Length == MAX_PROCESSES && current == -1 && nextPid == 0
      ensures forall i :: 0 <= i < MAX_PROCESSES ==> procs[i] == Proc(0, Unused, 0, 0, 0)
    {
      this.mem, this.pmm, this.bootLow, this.esp := mem, pmm, bootLow, esp;
      procs := new Proc[MAX_PROCESSES](_ => Proc(0, Unused, 0, 0, 0));
      current, nextPid, ticks, regs, eip := -1, 0, 0, ZERO_REGS, 0;
      saved := seq(MAX_PROCESSES, _ => Context(ZERO_REGS, 0, 0));
    }

    /** `process_init`, which runs once on the zeroed process table. */
    method Init()
      requires mem.Length == MEM_SIZE && procs.Length == MAX_PROCESSES && pmm.Valid() && |saved| == MAX_PROCESSES
      requires nextPid == 0 && Within(bootLow, KERNEL_STACK_TOP, esp)
      requires forall i :: 0 <= i < MAX_PROCESSES ==> procs[i].esp == 0
      modifies this, procs
      ensures Valid() && ProcessTheorems.Booted(Content(), bootLow)
    {
      var i := 0;
      while i < MAX_PROCESSES
        modifies procs
        invariant 0 <= i <= MAX_PROCESSES
        invariant forall k :: 0 <= k < i ==> procs[k].state == Unused && procs[k].pid == 0
        invariant forall k :: 0 <= k < MAX_PROCESSES ==> procs[k].esp == 0
      {
        procs[i] := procs[i].(state := Unused, pid := 0);
        i := i + 1;
      }
      procs[0] := Proc(nextPid, Running, KERNEL_STACK_TOP, 0, KERNEL_STACK_TOP);
      nextPid := nextPid + 1;
      current := 0;
      ProcessTheorems.BootInv(Content(), saved, bootLow);
    }

    /** `process_get`. */
    method Get(pid: Word) returns (slot: int)
      requires Valid()
      ensures slot == if pid < nextPid then pid else -1
    {
      var i := 0;
      while i < MAX_PROCESSES
        invariant 0 <= i <= MAX_PROCESSES && (pid < nextPid ==> i <= pid)
      {
        if procs[i].state != Unused && procs[i].pid == pid {
          return i;
        }
        i := i + 1;
      }
      return -1;
    }

    // ---------- switch.asm ----------

    method Push(w: Word)
      requires mem.Length == MEM_SIZE && 4 <= esp <= MEM_SIZE
      modifies mem, this`esp
      ensures esp == old(esp) - 4 && mem[..] == old(mem[..])[esp := w]
    {
      esp := esp - 4;
      mem[esp] := w;
    }

    method Pop() returns (w: Word)
      requires mem.Length == MEM_SIZE && esp + 4 <= MEM_SIZE
      modifies this`esp
      ensures esp == old(esp) + 4 && w == mem[old(esp)]
    {
      w := mem[esp];
      esp := esp + 4;
    }

    /** `pusha`. */
    method Pusha()
      requires mem.Length == MEM_SIZE && 32 <= esp <= MEM_SIZE
      modifies mem, this`esp
      ensures esp == old(esp) - 32
      ensures mem[..] == old(mem[..])[esp + 28 := regs.eax][esp + 24 := regs.ecx][esp + 20 := regs.edx][esp + 16 := regs.ebx]
                              [esp + 12 := old(esp)][esp + 8 := regs.ebp][esp + 4 := regs.esi][esp := regs.edi]
    {
      var temp := esp;
      Push(regs.eax);
      Push(regs.ecx);
      Push(regs.edx);
      Push(regs.ebx);
      Push(temp);
      Push(regs.ebp);
      Push(regs.esi);
      Push(regs.edi);
    }

    /** `popa`, which drops the stored stack pointer. */
    method Popa()
      requires mem.Length == MEM_SIZE && esp + 32 <= MEM_SIZE
      modifies this`esp, this`regs
      ensures esp == old(esp) + 32
      ensures var e := old(esp);
        regs == Regs(mem[e], mem[e + 4], mem[e + 8], mem[e + 16], mem[e + 20], mem[e + 24], mem[e + 28])
    {
      var edi := Pop();
      var esi := Pop();
      var ebp := Pop();
      var _ := Pop();
      var ebx := Pop();
      var edx := Pop();
      var ecx := Pop();
      var eax := Pop();
      regs := Regs(edi, esi, ebp, ebx, edx, ecx, eax);
    }

    /** `context_switch`: saves the caller's context on its stack and the stack
        pointer in its process entry, then continues on the other stack.  The
        first push is the return address that the call leaves. */
    method ContextSwitch(oldSlot: nat, newEsp: Word)
      requires mem.Length == MEM_SIZE && oldSlot < procs.Length
      requires FRAME <= esp <= MEM_SIZE && newEsp + FRAME <= MEM_SIZE
      modifies mem, procs, this`esp, this`regs, this`eip
      ensures var e := old(esp) - FRAME;
        && mem[..] == PushFrame(old(mem[..]), e, old(regs), e + 32, old(eip))
        && procs[..] == old(procs[..])[oldSlot := old(procs[oldSlot]).(esp := e)]
      ensures Context(regs, esp, eip) == PopFrame(mem[..], newEsp)
    {
      Push(eip);
      Pusha();
      procs[oldSlot] := procs[oldSlot].(esp := esp);
      esp := newEsp;
      Popa();
      eip := Pop();
    }

    // ---------- schedule ----------

    /** The scheduler's search for the next READY slot. */
    method FindReady(slot: nat) returns (next: int)
      requires procs.Length == MAX_PROCESSES
      ensures next == Search(procs[..], slot, 1)
    {
      var i := 1;
      while i <= MAX_PROCESSES
        invariant 1 <= i <= MAX_PROCESSES + 1
        invariant Search(procs[..], slot, 1) == Search(procs[..], slot, i)
      {
        var idx := (slot + i) % MAX_PROCESSES;
        if procs[idx].state == Ready {
          return idx;
        }
        i := i + 1;
      }
      return -1;
    }

    /** `schedule`. */
    method Schedule()
      requires Valid()
      modifies mem, procs, this`esp, this`regs, this`eip, this`current, this`saved
      ensures Valid() && saved == SavedAfterSchedule(old(Content()), old(saved))
      ensures old(RoomForFrame(Content().cpu) && forall p :: p in procs[..] ==> p.esp + FRAME <= MEM_SIZE)
      ensures Content() == ProcessSpec.Schedule(old(Content()))
    {
      hide PushFrame, PopFrame, Inv, Search, Switched;
      ghost var y := Content();
      CurrentInTable(y, saved, bootLow);
      ScheduleKeepsInv(y, saved, bootLow);
      var slot := CurrentSlot();
      var next := FindReady(slot);
      if next < 0 || next == slot {
        return;
      }
      SwitchTo(slot, next);
      saved := SavedAfterSchedule(y, saved);
      assert Content() == ProcessSpec.Schedule(y);
    }

    /** The slot whose entry `current_proc` points to. */
    method CurrentSlot() returns (slot: int)
      requires 0 <= current < MAX_PROCESSES
      ensures slot == current
    {
      slot := -1;
      var i := 0;
      while i < MAX_PROCESSES
        invariant 0 <= i <= current && slot == -1
      {
        if i == current {
          slot := i;
          break;
        }
        i := i + 1;
      }
    }

    method SwitchTo(slot: nat, next: nat)
      requires mem.Length == MEM_SIZE && procs.Length == MAX_PROCESSES && slot == current < MAX_PROCESSES
      requires next < MAX_PROCESSES && next != slot && FRAME <= esp <= MEM_SIZE && procs[next].esp + FRAME <= MEM_SIZE
      modifies mem, procs, this`esp, this`regs, this`eip, this`current
      ensures current == next
      ensures var e := old(esp) - FRAME;
        && mem[..] == PushFrame(old(mem[..]), e, old(regs), e + 32, old(eip))
        && Sched(procs[..], current, nextPid) == Switched(Sched(old(procs[..]), slot, nextPid), next, e)
      ensures Context(regs, esp, eip) == PopFrame(mem[..], old(procs[next].esp))
    {
      hide PushFrame, PopFrame;
      if procs[slot].state == Running {
        procs[slot] := procs[slot].(state := Ready);
      }
      procs[next] := procs[next].(state := Running);
      current := next;
      ContextSwitch(slot, procs[next].esp);
    }

    /** The timer branch of the interrupt handler. */
    method TimerTick()
      requires Valid()
      modifies mem, procs, this
      ensures Valid() && nextPid == old(nextPid)
      ensures old(RoomForFrame(Content().cpu) && forall p :: p in procs[..] ==> p.esp + FRAME <= MEM_SIZE)
      ensures Content() == Tick(old(Content()))
    {
      hide Inv, ProcessSpec.Schedule;
      AllEspLow(Content(), saved, bootLow);
      RetickKeepsInv(Content(), Wrap(ticks + 1), saved, bootLow);
      ticks := Wrap(ticks + 1);
      if ticks % TIME_SLICE == 0 {
        Schedule();
      }
    }

    /** The first unused slot, or the table's length. */
    method FindUnused() returns (slot: int)
      requires procs.Length == MAX_PROCESSES
      ensures var k := FreeSlot(procs[..], 0); slot == if k < MAX_PROCESSES then k else -1
    {
      slot := -1;
      var i := 0;
      while i < MAX_PROCESSES
        invariant 0 <= i <= MAX_PROCESSES && slot == -1
        invariant FreeSlot(procs[..], 0) == FreeSlot(procs[..], i)
      {
        if procs[i].state == Unused {
          slot := i;
          break;
        }
        i := i + 1;
      }
    }

    /** Builds the initial frame at the top of a stack page. */
    method BuildFrame(stackPage: Word, entry: Word) returns (sp: Word)
      requires mem.Length == MEM_SIZE && stackPage + PAGE_SIZE <= MEM_SIZE
      modifies mem
      ensures sp == stackPage + PAGE_SIZE - FRAME
      ensures mem[..] == PushFrame(old(mem[..]), sp, ZERO_REGS, 0, entry)
    {
      sp := stackPage + PAGE_SIZE;
      sp := sp - 4; mem[sp] := entry;
      ghost var m: seq<Word> := mem[..];
      sp := sp - 4; mem[sp] := 0;
      sp := sp - 4; mem[sp] := 0;
      sp := sp - 4; mem[sp] := 0;
      sp := sp - 4; mem[sp] := 0;
      assert mem[..] == m[sp + 12 := 0][sp + 8 := 0][sp + 4 := 0][sp := 0];
      m := mem[..];
      sp := sp - 4; mem[sp] := 0;
      sp := sp - 4; mem[sp] := 0;
      sp := sp - 4; mem[sp] := 0;
      sp := sp - 4; mem[sp] := 0;
      assert mem[..] == m[sp + 12 := 0][sp + 8 := 0][sp + 4 := 0][sp := 0];
    }

    /** `process_create`, when no tick falls inside the call.  `ProcessSteps` says
        what one does. */
    method CreateProcess(entry: Word) returns (pid: int)
      requires Valid() && CreateOk(Content(), bootLow)
      modifies mem, procs, this`nextPid, this`saved, pmm.bitmap
      ensures Valid() && Content() == Create(old(Content()), entry)
      ensures saved == SavedAfterCreate(old(Content()), old(saved), entry)
      ensures pid == if old(CanCreate(Content())) then old(nextPid) else -1
      ensures pid >= 0 ==> nextPid == pid + 1 && procs[pid].pid == pid && procs[pid].state == Ready
    {
      hide Inv, PushFrame, CreateOk, FreeSlot, FreeOf;
      ghost var y := Content();
      CurrentInTable(y, saved, bootLow);
      CreateKeepsInv(y, saved, bootLow, entry);
      var slot := FindUnused();
      if slot < 0 {
        return -1;
      }
      var stackPage := pmm.Alloc();
      if stackPage == 0 {
        return -1;
      }
      procs[slot] := procs[slot].(pid := nextPid);
      nextPid := nextPid + 1;
      procs[slot] := procs[slot].(state := Ready);
      procs[slot] := procs[slot].(kernelStack := stackPage);
      procs[slot] := procs[slot].(eip := entry);
      var sp := BuildFrame(stackPage, entry);
      procs[slot] := procs[slot].(esp := sp);
      pid := procs[slot].pid;
      saved := SavedAfterCreate(y, saved, entry);
      assert Content() == Create(y, entry);
    }
  }

  /** What the class's methods use of the invariant. */
  lemma CurrentInTable(y: System, saved: seq<Context>, bootLow: nat)
    requires Inv(y, saved, bootLow)
    ensures y.sched.current < y.sched.nextPid <= MAX_PROCESSES && |y.mem| == MEM_SIZE && |saved| == MAX_PROCESSES
    ensures FreeSlot(y.sched.procs, 0) == y.sched.nextPid && |y.sched.procs| == MAX_PROCESSES
    ensures forall p :: p in y.pool ==> 0 < p < TOTAL_PAGES
  {
    FreeSlotIsNext(y.sched);
  }
}
