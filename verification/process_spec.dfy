/** Processes, the round-robin scheduler, the timer and the context switch as one
    transition system.  Computing, ticks and creations interleave freely; a creation
    is one event here, and `ProcessSteps` takes it apart. */
module ProcessSpec {
  import opened Machine

  const MAX_PROCESSES := 16
  const KERNEL_STACK_TOP := 0x1F_0000
  const FRAME := 36
  const TIME_SLICE := 10

  datatype ProcState = Unused | Ready | Running | Blocked | Terminated

  datatype Proc = Proc(pid: Word, state: ProcState, esp: Word, eip: Word, kernelStack: Word)

  /** The general registers that `popa` restores. */
  datatype Regs = Regs(edi: Word, esi: Word, ebp: Word, ebx: Word, edx: Word, ecx: Word, eax: Word)

  /** Where a process stands at the call of `context_switch`: its registers, the
      stack pointer it has after the call returns, and the return address. */
  datatype Context = Context(regs: Regs, esp: nat, eip: Word)

  const ZERO_REGS := Regs(0, 0, 0, 0, 0, 0, 0)

  datatype Sched = Sched(procs: seq<Proc>, current: nat, nextPid: nat)

  datatype System = System(sched: Sched, cpu: Context, mem: seq<Word>, pool: set<nat>, ticks: Word)

  // ---------- saving and restoring a context ----------

  /** The nine words at `e` that `context_switch` leaves on the stack; `popa`
      skips the fourth, the stack pointer `pusha` stored. */
  function PushFrame(m: seq<Word>, e: nat, r: Regs, oldEsp: Word, eip: Word): (n: seq<Word>)
    requires |m| == MEM_SIZE && e + FRAME <= MEM_SIZE
    ensures |n| == MEM_SIZE
  {
    m[e + 32 := eip][e + 28 := r.eax][e + 24 := r.ecx][e + 20 := r.edx][e + 16 := r.ebx]
     [e + 12 := oldEsp][e + 8 := r.ebp][e + 4 := r.esi][e := r.edi]
  }

  function PopFrame(m: seq<Word>, e: nat): Context
    requires |m| == MEM_SIZE && e + FRAME <= MEM_SIZE
  {
    Context(Regs(m[e], m[e + 4], m[e + 8], m[e + 16], m[e + 20], m[e + 24], m[e + 28]), e + FRAME, m[e + 32])
  }

  ghost predicate SameOn(m: seq<Word>, n: seq<Word>, lo: nat, hi: nat) {
    && |m| == |n| == MEM_SIZE
    && forall a :: lo <= a < hi && a < MEM_SIZE ==> m[a] == n[a]
  }

  lemma PopAfterPush(m: seq<Word>, e: nat, r: Regs, oldEsp: Word, eip: Word)
    requires |m| == MEM_SIZE && e + FRAME <= MEM_SIZE
    ensures PopFrame(PushFrame(m, e, r, oldEsp, eip), e) == Context(r, e + FRAME, eip)
  {
  }

  lemma PushElsewhere(m: seq<Word>, e: nat, r: Regs, oldEsp: Word, eip: Word, lo: nat, hi: nat)
    requires |m| == MEM_SIZE && e + FRAME <= MEM_SIZE && (hi <= e || e + FRAME <= lo)
    ensures SameOn(m, PushFrame(m, e, r, oldEsp, eip), lo, hi)
  {
  }

  // ---------- scheduling ----------

  /** The first READY slot after the current one in cyclic order, or -1. */
  function Search(procs: seq<Proc>, current: nat, i: nat): (r: int)
    requires |procs| == MAX_PROCESSES
    ensures r == -1 || (0 <= r < MAX_PROCESSES && procs[r].state.Ready?)
    decreases MAX_PROCESSES + 1 - i
  {
    if i > MAX_PROCESSES then -1
    else if procs[(current + i) % MAX_PROCESSES].state.Ready? then (current + i) % MAX_PROCESSES
    else Search(procs, current, i + 1)
  }

  function Switched(s: Sched, next: nat, e: Word): Sched
    requires |s.procs| == MAX_PROCESSES && s.current < MAX_PROCESSES && next < MAX_PROCESSES
  {
    var prev := s.procs[s.current];
    var procs := s.procs[s.current := prev.(state := if prev.state.Running? then Ready else prev.state, esp := e)];
    Sched(procs[next := procs[next].(state := Running)], next, s.nextPid)
  }

  /** The process on the CPU has room on its stack for a frame. */
  predicate RoomForFrame(c: Context) {
    FRAME <= c.esp && c.esp <= MEM_SIZE
  }

  /** `schedule`, with the context switch. */
  function Schedule(y: System): System
    requires |y.sched.procs| == MAX_PROCESSES && y.sched.current < MAX_PROCESSES
    requires |y.mem| == MEM_SIZE && RoomForFrame(y.cpu)
    requires forall p :: p in y.sched.procs ==> p.esp + FRAME <= MEM_SIZE
  {
    var s := y.sched;
    var next := Search(s.procs, s.current, 1);
    if next < 0 || next == s.current then y
    else
      var e := y.cpu.esp - FRAME;
      var m := PushFrame(y.mem, e, y.cpu.regs, e + 32, y.cpu.eip);
      y.(sched := Switched(s, next, e), mem := m, cpu := PopFrame(m, s.procs[next].esp))
  }

  /** The timer branch of the interrupt handler: a schedule call whenever the
      32-bit tick counter is a multiple of ten. */
  function Tick(y: System): System
    requires |y.sched.procs| == MAX_PROCESSES && y.sched.current < MAX_PROCESSES
    requires |y.mem| == MEM_SIZE && RoomForFrame(y.cpu)
    requires forall p :: p in y.sched.procs ==> p.esp + FRAME <= MEM_SIZE
  {
    var t := y.(ticks := Wrap(y.ticks + 1));
    if t.ticks % TIME_SLICE == 0 then Schedule(t) else t
  }

  // ---------- creation ----------

  function FreeSlot(procs: seq<Proc>, i: nat): (k: nat)
    requires i <= |procs|
    ensures i <= k <= |procs|
    ensures k < |procs| ==> procs[k].state.Unused?
    ensures forall j :: i <= j < k ==> !procs[j].state.Unused?
    decreases |procs| - i
  {
    if i == |procs| || procs[i].state.Unused? then i else FreeSlot(procs, i + 1)
  }

  ghost predicate CanCreate(y: System) {
    FreeSlot(y.sched.procs, 0) < |y.sched.procs| && y.pool != {}
  }

  /** `process_create`. */
  ghost function Create(y: System, entry: Word): System
    requires |y.sched.procs| == MAX_PROCESSES && |y.mem| == MEM_SIZE
    requires forall p :: p in y.pool ==> p < TOTAL_PAGES
  {
    if !CanCreate(y) then y
    else
      var s, slot, page := y.sched, FreeSlot(y.sched.procs, 0), Min(y.pool);
      var stack := page * PAGE_SIZE;
      var e := stack + PAGE_SIZE - FRAME;
      System(Sched(s.procs[slot := Proc(Wrap(s.nextPid), Ready, e, entry, stack)], s.current, s.nextPid + 1),
             y.cpu, PushFrame(y.mem, e, ZERO_REGS, 0, entry), y.pool - {page}, y.ticks)
  }

  // ---------- stacks ----------

  /** The stack of slot `i`: the boot stack from `bootLow` up for PID 0, else the
      page given at creation. */
  function StackLow(s: Sched, i: nat, bootLow: nat): nat
    requires i < |s.procs|
  {
    if i == 0 then bootLow else s.procs[i].kernelStack
  }

  function StackHigh(s: Sched, i: nat): nat
    requires i < |s.procs|
  {
    if i == 0 then KERNEL_STACK_TOP else s.procs[i].kernelStack + PAGE_SIZE
  }

  predicate Within(lo: nat, hi: nat, esp: nat) {
    lo + FRAME <= esp <= hi
  }

  ghost predicate StacksApart(s: Sched, i: nat, j: nat, bootLow: nat)
    requires i < |s.procs| && j < |s.procs|
  {
    StackHigh(s, i) <= StackLow(s, j, bootLow) || StackHigh(s, j) <= StackLow(s, i, bootLow)
  }

  // ---------- the scheduler's invariant ----------

  /** Used slots form a prefix with pid equal to slot; exactly the current one runs. */
  ghost predicate SchedInv(s: Sched) {
    && |s.procs| == MAX_PROCESSES && s.current < s.nextPid <= MAX_PROCESSES
    && (forall i :: 0 <= i < s.nextPid ==> s.procs[i].pid == i)
    && (forall i :: 0 <= i < s.nextPid ==> s.procs[i].state == if i == s.current then Running else Ready)
    && (forall i :: s.nextPid <= i < MAX_PROCESSES ==> s.procs[i].state == Unused)
  }

  /** Stacks lie in memory, apart from each other and from the free pages. */
  ghost predicate StackInv(y: System, bootLow: nat) {
    var s := y.sched;
    && |s.procs| == MAX_PROCESSES && s.nextPid <= MAX_PROCESSES && |y.mem| == MEM_SIZE
    && bootLow <= KERNEL_STACK_TOP
    && (forall p :: p in y.pool ==> 0 < p < TOTAL_PAGES)
    && (forall i :: 1 <= i < s.nextPid ==>
          s.procs[i].kernelStack % PAGE_SIZE == 0 && s.procs[i].kernelStack < MEM_SIZE
          && PageOf(s.procs[i].kernelStack) !in y.pool)
    && (forall i, j :: 0 <= i < j < s.nextPid ==> StacksApart(s, i, j, bootLow))
  }

  /** Every process off the CPU has the context `saved[i]` on its own stack. */
  ghost predicate SavedInv(y: System, saved: seq<Context>, bootLow: nat)
    requires StackInv(y, bootLow)
  {
    && |saved| == MAX_PROCESSES && y.sched.current < y.sched.nextPid
    && Within(StackLow(y.sched, y.sched.current, bootLow), StackHigh(y.sched, y.sched.current), y.cpu.esp)
    && (forall i :: 0 <= i < y.sched.nextPid && i != y.sched.current ==> SavedAt(y, saved, bootLow, i))
    && (forall i :: y.sched.nextPid <= i < MAX_PROCESSES ==> y.sched.procs[i].esp == 0)
    && y.sched.procs[y.sched.current].esp + FRAME <= MEM_SIZE
  }

  ghost predicate SavedAt(y: System, saved: seq<Context>, bootLow: nat, i: nat)
    requires StackInv(y, bootLow) && i < y.sched.nextPid && |saved| == MAX_PROCESSES
  {
    var e := y.sched.procs[i].esp;
    && StackLow(y.sched, i, bootLow) <= e && e + FRAME <= StackHigh(y.sched, i) && e + FRAME <= MEM_SIZE
    && PopFrame(y.mem, e) == saved[i]
  }

  ghost predicate Inv(y: System, saved: seq<Context>, bootLow: nat) {
    SchedInv(y.sched) && StackInv(y, bootLow) && SavedInv(y, saved, bootLow)
  }

  /** What the search finds: no farther, in cyclic order, than any READY slot. */
  lemma {:induction false} SearchFinds(procs: seq<Proc>, current: nat, i: nat, d: nat) returns (k: nat)
    requires |procs| == MAX_PROCESSES && 1 <= i <= d <= MAX_PROCESSES
    requires procs[(current + d) % MAX_PROCESSES].state.Ready?
    ensures i <= k <= d && Search(procs, current, i) == (current + k) % MAX_PROCESSES
    decreases d - i
  {
    if procs[(current + i) % MAX_PROCESSES].state.Ready? {
      k := i;
    } else {
      k := SearchFinds(procs, current, i + 1, d);
    }
  }

  // ---------- each step keeps the invariant ----------

  lemma AllEspLow(y: System, saved: seq<Context>, bootLow: nat)
    requires Inv(y, saved, bootLow)
    ensures forall p :: p in y.sched.procs ==> p.esp + FRAME <= MEM_SIZE
    ensures RoomForFrame(y.cpu)
  {
    forall p | p in y.sched.procs
      ensures p.esp + FRAME <= MEM_SIZE
    {
      var i :| 0 <= i < MAX_PROCESSES && y.sched.procs[i] == p;
      if i < y.sched.nextPid && i != y.sched.current {
        assert SavedAt(y, saved, bootLow, i);
      }
    }
  }

  /** Saved contexts survive writes that stay off their stacks. */
  lemma SavedFrame(y: System, z: System, saved: seq<Context>, bootLow: nat, i: nat)
    requires StackInv(y, bootLow) && StackInv(z, bootLow) && |saved| == MAX_PROCESSES
    requires i < y.sched.nextPid <= z.sched.nextPid && SavedAt(y, saved, bootLow, i)
    requires z.sched.procs[i].esp == y.sched.procs[i].esp && z.sched.procs[i].kernelStack == y.sched.procs[i].kernelStack
    requires SameOn(y.mem, z.mem, StackLow(y.sched, i, bootLow), StackHigh(y.sched, i))
    ensures SavedAt(z, saved, bootLow, i)
  {
  }

  /** The running process's context once it has been switched out. */
  function SavedAfterSchedule(y: System, saved: seq<Context>): seq<Context>
    requires |y.sched.procs| == MAX_PROCESSES && y.sched.current < |saved|
  {
    var next := Search(y.sched.procs, y.sched.current, 1);
    if next < 0 || next == y.sched.current then saved else saved[y.sched.current := y.cpu]
  }

  lemma ScheduleSched(s: Sched, next: nat, e: Word)
    requires SchedInv(s) && next < MAX_PROCESSES && s.procs[next].state.Ready?
    ensures SchedInv(Switched(s, next, e)) && next < s.nextPid && next != s.current
  {
  }

  lemma ScheduleKeepsInv(y: System, saved: seq<Context>, bootLow: nat)
    requires Inv(y, saved, bootLow)
    ensures forall p :: p in y.sched.procs ==> p.esp + FRAME <= MEM_SIZE
    ensures RoomForFrame(y.cpu)
    ensures Inv(Schedule(y), SavedAfterSchedule(y, saved), bootLow)
    ensures Schedule(y).sched.current != y.sched.current ==> Schedule(y).cpu == saved[Schedule(y).sched.current]
  {
    AllEspLow(y, saved, bootLow);
    var s := y.sched;
    var next := Search(s.procs, s.current, 1);
    if next >= 0 && next != s.current {
      var e := y.cpu.esp - FRAME;
      ScheduleSched(s, next, e);
      var z, saved' := Schedule(y), saved[s.current := y.cpu];
      SwitchStacks(y, z, bootLow, next);
      SwitchSaved(y, z, saved, bootLow, next);
    }
  }

  lemma SwitchStacks(y: System, z: System, bootLow: nat, next: nat)
    requires StackInv(y, bootLow) && SchedInv(y.sched) && next < y.sched.nextPid && z.pool == y.pool && |z.mem| == MEM_SIZE
    requires exists e: Word :: z.sched == Switched(y.sched, next, e)
    ensures StackInv(z, bootLow)
  {
    forall i, j | 0 <= i < j < z.sched.nextPid
      ensures StacksApart(z.sched, i, j, bootLow)
    {
      assert StacksApart(y.sched, i, j, bootLow);
    }
  }

  /** The frame pushed at a switch leaves the other suspended contexts in place. */
  lemma SwitchKeepsOther(y: System, z: System, saved: seq<Context>, bootLow: nat, i: nat)
    requires Inv(y, saved, bootLow) && StackInv(z, bootLow) && RoomForFrame(y.cpu)
    requires i < y.sched.nextPid && i != y.sched.current && z.sched.nextPid == y.sched.nextPid
    requires z.sched.procs[i].esp == y.sched.procs[i].esp && z.sched.procs[i].kernelStack == y.sched.procs[i].kernelStack
    requires z.mem == PushFrame(y.mem, y.cpu.esp - FRAME, y.cpu.regs, y.cpu.esp - 4, y.cpu.eip)
    ensures SavedAt(z, saved, bootLow, i)
  {
    hide PushFrame, PopFrame;
    var cur, e := y.sched.current, y.cpu.esp - FRAME;
    assert if i < cur then StacksApart(y.sched, i, cur, bootLow) else StacksApart(y.sched, cur, i, bootLow);
    PushElsewhere(y.mem, e, y.cpu.regs, e + 32, y.cpu.eip, StackLow(y.sched, i, bootLow), StackHigh(y.sched, i));
    assert SavedAt(y, saved, bootLow, i);
    SavedFrame(y, z, saved, bootLow, i);
  }

  lemma SwitchSaved(y: System, z: System, saved: seq<Context>, bootLow: nat, next: nat)
    requires Inv(y, saved, bootLow) && StackInv(z, bootLow) && RoomForFrame(y.cpu)
    requires next < y.sched.nextPid && next != y.sched.current
    requires z.sched == Switched(y.sched, next, y.cpu.esp - FRAME)
    requires z.mem == PushFrame(y.mem, y.cpu.esp - FRAME, y.cpu.regs, y.cpu.esp - 4, y.cpu.eip)
    requires y.sched.procs[next].esp + FRAME <= MEM_SIZE && z.cpu == PopFrame(z.mem, y.sched.procs[next].esp)
    ensures SavedInv(z, saved[y.sched.current := y.cpu], bootLow) && z.cpu == saved[next]
  {
    hide PushFrame, StacksApart;
    var cur, e := y.sched.current, y.cpu.esp - FRAME;
    var saved' := saved[cur := y.cpu];
    PopAfterPush(y.mem, e, y.cpu.regs, e + 32, y.cpu.eip);
    SwitchKeepsOther(y, z, saved, bootLow, next);
    forall i | 0 <= i < z.sched.nextPid && i != next
      ensures SavedAt(z, saved', bootLow, i)
    {
      if i != cur {
        SwitchKeepsOther(y, z, saved, bootLow, i);
      }
    }
  }

  // creation

  lemma FreeSlotIsNext(s: Sched)
    requires SchedInv(s)
    ensures FreeSlot(s.procs, 0) == s.nextPid
  {
    FreeSlotFrom(s, 0);
  }

  lemma {:induction false} FreeSlotFrom(s: Sched, i: nat)
    requires SchedInv(s) && i <= s.nextPid
    ensures FreeSlot(s.procs, i) == s.nextPid
    decreases s.nextPid - i
  {
    if i < s.nextPid {
      FreeSlotFrom(s, i + 1);
    }
  }

  /** The page a new stack will take is not part of the boot stack. */
  ghost predicate CreateOk(y: System, bootLow: nat) {
    y.pool != {} ==> PageOf(KERNEL_STACK_TOP) <= Min(y.pool) || (Min(y.pool) + 1) * PAGE_SIZE <= bootLow
  }

  ghost function SavedAfterCreate(y: System, saved: seq<Context>, entry: Word): seq<Context>
    requires |saved| == MAX_PROCESSES && |y.sched.procs| == MAX_PROCESSES
  {
    if CanCreate(y) then
      saved[FreeSlot(y.sched.procs, 0) := Context(ZERO_REGS, Min(y.pool) * PAGE_SIZE + PAGE_SIZE, entry)]
    else saved
  }

  lemma CreateKeepsInv(y: System, saved: seq<Context>, bootLow: nat, entry: Word)
    requires Inv(y, saved, bootLow) && CreateOk(y, bootLow)
    ensures Inv(Create(y, entry), SavedAfterCreate(y, saved, entry), bootLow)
  {
    if CanCreate(y) {
      FreeSlotIsNext(y.sched);
      CreateStacks(y, bootLow, entry);
      CreateSaved(y, saved, bootLow, entry);
    }
  }

  lemma CreateStacks(y: System, bootLow: nat, entry: Word)
    requires SchedInv(y.sched) && StackInv(y, bootLow) && CreateOk(y, bootLow) && CanCreate(y)
    ensures SchedInv(Create(y, entry).sched) && StackInv(Create(y, entry), bootLow)
  {
    FreeSlotIsNext(y.sched);
    hide PushFrame;
    var z, slot := Create(y, entry), y.sched.nextPid;
    forall i, j | 0 <= i < j < z.sched.nextPid
      ensures StacksApart(z.sched, i, j, bootLow)
    {
      if j < slot {
        assert StacksApart(y.sched, i, j, bootLow);
      } else if i > 0 {
        PagesApart(PageOf(y.sched.procs[i].kernelStack), Min(y.pool));
      }
    }
  }

  lemma PagesApart(p: nat, q: nat)
    requires p != q
    ensures (p + 1) * PAGE_SIZE <= q * PAGE_SIZE || (q + 1) * PAGE_SIZE <= p * PAGE_SIZE
  {
  }

  lemma CreateSaved(y: System, saved: seq<Context>, bootLow: nat, entry: Word)
    requires Inv(y, saved, bootLow) && CreateOk(y, bootLow) && CanCreate(y)
    requires StackInv(Create(y, entry), bootLow)
    ensures SavedInv(Create(y, entry), SavedAfterCreate(y, saved, entry), bootLow)
  {
    FreeSlotIsNext(y.sched);
    var z, slot, stack := Create(y, entry), y.sched.nextPid, Min(y.pool) * PAGE_SIZE;
    var saved' := SavedAfterCreate(y, saved, entry);
    var e := stack + PAGE_SIZE - FRAME;
    PopAfterPush(y.mem, e, ZERO_REGS, 0, entry);
    hide PushFrame, PopFrame;
    forall i | 0 <= i < z.sched.nextPid && i != z.sched.current
      ensures SavedAt(z, saved', bootLow, i)
    {
      if i < slot {
        assert SavedAt(y, saved, bootLow, i);
        assert StacksApart(z.sched, i, slot, bootLow);
        PushElsewhere(y.mem, e, ZERO_REGS, 0, entry, StackLow(y.sched, i, bootLow), StackHigh(y.sched, i));
        SavedFrame(y, z, saved, bootLow, i);
      }
    }
  }

  // ---------- runs ----------

  /** One event: the running process computes, the timer fires, or the running
      process creates another. */
  datatype Event = Work(mem: seq<Word>, cpu: Context) | TimerTick | CreateProcess(entry: Word)

  /** A system together with the context each suspended process should get back. */
  datatype Config = Config(sys: System, saved: seq<Context>)

  ghost predicate ConfigInv(c: Config, bootLow: nat) {
    Inv(c.sys, c.saved, bootLow)
  }

  /** What events may do: a process writes nothing on the stacks of others and
      stays inside its own stack; new stacks are not cut from the boot stack. */
  ghost predicate Legal(c: Config, ev: Event, bootLow: nat) {
    match ev
    case Work(m, cpu) =>
      var s := c.sys.sched;
      && |m| == MEM_SIZE && s.current < |s.procs| && s.nextPid <= |s.procs|
      && Within(StackLow(s, s.current, bootLow), StackHigh(s, s.current), cpu.esp)
      && forall i :: 0 <= i < s.nextPid && i != s.current ==>
           SameOn(c.sys.mem, m, StackLow(s, i, bootLow), StackHigh(s, i))
    case TimerTick => true
    case CreateProcess(_) => CreateOk(c.sys, bootLow)
  }

  /** What an event needs to be carried out at all. */
  ghost predicate Runnable(c: Config) {
    && |c.sys.sched.procs| == |c.saved| == MAX_PROCESSES && c.sys.sched.current < MAX_PROCESSES
    && |c.sys.mem| == MEM_SIZE && RoomForFrame(c.sys.cpu)
    && (forall p :: p in c.sys.sched.procs ==> p.esp + FRAME <= MEM_SIZE)
    && (forall p :: p in c.sys.pool ==> 0 < p < TOTAL_PAGES)
  }

  /** Whether the next tick calls `schedule`. */
  predicate Fires(y: System) {
    Wrap(y.ticks + 1) % TIME_SLICE == 0
  }

  ghost function Apply(c: Config, ev: Event): Config
    requires Runnable(c)
  {
    match ev
    case Work(m, cpu) => c.(sys := c.sys.(mem := m, cpu := cpu))
    case TimerTick => Config(Tick(c.sys), if Fires(c.sys) then SavedAfterSchedule(c.sys, c.saved) else c.saved)
    case CreateProcess(entry) => Config(Create(c.sys, entry), SavedAfterCreate(c.sys, c.saved, entry))
  }

  ghost function Step(c: Config, ev: Event, bootLow: nat): Config
    requires ConfigInv(c, bootLow)
  {
    AllEspLow(c.sys, c.saved, bootLow);
    Apply(c, ev)
  }

  lemma WorkKeepsInv(c: Config, m: seq<Word>, cpu: Context, bootLow: nat)
    requires ConfigInv(c, bootLow) && Legal(c, Work(m, cpu), bootLow)
    ensures ConfigInv(Step(c, Work(m, cpu), bootLow), bootLow)
  {
    hide PopFrame;
    var y, z := c.sys, c.sys.(mem := m, cpu := cpu);
    forall i, j | 0 <= i < j < z.sched.nextPid
      ensures StacksApart(z.sched, i, j, bootLow)
    {
      assert StacksApart(y.sched, i, j, bootLow);
    }
    forall i | 0 <= i < z.sched.nextPid && i != z.sched.current
      ensures SavedAt(z, c.saved, bootLow, i)
    {
      assert SavedAt(y, c.saved, bootLow, i);
      SavedFrame(y, z, c.saved, bootLow, i);
    }
  }

  lemma RetickKeepsInv(y: System, t: Word, saved: seq<Context>, bootLow: nat)
    requires Inv(y, saved, bootLow)
    ensures Inv(y.(ticks := t), saved, bootLow)
  {
    hide PopFrame;
    var z := y.(ticks := t);
    forall i, j | 0 <= i < j < z.sched.nextPid
      ensures StacksApart(z.sched, i, j, bootLow)
    {
      assert StacksApart(y.sched, i, j, bootLow);
    }
    forall i | 0 <= i < z.sched.nextPid && i != z.sched.current
      ensures SavedAt(z, saved, bootLow, i)
    {
      assert SavedAt(y, saved, bootLow, i);
    }
  }

  lemma StepKeepsInv(c: Config, ev: Event, bootLow: nat)
    requires ConfigInv(c, bootLow) && Legal(c, ev, bootLow)
    ensures ConfigInv(Step(c, ev, bootLow), bootLow)
  {
    match ev
    case Work(m, cpu) => WorkKeepsInv(c, m, cpu, bootLow);
    case TimerTick =>
      hide Schedule, SchedInv, StackInv, SavedInv, SavedAfterSchedule;
      AllEspLow(c.sys, c.saved, bootLow);
      var t := c.sys.(ticks := Wrap(c.sys.ticks + 1));
      RetickKeepsInv(c.sys, t.ticks, c.saved, bootLow);
      if t.ticks % TIME_SLICE == 0 {
        ScheduleKeepsInv(t, c.saved, bootLow);
        SavedRetick(c.sys, t, c.saved);
      }
    case CreateProcess(entry) => CreateKeepsInv(c.sys, c.saved, bootLow, entry);
  }

  lemma SavedRetick(y: System, t: System, saved: seq<Context>)
    requires |y.sched.procs| == MAX_PROCESSES && y.sched.current < |saved| && t == y.(ticks := t.ticks)
    ensures SavedAfterSchedule(t, saved) == SavedAfterSchedule(y, saved)
  {
  }

  ghost predicate LegalRun(c: Config, evs: seq<Event>, bootLow: nat)
    requires ConfigInv(c, bootLow)
    decreases |evs|
  {
    evs == [] ||
    (Legal(c, evs[0], bootLow) &&
     (StepKeepsInv(c, evs[0], bootLow); LegalRun(Step(c, evs[0], bootLow), evs[1..], bootLow)))
  }

  ghost function Run(c: Config, evs: seq<Event>, bootLow: nat): (d: Config)
    requires ConfigInv(c, bootLow) && LegalRun(c, evs, bootLow)
    ensures ConfigInv(d, bootLow)
    decreases |evs|
  {
    if evs == [] then c
    else
      StepKeepsInv(c, evs[0], bootLow);
      Run(Step(c, evs[0], bootLow), evs[1..], bootLow)
  }

  /** Slot `i` is on the CPU in no state of the run, its last included. */
  ghost predicate NeverRuns(c: Config, evs: seq<Event>, i: nat, bootLow: nat)
    requires ConfigInv(c, bootLow) && LegalRun(c, evs, bootLow)
    decreases |evs|
  {
    && c.sys.sched.current != i
    && (evs == [] ||
        (StepKeepsInv(c, evs[0], bootLow); NeverRuns(Step(c, evs[0], bootLow), evs[1..], i, bootLow)))
  }
}
