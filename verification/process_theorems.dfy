/** Context preservation and bounded waiting, over every legal interleaving. */
module ProcessTheorems {
  import opened Machine
  import opened ProcessSpec

  // ---------- boot ----------

  const BOOT_PROC := Proc(0, Running, 0x1F_0000, 0, 0x1F_0000)

  /** The state `process_init` leaves: only the kernel process, running. */
  ghost predicate Booted(y: System, bootLow: nat) {
    && y.sched.current == 0 && y.sched.nextPid == 1
    && |y.sched.procs| == MAX_PROCESSES && y.sched.procs[0] == BOOT_PROC
    && (forall i :: 1 <= i < MAX_PROCESSES ==> y.sched.procs[i].state == Unused && y.sched.procs[i].esp == 0)
    && |y.mem| == MEM_SIZE && bootLow <= KERNEL_STACK_TOP && Within(bootLow, KERNEL_STACK_TOP, y.cpu.esp)
    && forall p :: p in y.pool ==> 0 < p < TOTAL_PAGES
  }

  lemma BootInv(y: System, saved: seq<Context>, bootLow: nat)
    requires Booted(y, bootLow) && |saved| == MAX_PROCESSES
    ensures ConfigInv(Config(y, saved), bootLow)
  {
  }

  // ---------- contexts ----------

  lemma StepKeepsSaved(c: Config, ev: Event, i: nat, bootLow: nat)
    requires ConfigInv(c, bootLow) && Legal(c, ev, bootLow) && i < c.sys.sched.nextPid && i != c.sys.sched.current
    ensures Step(c, ev, bootLow).saved[i] == c.saved[i] && i < Step(c, ev, bootLow).sys.sched.nextPid
  {
    StepKeepsInv(c, ev, bootLow);
    FreeSlotIsNext(c.sys.sched);
  }

  /** A suspended process's context does not change while it is off the CPU. */
  lemma {:induction false} RunKeepsSaved(c: Config, evs: seq<Event>, i: nat, bootLow: nat)
    requires ConfigInv(c, bootLow) && LegalRun(c, evs, bootLow) && i < c.sys.sched.nextPid
    requires NeverRuns(c, evs, i, bootLow)
    ensures Run(c, evs, bootLow).saved[i] == c.saved[i] && i < Run(c, evs, bootLow).sys.sched.nextPid
    decreases |evs|
  {
    if evs != [] {
      StepKeepsInv(c, evs[0], bootLow);
      StepKeepsSaved(c, evs[0], i, bootLow);
      hide ConfigInv, Step, Legal;
      RunKeepsSaved(Step(c, evs[0], bootLow), evs[1..], i, bootLow);
    }
  }

  /** The tick that puts a process on the CPU gives it its saved context. */
  lemma ResumeLoadsSaved(c: Config, i: nat, bootLow: nat)
    requires ConfigInv(c, bootLow) && i != c.sys.sched.current
    requires Step(c, TimerTick, bootLow).sys.sched.current == i
    ensures i < MAX_PROCESSES && Step(c, TimerTick, bootLow).sys.cpu == c.saved[i]
  {
    AllEspLow(c.sys, c.saved, bootLow);
    var t := c.sys.(ticks := Wrap(c.sys.ticks + 1));
    RetickKeepsInv(c.sys, t.ticks, c.saved, bootLow);
    hide Schedule, SchedInv, StackInv, SavedInv, Search, PushFrame, PopFrame;
    if t.ticks % TIME_SLICE == 0 {
      ScheduleKeepsInv(t, c.saved, bootLow);
    }
  }

  /** The tick that takes a process off the CPU records its context. */
  lemma SuspendRecords(c: Config, bootLow: nat)
    requires ConfigInv(c, bootLow)
    requires Step(c, TimerTick, bootLow).sys.sched.current != c.sys.sched.current
    ensures Step(c, TimerTick, bootLow).saved[c.sys.sched.current] == c.sys.cpu
  {
    AllEspLow(c.sys, c.saved, bootLow);
    hide PushFrame, PopFrame, Search;
  }

  /** A process switched out, and later switched in again, has the registers,
      stack pointer and return address it had, whatever ran in between. */
  lemma ResumedExactly(c: Config, evs: seq<Event>, bootLow: nat)
    requires ConfigInv(c, bootLow)
    requires Legal(c, TimerTick, bootLow)
    requires var away := Step(c, TimerTick, bootLow);
      && ConfigInv(away, bootLow) && LegalRun(away, evs, bootLow)
      && NeverRuns(away, evs, c.sys.sched.current, bootLow)
      && Step(Run(away, evs, bootLow), TimerTick, bootLow).sys.sched.current == c.sys.sched.current
    ensures var away := Step(c, TimerTick, bootLow);
      Step(Run(away, evs, bootLow), TimerTick, bootLow).sys.cpu == c.sys.cpu
  {
    var i, away := c.sys.sched.current, Step(c, TimerTick, bootLow);
    NeverRunsEnds(away, evs, i, bootLow);
    SuspendRecords(c, bootLow);
    TickKeepsPids(c, bootLow);
    hide ConfigInv, Step, Legal;
    RunKeepsSaved(away, evs, i, bootLow);
    ResumeLoadsSaved(Run(away, evs, bootLow), i, bootLow);
  }

  lemma TickKeepsPids(c: Config, bootLow: nat)
    requires ConfigInv(c, bootLow)
    ensures Step(c, TimerTick, bootLow).sys.sched.nextPid == c.sys.sched.nextPid > c.sys.sched.current
  {
    AllEspLow(c.sys, c.saved, bootLow);
    hide PushFrame, PopFrame, Search;
  }

  lemma {:induction false} NeverRunsEnds(c: Config, evs: seq<Event>, i: nat, bootLow: nat)
    requires ConfigInv(c, bootLow) && LegalRun(c, evs, bootLow) && NeverRuns(c, evs, i, bootLow)
    ensures c.sys.sched.current != i && Run(c, evs, bootLow).sys.sched.current != i
    decreases |evs|
  {
    if evs != [] {
      StepKeepsInv(c, evs[0], bootLow);
      hide ConfigInv, Step, Legal;
      NeverRunsEnds(Step(c, evs[0], bootLow), evs[1..], i, bootLow);
    }
  }

  /** A new process starts at its entry point with zeroed registers and an empty
      stack page, however long it waits for its first turn. */
  lemma FirstStart(c: Config, entry: Word, evs: seq<Event>, bootLow: nat)
    requires ConfigInv(c, bootLow) && Legal(c, CreateProcess(entry), bootLow) && CanCreate(c.sys)
    requires var made, slot := Step(c, CreateProcess(entry), bootLow), c.sys.sched.nextPid;
      && ConfigInv(made, bootLow) && LegalRun(made, evs, bootLow) && NeverRuns(made, evs, slot, bootLow)
      && Step(Run(made, evs, bootLow), TimerTick, bootLow).sys.sched.current == slot
    ensures var made := Step(c, CreateProcess(entry), bootLow);
      Step(Run(made, evs, bootLow), TimerTick, bootLow).sys.cpu
        == Context(ZERO_REGS, (Min(c.sys.pool) + 1) * PAGE_SIZE, entry)
  {
    FreeSlotIsNext(c.sys.sched);
    var slot, made := c.sys.sched.nextPid, Step(c, CreateProcess(entry), bootLow);
    assert made.saved[slot] == Context(ZERO_REGS, (Min(c.sys.pool) + 1) * PAGE_SIZE, entry);
    NeverRunsEnds(made, evs, slot, bootLow);
    hide ConfigInv, Step, Legal;
    RunKeepsSaved(made, evs, slot, bootLow);
    ResumeLoadsSaved(Run(made, evs, bootLow), slot, bootLow);
  }

  // ---------- bounded waiting ----------

  /** Cyclic distance from the running slot; zero only for the running slot itself. */
  function Distance(current: nat, i: nat): nat {
    (i + MAX_PROCESSES - current % MAX_PROCESSES) % MAX_PROCESSES
  }

  /** A schedule call either runs a waiting process or brings its turn closer. */
  lemma ScheduleApproaches(y: System, saved: seq<Context>, i: nat, bootLow: nat)
    requires Inv(y, saved, bootLow) && i < y.sched.nextPid && i != y.sched.current
    requires RoomForFrame(y.cpu) && forall p :: p in y.sched.procs ==> p.esp + FRAME <= MEM_SIZE
    ensures var n := Schedule(y).sched.current;
      n == i || (n != y.sched.current && Distance(n, i) < Distance(y.sched.current, i))
  {
    hide Distance, Search, PushFrame, PopFrame, StackInv, SavedInv;
    var s := y.sched;
    var d := Distance(s.current, i);
    DistanceIs(s.current, i);
    assert (s.current + d) % MAX_PROCESSES == i;
    var k := SearchFinds(s.procs, s.current, 1, d);
    NextDistance(s.current, i, d, k);
  }

  lemma DistanceIs(current: nat, i: nat)
    requires current < MAX_PROCESSES && i < MAX_PROCESSES
    ensures Distance(current, i) == if current <= i then i - current else i + MAX_PROCESSES - current
  {
  }

  lemma NextDistance(current: nat, i: nat, d: nat, k: nat)
    requires current < MAX_PROCESSES && i < MAX_PROCESSES && d == Distance(current, i) && 1 <= k <= d
    ensures var n := (current + k) % MAX_PROCESSES; n != current && (n == i || Distance(n, i) < d)
  {
    hide Distance;
    DistanceIs(current, i);
    var n := if current + k < MAX_PROCESSES then current + k else current + k - MAX_PROCESSES;
    assert (current + k) % MAX_PROCESSES == n;
    DistanceIs(n, i);
  }

  /** From the running slot the search goes to the next used slot, or back to the
      first. */
  lemma SearchIsNext(s: Sched)
    requires SchedInv(s) && s.nextPid > 1
    ensures Search(s.procs, s.current, 1) == if s.current + 1 < s.nextPid then s.current + 1 else 0
  {
    hide Search;
    if s.current + 1 < s.nextPid {
      var k := SearchFinds(s.procs, s.current, 1, 1);
    } else {
      var d := 16 - s.current;
      assert (s.current + d) % MAX_PROCESSES == 0;
      var k := SearchFinds(s.procs, s.current, 1, d);
    }
  }

  lemma SearchAlone(s: Sched, i: nat)
    requires SchedInv(s) && s.nextPid == 1 && 1 <= i
    ensures Search(s.procs, s.current, i) == -1
    decreases MAX_PROCESSES + 1 - i
  {
    if i <= MAX_PROCESSES {
      SearchAlone(s, i + 1);
    }
  }

  /** The processor changes hands on exactly the ticks whose number is a multiple of
      ten, when there is more than one process, and then goes to the process created
      next after the running one, or back to the first. */
  lemma RoundRobin(c: Config, ev: Event, bootLow: nat)
    requires ConfigInv(c, bootLow) && Legal(c, ev, bootLow)
    ensures var s := c.sys.sched;
      Step(c, ev, bootLow).sys.sched.current ==
        if ev.TimerTick? && (c.sys.ticks + 1) % 0x1_0000_0000 % 10 == 0 && s.nextPid > 1 then
          (if s.current + 1 < s.nextPid then s.current + 1 else 0)
        else s.current
  {
    hide Search, PushFrame, PopFrame, StackInv, SavedInv;
    AllEspLow(c.sys, c.saved, bootLow);
    if c.sys.sched.nextPid > 1 {
      SearchIsNext(c.sys.sched);
    } else {
      SearchAlone(c.sys.sched, 1);
    }
  }

  /** Ticks until the handler next calls the scheduler, counter wrap included. */
  function TicksLeft(t: Word): (k: nat)
    ensures 1 <= k <= TIME_SLICE
  {
    if t >= 0xFFFF_FFFA then 0x1_0000_0000 - t else TIME_SLICE - t % TIME_SLICE
  }

  /** The scheduler is called on exactly the ticks that this countdown announces. */
  lemma Countdown(t: Word)
    ensures Wrap(t + 1) % TIME_SLICE == 0 <==> TicksLeft(t) == 1
    ensures TicksLeft(t) > 1 ==> TicksLeft(Wrap(t + 1)) == TicksLeft(t) - 1
  {
    if t == 0xFFFF_FFFF {
      assert Wrap(t + 1) == 0;
    } else {
      assert Wrap(t + 1) == t + 1;
    }
  }

  function Ticks(evs: seq<Event>): nat {
    if evs == [] then 0 else (if evs[0].TimerTick? then 1 else 0) + Ticks(evs[1..])
  }

  /** An upper bound on the ticks slot `i` still has to wait. */
  function Wait(c: Config, i: nat): int {
    (Distance(c.sys.sched.current, i) - 1) * TIME_SLICE + TicksLeft(c.sys.ticks)
  }

  lemma StepApproaches(c: Config, ev: Event, i: nat, bootLow: nat)
    requires ConfigInv(c, bootLow) && Legal(c, ev, bootLow) && i < c.sys.sched.nextPid && i != c.sys.sched.current
    requires Step(c, ev, bootLow).sys.sched.current != i
    ensures Wait(Step(c, ev, bootLow), i) <= Wait(c, i) - if ev.TimerTick? then 1 else 0
    ensures i < Step(c, ev, bootLow).sys.sched.nextPid
  {
    hide Distance, TicksLeft, StacksApart, SavedInv, PushFrame, PopFrame, Search, Switched;
    StepKeepsSaved(c, ev, i, bootLow);
    if ev.TimerTick? {
      AllEspLow(c.sys, c.saved, bootLow);
      Countdown(c.sys.ticks);
      var t := c.sys.(ticks := Wrap(c.sys.ticks + 1));
      RetickKeepsInv(c.sys, t.ticks, c.saved, bootLow);
      if t.ticks % TIME_SLICE == 0 {
        ScheduleApproaches(t, c.saved, i, bootLow);
        ScheduleKeepsTicks(t);
      }
    }
  }

  lemma ScheduleKeepsTicks(y: System)
    requires |y.sched.procs| == MAX_PROCESSES && y.sched.current < MAX_PROCESSES
    requires |y.mem| == MEM_SIZE && RoomForFrame(y.cpu)
    requires forall p :: p in y.sched.procs ==> p.esp + FRAME <= MEM_SIZE
    ensures Schedule(y).ticks == y.ticks
  {
  }

  /** A process that is ready runs before `Wait` ticks have passed, whatever else
      is created or computed meanwhile. */
  lemma {:induction false} RunsInTime(c: Config, evs: seq<Event>, i: nat, bootLow: nat)
    requires ConfigInv(c, bootLow) && LegalRun(c, evs, bootLow)
    requires i < c.sys.sched.nextPid && i != c.sys.sched.current && Ticks(evs) >= Wait(c, i)
    ensures !NeverRuns(c, evs, i, bootLow)
    decreases |evs|
  {
    assert Wait(c, i) >= 1 by { DistancePositive(c, i, bootLow); }
    var d := Step(c, evs[0], bootLow);
    StepKeepsInv(c, evs[0], bootLow);
    if d.sys.sched.current != i {
      StepApproaches(c, evs[0], i, bootLow);
      hide ConfigInv, Step, Legal, Wait;
      RunsInTime(d, evs[1..], i, bootLow);
    }
  }

  lemma DistancePositive(c: Config, i: nat, bootLow: nat)
    requires ConfigInv(c, bootLow) && i < c.sys.sched.nextPid && i != c.sys.sched.current
    ensures 1 <= Distance(c.sys.sched.current, i) <= 15
    ensures 1 <= Wait(c, i) <= 150
  {
  }

  /** Every ready process runs within 150 timer ticks. */
  lemma BoundedWaiting(c: Config, evs: seq<Event>, i: nat, bootLow: nat)
    requires ConfigInv(c, bootLow) && LegalRun(c, evs, bootLow)
    requires i < c.sys.sched.nextPid && c.sys.sched.procs[i].state == Ready && Ticks(evs) >= 150
    ensures !NeverRuns(c, evs, i, bootLow)
  {
    DistancePositive(c, i, bootLow);
    RunsInTime(c, evs, i, bootLow);
  }
}
