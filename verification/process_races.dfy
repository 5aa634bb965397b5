/** Which ticks inside `process_create` its promises survive. */
module ProcessRaces {
  import opened Machine
  import opened ProcessSpec
  import opened ProcessSteps
  import ProcessTheorems

  // ---------- runs ----------

  ghost predicate SafeRun(f: State, mvs: seq<Move>, bootLow: nat)
    requires Runs(f) && AllowedRun(f, mvs, bootLow)
    decreases |mvs|
  {
    mvs == [] ||
    (Safe(f, mvs[0]) && (NextRuns(f, mvs[0], bootLow); SafeRun(Next(f, mvs[0], bootLow), mvs[1..], bootLow)))
  }

  /** Over a safe run every state is in good order. */
  lemma {:induction false} SafeRunKeepsGood(f: State, mvs: seq<Move>, bootLow: nat)
    requires Good(f, bootLow) && AllowedRun(f, mvs, bootLow) && SafeRun(f, mvs, bootLow)
    ensures Good(After(f, mvs, bootLow), bootLow)
    decreases |mvs|
  {
    hide ConfigInv, Intact, Undone, Next, Safe, Allowed;
    if mvs != [] {
      NextRuns(f, mvs[0], bootLow);
      SafeKeepsGood(f, mvs[0], bootLow);
      SafeRunKeepsGood(Next(f, mvs[0], bootLow), mvs[1..], bootLow);
    }
  }

  /** Slot `i` is on the CPU in no state of the run, its last included. */
  ghost predicate Avoids(f: State, mvs: seq<Move>, i: nat, bootLow: nat)
    requires Runs(f) && AllowedRun(f, mvs, bootLow)
    decreases |mvs|
  {
    && f.config.sys.sched.current != i
    && (mvs == [] || (NextRuns(f, mvs[0], bootLow); Avoids(Next(f, mvs[0], bootLow), mvs[1..], i, bootLow)))
  }

  predicate NoBegin(mvs: seq<Move>) {
    forall i :: 0 <= i < |mvs| ==> !mvs[i].Begin?
  }

  predicate Claiming(f: State) {
    f.making.Some? && !Exposed(f.making.value.phase)
  }

  /** Another creation takes a slot. */
  ghost predicate Rival(f: State, mv: Move) {
    mv.Other? && mv.ev.CreateProcess? && CanCreate(f.config.sys)
  }

  /** No other creation succeeds while the call is claiming its slot. */
  ghost predicate NoRival(f: State, mvs: seq<Move>, bootLow: nat)
    requires Runs(f) && AllowedRun(f, mvs, bootLow)
    decreases |mvs|
  {
    mvs == [] ||
    ((Claiming(f) ==> !Rival(f, mvs[0]))
     && (NextRuns(f, mvs[0], bootLow); NoRival(Next(f, mvs[0], bootLow), mvs[1..], bootLow)))
  }

  /** The call ends before any tick reaches `schedule` with READY already out. */
  ghost predicate Undisturbed(f: State, mvs: seq<Move>, bootLow: nat)
    requires Runs(f) && AllowedRun(f, mvs, bootLow)
    decreases |mvs|
  {
    f.making == None ||
    (mvs != [] && !Breaks(f, mvs[0])
     && (NextRuns(f, mvs[0], bootLow); Undisturbed(Next(f, mvs[0], bootLow), mvs[1..], bootLow)))
  }

  predicate Breaks(f: State, mv: Move) {
    f.making.Some? && Exposed(f.making.value.phase) && mv == Other(TimerTick) && Fires(f.config.sys)
  }

  // ---------- a tick too early ----------

  /** The call was switched out with READY stored and the stack pointer still 0;
      its creator is behind the scheduler's hand, the new slot ahead of it. */
  ghost predicate Broken(f: State) {
    && Runs(f) && f.making.Some?
    && var mk, s := f.making.value, f.config.sys.sched;
       && mk.creator < s.current < mk.slot < s.nextPid && Exposed(mk.phase)
       && s.procs[mk.slot].state == Ready && s.procs[mk.slot].esp == 0
  }

  /** With slot `n` ready ahead, a tick that schedules stops at `n` or before it. */
  lemma TickStops(c: Config, n: nat)
    requires Runnable(c) && Fires(c.sys) && c.sys.sched.current < n < MAX_PROCESSES && c.sys.sched.procs[n].state == Ready
    ensures var d := Apply(c, TimerTick);
      && |d.sys.sched.procs| == MAX_PROCESSES && c.sys.sched.current < d.sys.sched.current <= n
      && d.sys.sched.nextPid == c.sys.sched.nextPid
      && d.sys.cpu.esp == c.sys.sched.procs[d.sys.sched.current].esp + FRAME
      && (d.sys.sched.current != n ==> d.sys.sched.procs[n] == c.sys.sched.procs[n])
  {
    hide PushFrame, Search;
    var s := c.sys.sched;
    var k := SearchFinds(s.procs, s.current, 1, n - s.current);
    assert (s.current + k) % MAX_PROCESSES == s.current + k;
  }

  lemma StaleSlot(c: Config, mk: Making, bootLow: nat)
    requires Good(State(c, Some(mk)), bootLow)
    ensures c.sys.sched.procs[mk.slot].esp == 0 && mk.creator < mk.slot
    ensures Exposed(mk.phase) ==> c.sys.sched.procs[mk.slot].state == Ready && c.sys.sched.current == mk.creator
    ensures !Exposed(mk.phase) ==> c.sys.sched.procs[mk.slot].state == Unused
  {
    hide StackInv, SavedAt, CreateOk, FrameBuilt;
    var u := Undone(c, mk).sys.sched;
    assert u.procs[mk.slot] == mk.before && u.procs[mk.slot].esp == 0 && u.procs[mk.slot].state == Unused;
  }

  lemma BreakingTick(f: State, bootLow: nat)
    requires Good(f, bootLow) && f.making.Some? && Breaks(f, Other(TimerTick))
    ensures var g := Next(f, Other(TimerTick), bootLow);
      && g.config.sys.sched.current > f.making.value.creator
      && (g.config.sys.sched.current != f.making.value.slot ==> Broken(g))
  {
    hide Apply, Runnable, Undone, ConfigInv, Intact;
    var c, mk := f.config, f.making.value;
    assert f == State(c, Some(mk));
    StaleSlot(c, mk, bootLow);
    OpenPid(c, mk, bootLow);
    TickStops(c, mk.slot);
    NextRuns(f, Other(TimerTick), bootLow);
  }

  lemma BrokenNext(f: State, mv: Move, bootLow: nat)
    requires Broken(f) && Allowed(f, mv, bootLow)
    ensures var g := Next(f, mv, bootLow);
      g.making == f.making && (g.config.sys.sched.current != f.making.value.slot ==> Broken(g))
  {
    NextRuns(f, mv, bootLow);
    match mv
    case Other(TimerTick) => BrokenTick(f, bootLow);
    case Other(CreateProcess(entry)) => CreateElsewhere(f.config, entry, f.making.value.slot);
    case Other(Work(_, _)) =>
  }

  lemma BrokenTick(f: State, bootLow: nat)
    requires Broken(f)
    ensures var g := Next(f, Other(TimerTick), bootLow);
      && (g.config.sys.sched.current != f.making.value.slot ==>
            f.making.value.creator < g.config.sys.sched.current < f.making.value.slot
            && |g.config.sys.sched.procs| == MAX_PROCESSES && g.config.sys.sched.nextPid == f.config.sys.sched.nextPid
            && g.config.sys.sched.procs[f.making.value.slot] == f.config.sys.sched.procs[f.making.value.slot])
  {
    hide Search, PushFrame, PopFrame;
    if Fires(f.config.sys) {
      TickStops(f.config, f.making.value.slot);
    }
  }

  lemma CreateElsewhere(c: Config, entry: Word, n: nat)
    requires Runnable(c) && n < MAX_PROCESSES && c.sys.sched.procs[n].state != Unused
    ensures var d := Apply(c, CreateProcess(entry));
      d.sys.sched.current == c.sys.sched.current && |d.sys.sched.procs| == MAX_PROCESSES
      && d.sys.sched.nextPid >= c.sys.sched.nextPid && d.sys.sched.procs[n] == c.sys.sched.procs[n]
  {
    hide PushFrame;
  }

  /** Whoever runs next, the new slot is reached before its creator, and starts
      from address 0. */
  lemma {:induction false} BrokenStart(f: State, mvs: seq<Move>, bootLow: nat)
    requires Broken(f) && AllowedRun(f, mvs, bootLow) && Avoids(f, mvs, f.making.value.slot, bootLow)
    ensures var g := After(f, mvs, bootLow);
      Broken(g) && g.making == f.making
      && (Apply(g.config, TimerTick).sys.sched.current == f.making.value.slot ==> Apply(g.config, TimerTick).sys.cpu.esp == FRAME)
    decreases |mvs|
  {
    hide Allowed, Next, Apply;
    if mvs == [] {
      TickToSlot(f.config, f.making.value.slot);
    } else {
      NextRuns(f, mvs[0], bootLow);
      BrokenNext(f, mvs[0], bootLow);
      AvoidsNow(Next(f, mvs[0], bootLow), mvs[1..], f.making.value.slot, bootLow);
      BrokenStart(Next(f, mvs[0], bootLow), mvs[1..], bootLow);
    }
  }

  lemma AvoidsNow(f: State, mvs: seq<Move>, i: nat, bootLow: nat)
    requires Runs(f) && AllowedRun(f, mvs, bootLow) && Avoids(f, mvs, i, bootLow)
    ensures f.config.sys.sched.current != i
  {
  }

  /** A tick that brings a slot onto the CPU loads what its stack pointer points to. */
  lemma TickToSlot(c: Config, n: nat)
    requires Runnable(c) && n < MAX_PROCESSES && c.sys.sched.current != n
    ensures var d := Apply(c, TimerTick);
      d.sys.sched.current == n ==>
        && Fires(c.sys) && c.sys.sched.procs[n].state == Ready
        && d.sys.cpu.esp == c.sys.sched.procs[n].esp + FRAME
  {
    hide PushFrame, Search;
  }

  // ---------- a call that was completed ----------

  /** Once the call is over its process keeps its start context until it runs. */
  lemma {:induction false} FinishedStart(f: State, mvs: seq<Move>, n: nat, bootLow: nat)
    requires Good(f, bootLow) && f.making == None && n < f.config.sys.sched.nextPid
    requires AllowedRun(f, mvs, bootLow) && NoBegin(mvs) && Avoids(f, mvs, n, bootLow)
    ensures var g := After(f, mvs, bootLow);
      && |f.config.saved| == |g.config.saved| == MAX_PROCESSES && n < MAX_PROCESSES
      && Good(g, bootLow) && g.making == None && g.config.saved[n] == f.config.saved[n]
      && (Apply(g.config, TimerTick).sys.sched.current == n ==> Apply(g.config, TimerTick).sys.cpu == f.config.saved[n])
    decreases |mvs|
  {
    hide Inv, Allowed, Apply;
    PidsFit(f.config, bootLow);
    if mvs == [] {
      StepIsApply(f.config, TimerTick, bootLow);
      if Apply(f.config, TimerTick).sys.sched.current == n {
        ProcessTheorems.ResumeLoadsSaved(f.config, n, bootLow);
      }
    } else {
      var mv := mvs[0];
      NextRuns(f, mv, bootLow);
      IdleNext(f, mv, bootLow);
      IdleMoveKeepsSaved(f, mv, n, bootLow);
      FinishedStart(Next(f, mv, bootLow), mvs[1..], n, bootLow);
    }
  }

  lemma PidsFit(c: Config, bootLow: nat)
    requires ConfigInv(c, bootLow)
    ensures c.sys.sched.nextPid <= MAX_PROCESSES == |c.saved|
  {
  }

  lemma IdleMoveKeepsSaved(f: State, mv: Move, n: nat, bootLow: nat)
    requires Good(f, bootLow) && f.making == None && n < f.config.sys.sched.nextPid && n != f.config.sys.sched.current
    requires Allowed(f, mv, bootLow) && !mv.Begin?
    ensures var g := Next(f, mv, bootLow);
      g.making == None && n < g.config.sys.sched.nextPid <= MAX_PROCESSES == |g.config.saved| == |f.config.saved|
      && g.config.saved[n] == f.config.saved[n]
  {
    hide Inv, Apply, WorkAllowed;
    assert f == State(f.config, None);
    if mv.ev.Work? {
      WorkLegal(f.config, mv.ev.mem, mv.ev.cpu, bootLow);
    }
    StepIsApply(f.config, mv.ev, bootLow);
    StepKeepsInv(f.config, mv.ev, bootLow);
    PidsFit(f.config, bootLow);
    PidsFit(Next(f, mv, bootLow).config, bootLow);
    ProcessTheorems.StepKeepsSaved(f.config, mv.ev, n, bootLow);
  }

  // ---------- exactly when a new process starts as it should ----------

  /** The page the call has taken, or will take if nobody else takes one. */
  ghost function PageFor(f: State): nat
    requires f.making.Some? && (f.making.value.phase == Found ==> f.config.sys.pool != {})
  {
    if f.making.value.phase == Found then Min(f.config.sys.pool) else f.making.value.page
  }

  ghost predicate CanFinish(f: State) {
    f.making.Some? && (f.making.value.phase == Found ==> f.config.sys.pool != {})
  }

  /** A safe move either leaves the call open, with the same slot, page and entry,
      or completes it. */
  lemma SafeMoveKeepsCall(f: State, mv: Move, bootLow: nat)
    requires Good(f, bootLow) && CanFinish(f) && Allowed(f, mv, bootLow) && Safe(f, mv)
    ensures var g, mk := Next(f, mv, bootLow), f.making.value;
      && Good(g, bootLow)
      && (g.making.Some? ==>
            CanFinish(g) && PageFor(g) == PageFor(f) && g.making.value.slot == mk.slot && g.making.value.entry == mk.entry)
      && (g.making == None ==>
            |g.config.saved| == MAX_PROCESSES && mk.slot < g.config.sys.sched.nextPid
            && mk.slot < MAX_PROCESSES && g.config.saved[mk.slot] == StartContext(PageFor(f), mk.entry))
  {
    SafeKeepsGood(f, mv, bootLow);
    hide ConfigInv, Intact, Undone, PushFrame, WorkAllowed;
    var mk := f.making.value;
    assert f == State(f.config, Some(mk));
    match mv
    case Other(Work(_, _)) =>
    case Other(TimerTick) => TickKeepsPool(f.config);
    case Other(CreateProcess(entry)) =>
      StaleSlot(f.config, mk, bootLow);
      FailedCreateNothing(f.config, entry);
    case Advance =>
      if mk.phase == Framed {
        OpenPid(f.config, mk, bootLow);
      }
  }

  lemma OpenPid(c: Config, mk: Making, bootLow: nat)
    requires Good(State(c, Some(mk)), bootLow) && HasPid(mk.phase)
    ensures mk.slot < c.sys.sched.nextPid
  {
    hide ConfigInv;
  }

  /** A call still open when its slot is brought onto the CPU. */
  lemma OpenStart(f: State, bootLow: nat)
    requires Good(f, bootLow) && f.making.Some?
    requires Apply(f.config, TimerTick).sys.sched.current == f.making.value.slot != f.config.sys.sched.current
    ensures Apply(f.config, TimerTick).sys.cpu.esp == FRAME
  {
    hide Apply, ConfigInv, Intact, Undone;
    assert f == State(f.config, Some(f.making.value));
    StaleSlot(f.config, f.making.value, bootLow);
    TickToSlot(f.config, f.making.value.slot);
  }

  /** The new process starts at its entry point, with zero registers and its stack
      pointer at the top of its page, if and only if its stack pointer was stored
      before the first tick that reached `schedule` after READY was. */
  lemma {:induction false} FirstStartIff(f: State, mvs: seq<Move>, bootLow: nat)
    requires Good(f, bootLow) && CanFinish(f)
    requires AllowedRun(f, mvs, bootLow) && NoBegin(mvs) && NoRival(f, mvs, bootLow)
    requires Avoids(f, mvs, f.making.value.slot, bootLow)
    requires Apply(After(f, mvs, bootLow).config, TimerTick).sys.sched.current == f.making.value.slot
    ensures Apply(After(f, mvs, bootLow).config, TimerTick).sys.cpu == StartContext(PageFor(f), f.making.value.entry) <==>
            Undisturbed(f, mvs, bootLow)
    decreases |mvs|
  {
    hide Apply, ConfigInv, Intact, Undone, Allowed, Next, PageFor;
    PageAboveZero(f, bootLow);
    if mvs == [] {
      OpenStart(f, bootLow);
    } else {
      var mv := mvs[0];
      NextRuns(f, mv, bootLow);
      var g := Next(f, mv, bootLow);
      AvoidsNow(g, mvs[1..], f.making.value.slot, bootLow);
      if Breaks(f, mv) {
        BreakingTick(f, bootLow);
        BreakKeepsCall(f, bootLow);
        BrokenStart(g, mvs[1..], bootLow);
      } else {
        SafeMoveKeepsCall(f, mv, bootLow);
        if g.making.Some? {
          FirstStartIff(g, mvs[1..], bootLow);
        } else {
          FinishedStart(g, mvs[1..], f.making.value.slot, bootLow);
        }
      }
    }
  }

  lemma BreakKeepsCall(f: State, bootLow: nat)
    requires Runs(f)
    ensures Next(f, Other(TimerTick), bootLow).making == f.making
  {
  }

  lemma PageAboveZero(f: State, bootLow: nat)
    requires Good(f, bootLow) && CanFinish(f)
    ensures (PageFor(f) + 1) * PAGE_SIZE != FRAME
  {
  }

  /** With READY stored, the scheduler's invariant holds for the new process and
      its promised context if and only if the call was undisturbed. */
  lemma {:induction false} ReadyInvIff(f: State, mvs: seq<Move>, bootLow: nat)
    requires Good(f, bootLow) && CanFinish(f)
    requires AllowedRun(f, mvs, bootLow) && NoBegin(mvs) && NoRival(f, mvs, bootLow)
    requires Avoids(f, mvs, f.making.value.slot, bootLow) && !Claiming(After(f, mvs, bootLow))
    ensures var g, mk := After(f, mvs, bootLow), f.making.value;
      |g.config.saved| == MAX_PROCESSES && mk.slot < MAX_PROCESSES
      && (Inv(g.config.sys, g.config.saved[mk.slot := StartContext(PageFor(f), mk.entry)], bootLow) <==>
          Undisturbed(f, mvs, bootLow))
    decreases |mvs|
  {
    hide ConfigInv, Intact, Undone, Allowed, Next, PageFor, Inv, Runnable;
    var mk := f.making.value;
    PageAboveZero(f, bootLow);
    assert f == State(f.config, Some(mk));
    if mvs == [] {
      SlotsFit(f);
      StaleSlot(f.config, mk, bootLow);
      OpenPid(f.config, mk, bootLow);
      StaleBreaksInv(f.config, mk.slot, StartContext(PageFor(f), mk.entry), bootLow);
    } else {
      var mv := mvs[0];
      NextRuns(f, mv, bootLow);
      var g := Next(f, mv, bootLow);
      AvoidsNow(g, mvs[1..], mk.slot, bootLow);
      if Breaks(f, mv) {
        BreakingTick(f, bootLow);
        BreakKeepsCall(f, bootLow);
        BrokenStart(g, mvs[1..], bootLow);
        SlotsFit(After(f, mvs, bootLow));
        StaleBreaksInv(After(f, mvs, bootLow).config, mk.slot, StartContext(PageFor(f), mk.entry), bootLow);
      } else {
        SafeMoveKeepsCall(f, mv, bootLow);
        if g.making.Some? {
          ReadyInvIff(g, mvs[1..], bootLow);
        } else {
          FinishedStart(g, mvs[1..], mk.slot, bootLow);
          FinishedInv(After(f, mvs, bootLow), mk.slot, bootLow);
        }
      }
    }
  }

  lemma SlotsFit(f: State)
    requires Runs(f)
    ensures |f.config.saved| == |f.config.sys.sched.procs| == MAX_PROCESSES
  {
  }

  lemma FinishedInv(g: State, n: nat, bootLow: nat)
    requires Good(g, bootLow) && g.making == None && n < |g.config.saved|
    ensures Inv(g.config.sys, g.config.saved[n := g.config.saved[n]], bootLow)
  {
    assert g.config.saved[n := g.config.saved[n]] == g.config.saved;
  }

  /** A stack pointer of 0 cannot hold a context from the top of a page. */
  lemma StaleBreaksInv(c: Config, n: nat, start: Context, bootLow: nat)
    requires n < |c.sys.sched.procs| == |c.saved| == MAX_PROCESSES && n < c.sys.sched.nextPid && n != c.sys.sched.current
    requires c.sys.sched.procs[n].esp == 0 && start.esp != FRAME
    ensures !Inv(c.sys, c.saved[n := start], bootLow)
  {
    SavedEsp(c.sys, c.saved[n := start], n, bootLow);
  }

  lemma SavedEsp(y: System, saved: seq<Context>, n: nat, bootLow: nat)
    requires n < |y.sched.procs| == |saved| == MAX_PROCESSES && n < y.sched.nextPid && n != y.sched.current
    ensures Inv(y, saved, bootLow) ==> saved[n].esp == y.sched.procs[n].esp + FRAME
  {
    if Inv(y, saved, bootLow) {
      assert SavedAt(y, saved, bootLow, n);
    }
  }

  // ---------- exactly when the claimed slot stays the call's own ----------

  /** All moves but the last are made while the slot is only claimed. */
  ghost predicate ClaimRun(f: State, mvs: seq<Move>, bootLow: nat)
    requires Runs(f) && AllowedRun(f, mvs, bootLow)
    decreases |mvs|
  {
    mvs != [] ==>
      Claiming(f) && (NextRuns(f, mvs[0], bootLow); ClaimRun(Next(f, mvs[0], bootLow), mvs[1..], bootLow))
  }

  /** Another process has moved into the claimed slot: the pid the call took, or
      will take, is no longer the slot's number. */
  ghost predicate Clashed(f: State) {
    && Runs(f) && f.making.Some?
    && var mk, s := f.making.value, f.config.sys.sched;
       var used := FreeSlot(s.procs, 0);
       && mk.slot < used && mk.slot < s.nextPid && (forall i :: used <= i < MAX_PROCESSES ==> s.procs[i].state == Unused)
       && (if HasPid(mk.phase) then s.nextPid <= used + 1 && s.procs[mk.slot].pid != mk.slot else s.nextPid <= used)
  }

  lemma FreeSlotIs(procs: seq<Proc>, k: nat)
    requires k <= |procs| && (forall i :: 0 <= i < k ==> procs[i].state != Unused) && (k < |procs| ==> procs[k].state == Unused)
    ensures FreeSlot(procs, 0) == k
  {
  }

  /** The rival finds the very slot the call has found. */
  lemma RivalClashes(f: State, entry: Word, bootLow: nat)
    requires Good(f, bootLow) && Claiming(f) && Allowed(f, Other(CreateProcess(entry)), bootLow) && CanCreate(f.config.sys)
    ensures Clashed(Next(f, Other(CreateProcess(entry)), bootLow))
  {
    hide StackInv, SavedInv, PushFrame, CreateOk;
    NextRuns(f, Other(CreateProcess(entry)), bootLow);
    var c, mk := f.config, f.making.value;
    var u, d := Undone(c, mk).sys.sched, Apply(c, CreateProcess(entry)).sys.sched;
    assert forall i :: 0 <= i < mk.slot ==> u.procs[i].state != Unused && c.sys.sched.procs[i] == u.procs[i];
    assert u.procs[mk.slot].state == Unused;
    FreeSlotIs(c.sys.sched.procs, mk.slot);
    assert forall i :: mk.slot < i < MAX_PROCESSES ==> d.procs[i] == u.procs[i] && u.procs[i].state == Unused;
    FreeSlotIs(d.procs, mk.slot + 1);
  }

  lemma ClashedTick(c: Config, mk: Making)
    requires Clashed(State(c, Some(mk)))
    ensures Clashed(State(Apply(c, TimerTick), Some(mk)))
  {
    TickRunnable(c);
    TickKeepsStates(c);
    var used := FreeSlot(c.sys.sched.procs, 0);
    hide PushFrame, PopFrame, Search, Apply, Runnable;
    FreeSlotIs(Apply(c, TimerTick).sys.sched.procs, used);
  }

  lemma TickKeepsStates(c: Config)
    requires Runnable(c)
    ensures var s, t := c.sys.sched, Apply(c, TimerTick).sys.sched;
      && |t.procs| == MAX_PROCESSES && t.nextPid == s.nextPid
      && forall i :: 0 <= i < MAX_PROCESSES ==>
           t.procs[i].pid == s.procs[i].pid && (t.procs[i].state == Unused <==> s.procs[i].state == Unused)
  {
    hide PushFrame, PopFrame;
  }

  lemma ClashedCreate(c: Config, mk: Making, entry: Word)
    requires Clashed(State(c, Some(mk)))
    ensures Clashed(State(Apply(c, CreateProcess(entry)), Some(mk)))
  {
    hide PushFrame;
    CreateRunnable(c, entry);
    if CanCreate(c.sys) {
      var used := FreeSlot(c.sys.sched.procs, 0);
      FreeSlotIs(Apply(c, CreateProcess(entry)).sys.sched.procs, used + 1);
    }
  }

  lemma ClashedAdvance(c: Config, mk: Making)
    requires Clashed(State(c, Some(mk))) && !Exposed(mk.phase)
    ensures var g := Advanced(c, mk);
      && (g.making.Some? ==> g.making.value.slot == mk.slot)
      && (Claiming(g) ==> Clashed(g))
      && (g.making.Some? && !Claiming(g) ==> !SchedInv(g.config.sys.sched))
  {
    AdvanceRuns(c, mk);
    var g, used := Advanced(c, mk), FreeSlot(c.sys.sched.procs, 0);
    hide FreeSlot, PushFrame;
    if g.making.Some? {
      var t := g.config.sys.sched;
      FreeSlotIs(t.procs, used);
      if mk.phase == Numbered {
        assert t.procs[mk.slot].pid != mk.slot && mk.slot < t.nextPid;
      }
    }
  }

  lemma {:induction false} ClashedPublish(f: State, mvs: seq<Move>, bootLow: nat)
    requires Clashed(f) && Claiming(f) && AllowedRun(f, mvs, bootLow) && ClaimRun(f, mvs, bootLow)
    requires var g := After(f, mvs, bootLow); g.making.Some? && !Claiming(g)
    ensures !SchedInv(After(f, mvs, bootLow).config.sys.sched)
    decreases |mvs|
  {
    hide Clashed, SchedInv, Apply, Advanced;
    ClashedRuns(f);
    var mv, c, mk := mvs[0], f.config, f.making.value;
    assert f == State(c, Some(mk));
    NextRuns(f, mv, bootLow);
    var g := Next(f, mv, bootLow);
    match mv {
      case Other(Work(m, cpu)) => ClashedWork(f, m, cpu, bootLow);
      case Other(TimerTick) => ClashedTick(c, mk);
      case Other(CreateProcess(entry)) => ClashedCreate(c, mk, entry);
      case Advance => ClashedAdvance(c, mk);
    }
    if Claiming(g) {
      ClashedPublish(g, mvs[1..], bootLow);
    } else {
      ClaimRunEnds(g, mvs[1..], bootLow);
    }
  }

  lemma ClashedRuns(f: State)
    requires Clashed(f)
    ensures Runs(f)
  {
  }

  lemma ClashedWork(f: State, m: seq<Word>, cpu: Context, bootLow: nat)
    requires Clashed(f) && Allowed(f, Other(Work(m, cpu)), bootLow)
    ensures Clashed(Next(f, Other(Work(m, cpu)), bootLow))
  {
    hide FreeSlot;
    NextRuns(f, Other(Work(m, cpu)), bootLow);
  }

  lemma ClaimRunEnds(f: State, mvs: seq<Move>, bootLow: nat)
    requires Runs(f) && AllowedRun(f, mvs, bootLow) && ClaimRun(f, mvs, bootLow) && !Claiming(f)
    ensures mvs == [] && After(f, mvs, bootLow) == f
  {
  }

  /** With READY just stored, used slots form a prefix with pid equal to slot and
      one process runs. */
  lemma PublishedSched(c: Config, mk: Making, bootLow: nat)
    requires Good(State(c, Some(mk)), bootLow) && Exposed(mk.phase)
    ensures SchedInv(c.sys.sched)
  {
    hide StackInv, SavedInv, CreateOk, FrameBuilt;
    var s, u := c.sys.sched, Undone(c, mk).sys.sched;
    forall i | 0 <= i < MAX_PROCESSES && i != mk.slot
      ensures s.procs[i] == u.procs[i]
    {
    }
  }

  /** When READY is stored, pid still equals slot if and only if no other creation
      succeeded since the slot was found, whatever ticks and switches came between. */
  lemma {:induction false} PublishedIff(f: State, mvs: seq<Move>, bootLow: nat)
    requires Good(f, bootLow) && Claiming(f) && AllowedRun(f, mvs, bootLow) && ClaimRun(f, mvs, bootLow)
    requires var g := After(f, mvs, bootLow); g.making.Some? && !Claiming(g)
    ensures SchedInv(After(f, mvs, bootLow).config.sys.sched) <==> NoRival(f, mvs, bootLow)
    decreases |mvs|
  {
    hide ConfigInv, Intact, Undone, Allowed, Next, SchedInv, Clashed, CanCreate;
    var mv := mvs[0];
    NextRuns(f, mv, bootLow);
    var g := Next(f, mv, bootLow);
    if Rival(f, mv) {
      RivalClashes(f, mv.ev.entry, bootLow);
      RivalKeepsCall(f, mv, bootLow);
      ClashedPublish(g, mvs[1..], bootLow);
    } else {
      SafeKeepsGood(f, mv, bootLow);
      if Claiming(g) {
        PublishedIff(g, mvs[1..], bootLow);
      } else {
        ClaimRunEnds(g, mvs[1..], bootLow);
        assert g == State(g.config, Some(g.making.value));
        PublishedSched(g.config, g.making.value, bootLow);
      }
    }
  }

  lemma RivalKeepsCall(f: State, mv: Move, bootLow: nat)
    requires Runs(f) && Allowed(f, mv, bootLow) && mv.Other?
    ensures Next(f, mv, bootLow).making == f.making
  {
  }

  // ---------- concrete runs ----------

  /** `n` stores of the call in a row. */
  ghost function Stores(f: State, n: nat): (g: State)
    requires Runs(f) && f.making.Some?
    ensures Runs(g)
    decreases n
  {
    if n == 0 || f.making == None then f
    else
      AdvanceRuns(f.config, f.making.value);
      var g := Advanced(f.config, f.making.value);
      if g.making.Some? then Stores(g, n - 1) else g
  }

  /** Without interruption the six stores are one creation. */
  lemma UninterruptedIsCreate(c: Config, entry: Word, bootLow: nat)
    requires ConfigInv(c, bootLow) && Runnable(c) && CanCreate(c.sys)
    ensures Begun(c, entry).making.Some?
    ensures Stores(Begun(c, entry), 6) == State(Apply(c, CreateProcess(entry)), None)
  {
    hide PushFrame, StackInv, SavedInv;
    FreeSlotIsNext(c.sys.sched);
  }

  /** A tick right after READY, the first that schedules since boot: the new
      process runs from whatever lies at address 0, not from its entry point. */
  lemma EarlyTickStartsAtZero(c: Config, entry: Word, bootLow: nat)
    requires ProcessTheorems.Booted(c.sys, bootLow) && |c.saved| == MAX_PROCESSES && c.sys.ticks == 9 && c.sys.pool != {}
    requires Runnable(c)
    ensures Begun(c, entry).making.Some?
    ensures var f := Stores(Begun(c, entry), 3);
      && f.making.Some? && f.making.value.phase == Published && f.making.value.slot == 1
      && var d := Apply(f.config, TimerTick);
         && d.sys.sched.current == 1 && |d.sys.mem| == MEM_SIZE
         && d.sys.cpu == PopFrame(d.sys.mem, 0) && d.sys.cpu.esp == FRAME
  {
    hide PushFrame;
    ProcessTheorems.BootInv(c.sys, c.saved, bootLow);
    FreeSlotIs(c.sys.sched.procs, 1);
    var f := Stores(Begun(c, entry), 3);
    assert f.config.sys.sched.procs[1].state == Ready && f.config.sys.sched.procs[1].esp == 0;
    assert Search(f.config.sys.sched.procs, 0, 1) == 1;
  }

  /** A tick while the slot is only claimed switches to another process, which
      creates one of its own in the same slot. */
  lemma RivalInTheWindow(c: Config, entry: Word, other: Word, bootLow: nat)
    requires ConfigInv(c, bootLow) && Runnable(c) && c.sys.sched.nextPid == 2 && c.sys.sched.current == 0
    requires Fires(c.sys) && c.sys.pool != {} && CreateOk(c.sys, bootLow)
    ensures var f := Begun(c, entry);
      && Claiming(f) && f.making.value.slot == 2
      && var g := Next(f, Other(TimerTick), bootLow);
         && g.making == f.making && Good(g, bootLow) && g.config.sys.sched.current == 1
         && Allowed(g, Other(CreateProcess(other)), bootLow)
         && var h := Next(g, Other(CreateProcess(other)), bootLow);
            Clashed(h) && h.config.sys.sched.procs[2].eip == other && h.making == f.making
  {
    hide PushFrame, SavedInv, StackInv, Clashed;
    FreeSlotIsNext(c.sys.sched);
    BeginGood(c, entry, bootLow);
    var f := Begun(c, entry);
    assert f == State(c, Some(f.making.value));
    ClaimTickGood(c, f.making.value, bootLow);
    assert Search(c.sys.sched.procs, 0, 1) == 1;
    TickKeepsPool(c);
    var g := Next(f, Other(TimerTick), bootLow);
    FreeSlotIs(g.config.sys.sched.procs, 2);
    RivalClashes(g, other, bootLow);
  }
}
