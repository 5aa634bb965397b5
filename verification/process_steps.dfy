/** `process_create` taken apart.  Interrupts stay on during the call, so ticks can
    fall between its stores: the slot is found, a page allocated, the pid taken,
    READY published, the stack entered and its frame built, and only then is the
    saved stack pointer stored.  This module lets one call proceed store by store
    among everything else, and says exactly which ticks it survives. */
module ProcessSteps {
  import opened Machine
  import opened ProcessSpec

  /** How far the call has come. */
  datatype Phase = Found | Allocated | Numbered | Published | Placed | Framed

  /** A call under way.  `before` is the specification's record of what the slot
      held when it was found. */
  datatype Making = Making(creator: nat, entry: Word, slot: nat, page: nat, phase: Phase, before: Proc)

  datatype State = State(config: Config, making: Option<Making>)

  /** Everything else that happens, the call's beginning, or its next store. */
  datatype Move = Other(ev: Event) | Begin(entry: Word) | Advance

  predicate HasPage(ph: Phase) { ph != Found }

  predicate HasPid(ph: Phase) { ph != Found && ph != Allocated }

  /** READY is visible to the scheduler, the stack pointer not yet. */
  predicate Exposed(ph: Phase) { ph == Published || ph == Placed || ph == Framed }

  function FrameOf(page: nat): nat {
    page * PAGE_SIZE + PAGE_SIZE - FRAME
  }

  /** The context a new process should start from. */
  function StartContext(page: nat, entry: Word): Context {
    Context(ZERO_REGS, (page + 1) * PAGE_SIZE, entry)
  }

  ghost predicate Runs(f: State) {
    && Runnable(f.config)
    && (f.making.Some? ==> f.making.value.slot < MAX_PROCESSES && f.making.value.page < TOTAL_PAGES)
  }

  function PutProc(c: Config, i: nat, p: Proc): Config
    requires i < |c.sys.sched.procs|
  {
    c.(sys := c.sys.(sched := c.sys.sched.(procs := c.sys.sched.procs[i := p])))
  }

  /** The call's next store. */
  ghost function Advanced(c: Config, mk: Making): State
    requires Runs(State(c, Some(mk)))
  {
    var y, p := c.sys, c.sys.sched.procs[mk.slot];
    match mk.phase
    case Found =>
      if y.pool == {} then State(c, None)
      else State(c.(sys := y.(pool := y.pool - {Min(y.pool)})), Some(mk.(page := Min(y.pool), phase := Allocated)))
    case Allocated =>
      var d := PutProc(c, mk.slot, p.(pid := Wrap(y.sched.nextPid)));
      State(d.(sys := d.sys.(sched := d.sys.sched.(nextPid := y.sched.nextPid + 1))), Some(mk.(phase := Numbered)))
    case Numbered => State(PutProc(c, mk.slot, p.(state := Ready)), Some(mk.(phase := Published)))
    case Published =>
      State(PutProc(c, mk.slot, p.(kernelStack := mk.page * PAGE_SIZE, eip := mk.entry)), Some(mk.(phase := Placed)))
    case Placed =>
      State(c.(sys := y.(mem := PushFrame(y.mem, FrameOf(mk.page), ZERO_REGS, 0, mk.entry))), Some(mk.(phase := Framed)))
    case Framed =>
      State(PutProc(c, mk.slot, p.(esp := FrameOf(mk.page))).(saved := c.saved[mk.slot := StartContext(mk.page, mk.entry)]), None)
  }

  ghost function Begun(c: Config, entry: Word): State
    requires Runnable(c)
  {
    var s := c.sys.sched;
    var slot := FreeSlot(s.procs, 0);
    State(c, if slot < MAX_PROCESSES then Some(Making(s.current, entry, slot, 0, Found, s.procs[slot])) else None)
  }

  /** A finished process that is not on the CPU. */
  predicate Suspended(f: State, i: nat)
    requires i < |f.config.sys.sched.procs|
  {
    && i != f.config.sys.sched.current && !f.config.sys.sched.procs[i].state.Unused?
    && (f.making.Some? ==> i != f.making.value.slot)
  }

  /** The running process leaves suspended stacks and the new page alone and stays
      on its own stack. */
  ghost predicate WorkAllowed(f: State, m: seq<Word>, cpu: Context, bootLow: nat)
    requires Runs(f)
  {
    var s := f.config.sys.sched;
    && |m| == MEM_SIZE && RoomForFrame(cpu)
    && Within(StackLow(s, s.current, bootLow), StackHigh(s, s.current), cpu.esp)
    && (forall i :: 0 <= i < MAX_PROCESSES && Suspended(f, i) ==>
          SameOn(f.config.sys.mem, m, StackLow(s, i, bootLow), StackHigh(s, i)))
    && (f.making.Some? && HasPage(f.making.value.phase) ==>
          SameOn(f.config.sys.mem, m, f.making.value.page * PAGE_SIZE, (f.making.value.page + 1) * PAGE_SIZE))
  }

  /** The creator makes the call's stores and is in no other call; a stack page is
      not part of the boot stack. */
  ghost predicate Allowed(f: State, mv: Move, bootLow: nat)
    requires Runs(f)
  {
    match mv
    case Other(Work(m, cpu)) => WorkAllowed(f, m, cpu, bootLow)
    case Other(TimerTick) => true
    case Other(CreateProcess(_)) =>
      CreateOk(f.config.sys, bootLow) && (f.making.Some? ==> f.config.sys.sched.current != f.making.value.creator)
    case Begin(_) => f.making == None
    case Advance =>
      && f.making.Some? && f.config.sys.sched.current == f.making.value.creator
      && (f.making.value.phase == Found ==> CreateOk(f.config.sys, bootLow))
  }

  ghost function Next(f: State, mv: Move, bootLow: nat): State
    requires Runs(f) && Allowed(f, mv, bootLow)
  {
    match mv
    case Other(ev) => f.(config := Apply(f.config, ev))
    case Begin(entry) => Begun(f.config, entry)
    case Advance => Advanced(f.config, f.making.value)
  }

  // ---------- steps can always be taken ----------

  lemma TickRunnable(c: Config)
    requires Runnable(c)
    ensures Runnable(Apply(c, TimerTick))
  {
    hide PushFrame, Search;
  }

  lemma CreateRunnable(c: Config, entry: Word)
    requires Runnable(c)
    ensures Runnable(Apply(c, CreateProcess(entry)))
  {
    hide PushFrame;
  }

  lemma NextRuns(f: State, mv: Move, bootLow: nat)
    requires Runs(f) && Allowed(f, mv, bootLow)
    ensures Runs(Next(f, mv, bootLow))
  {
    match mv
    case Other(Work(_, _)) =>
    case Other(TimerTick) => TickRunnable(f.config);
    case Other(CreateProcess(entry)) => CreateRunnable(f.config, entry);
    case Begin(_) =>
    case Advance => AdvanceRuns(f.config, f.making.value);
  }

  lemma AdvanceRuns(c: Config, mk: Making)
    requires Runs(State(c, Some(mk)))
    ensures Runs(Advanced(c, mk))
  {
    hide PushFrame;
  }

  ghost predicate AllowedRun(f: State, mvs: seq<Move>, bootLow: nat)
    requires Runs(f)
    decreases |mvs|
  {
    mvs == [] ||
    (Allowed(f, mvs[0], bootLow) &&
     (NextRuns(f, mvs[0], bootLow); AllowedRun(Next(f, mvs[0], bootLow), mvs[1..], bootLow)))
  }

  ghost function After(f: State, mvs: seq<Move>, bootLow: nat): (g: State)
    requires Runs(f) && AllowedRun(f, mvs, bootLow)
    ensures Runs(g)
    decreases |mvs|
  {
    if mvs == [] then f
    else
      NextRuns(f, mvs[0], bootLow);
      After(Next(f, mvs[0], bootLow), mvs[1..], bootLow)
  }

  // ---------- a call in good order ----------

  /** The configuration with the call's stores taken back. */
  function Undone(c: Config, mk: Making): Config
    requires mk.slot < |c.sys.sched.procs|
  {
    var s := c.sys.sched;
    Config(c.sys.(
      sched := Sched(s.procs[mk.slot := mk.before], s.current, if HasPid(mk.phase) && s.nextPid > 0 then s.nextPid - 1 else s.nextPid),
      pool := if HasPage(mk.phase) then c.sys.pool + {mk.page} else c.sys.pool), c.saved)
  }

  /** What the slot should hold by now. */
  function SlotAt(mk: Making): Proc
    requires mk.slot < MAX_PROCESSES && mk.page < TOTAL_PAGES
  {
    var p := if HasPid(mk.phase) then mk.before.(pid := mk.slot) else mk.before;
    var q := if Exposed(mk.phase) then p.(state := Ready) else p;
    if mk.phase == Placed || mk.phase == Framed then q.(kernelStack := mk.page * PAGE_SIZE, eip := mk.entry) else q
  }

  /** The new stack's frame is in memory. */
  ghost predicate FrameBuilt(m: seq<Word>, mk: Making)
    requires |m| == MEM_SIZE && mk.page < TOTAL_PAGES
  {
    PushFrame(m, FrameOf(mk.page), ZERO_REGS, 0, mk.entry) == m
  }

  /** Nothing but the call's own stores has happened to its slot and page. */
  ghost predicate Intact(c: Config, mk: Making, bootLow: nat)
    requires Runs(State(c, Some(mk)))
  {
    var u := Undone(c, mk);
    && mk.creator < mk.slot == u.sys.sched.nextPid
    && c.sys.sched.procs[mk.slot] == SlotAt(mk)
    && (HasPage(mk.phase) ==> mk.page !in c.sys.pool && mk.page == Min(u.sys.pool) && CreateOk(u.sys, bootLow))
    && (Exposed(mk.phase) ==> c.sys.sched.current == mk.creator)
    && (mk.phase == Framed ==> FrameBuilt(c.sys.mem, mk))
  }

  ghost predicate Good(f: State, bootLow: nat) {
    && Runs(f)
    && match f.making
       case None => ConfigInv(f.config, bootLow)
       case Some(mk) => ConfigInv(Undone(f.config, mk), bootLow) && Intact(f.config, mk, bootLow)
  }

  /** Moves a call survives: while it is claiming its slot no other creation
      succeeds, and once READY is out no tick reaches `schedule`. */
  ghost predicate Safe(f: State, mv: Move) {
    f.making.Some? ==>
      if Exposed(f.making.value.phase) then mv == Other(TimerTick) ==> !Fires(f.config.sys)
      else mv.Other? && mv.ev.CreateProcess? ==> !CanCreate(f.config.sys)
  }

  // ---------- safe moves keep the call in good order ----------

  lemma ConfigRunnable(c: Config, bootLow: nat)
    requires ConfigInv(c, bootLow)
    ensures Runnable(c)
  {
    AllEspLow(c.sys, c.saved, bootLow);
  }

  lemma WorkLegal(c: Config, m: seq<Word>, cpu: Context, bootLow: nat)
    requires Good(State(c, None), bootLow) && WorkAllowed(State(c, None), m, cpu, bootLow)
    ensures Legal(c, Work(m, cpu), bootLow)
  {
    hide StacksApart, SavedAt;
    assert forall i :: 0 <= i < c.sys.sched.nextPid && i != c.sys.sched.current ==> Suspended(State(c, None), i);
  }

  lemma IdleNext(f: State, mv: Move, bootLow: nat)
    requires Good(f, bootLow) && f.making == None && Allowed(f, mv, bootLow)
    ensures Good(Next(f, mv, bootLow), bootLow)
  {
    hide ConfigInv, Apply, WorkAllowed;
    NextRuns(f, mv, bootLow);
    match mv
    case Other(ev) =>
      if ev.Work? {
        WorkLegal(f.config, ev.mem, ev.cpu, bootLow);
      }
      StepKeepsInv(f.config, ev, bootLow);
      StepIsApply(f.config, ev, bootLow);
    case Begin(entry) => BeginGood(f.config, entry, bootLow);
  }

  lemma StepIsApply(c: Config, ev: Event, bootLow: nat)
    requires ConfigInv(c, bootLow) && Runnable(c)
    ensures ProcessSpec.Step(c, ev, bootLow) == Apply(c, ev)
  {
    hide Apply;
  }

  lemma BeginGood(c: Config, entry: Word, bootLow: nat)
    requires ConfigInv(c, bootLow) && Runnable(c)
    ensures Good(Begun(c, entry), bootLow)
  {
    hide StackInv, SavedInv;
    FreeSlotIsNext(c.sys.sched);
    var f := Begun(c, entry);
    if f.making.Some? {
      assert Undone(c, f.making.value) == c;
    }
  }

  lemma WorkGood(c: Config, mk: Making, m: seq<Word>, cpu: Context, bootLow: nat)
    requires Good(State(c, Some(mk)), bootLow) && WorkAllowed(State(c, Some(mk)), m, cpu, bootLow)
    ensures Good(State(Apply(c, Work(m, cpu)), Some(mk)), bootLow)
  {
    hide StacksApart, SavedAt, PushFrame;
    var u, d := Undone(c, mk), Apply(c, Work(m, cpu));
    var s := u.sys.sched;
    assert Undone(d, mk) == Apply(u, Work(m, cpu));
    forall i | 0 <= i < s.nextPid && i != s.current
      ensures SameOn(u.sys.mem, m, StackLow(s, i, bootLow), StackHigh(s, i))
    {
      assert s.procs[i].state == Ready && s.procs[i] == c.sys.sched.procs[i];
      assert Suspended(State(c, Some(mk)), i);
    }
    StepKeepsInv(u, Work(m, cpu), bootLow);
    if mk.phase == Framed {
      FrameKept(c.sys.mem, m, mk);
    }
  }

  lemma FrameKept(m: seq<Word>, n: seq<Word>, mk: Making)
    requires |m| == |n| == MEM_SIZE && mk.page < TOTAL_PAGES && FrameBuilt(m, mk)
    requires SameOn(m, n, mk.page * PAGE_SIZE, (mk.page + 1) * PAGE_SIZE)
    ensures FrameBuilt(n, mk)
  {
    var e := FrameOf(mk.page);
    FrameWords(m, mk);
    assert forall a :: e <= a < e + FRAME ==> n[a] == m[a];
    assert PushFrame(n, e, ZERO_REGS, 0, mk.entry) == n;
  }

  lemma FrameWords(m: seq<Word>, mk: Making)
    requires |m| == MEM_SIZE && mk.page < TOTAL_PAGES && FrameBuilt(m, mk)
    ensures var e := FrameOf(mk.page);
      && m[e] == m[e + 4] == m[e + 8] == m[e + 12] == m[e + 16] == m[e + 20] == m[e + 24] == m[e + 28] == 0
      && m[e + 32] == mk.entry
  {
    var e := FrameOf(mk.page);
    var n := PushFrame(m, e, ZERO_REGS, 0, mk.entry);
    assert n[e + 32] == mk.entry && n[e + 28] == 0 && n[e + 24] == 0 && n[e + 20] == 0 && n[e + 16] == 0;
    assert n[e + 12] == 0 && n[e + 8] == 0 && n[e + 4] == 0 && n[e] == 0;
  }

  lemma QuietTickGood(c: Config, mk: Making, bootLow: nat)
    requires Good(State(c, Some(mk)), bootLow) && !Fires(c.sys)
    ensures Good(State(Apply(c, TimerTick), Some(mk)), bootLow)
  {
    hide SchedInv, StackInv, SavedInv, PushFrame;
    var u, d := Undone(c, mk), Apply(c, TimerTick);
    assert Undone(d, mk) == u.(sys := u.sys.(ticks := d.sys.ticks));
    RetickKeepsInv(u.sys, d.sys.ticks, u.saved, bootLow);
    TickRunnable(c);
  }

  /** The search looks at states only. */
  lemma {:induction false} SearchSame(p: seq<Proc>, q: seq<Proc>, current: nat, i: nat)
    requires |p| == |q| == MAX_PROCESSES && forall j :: 0 <= j < MAX_PROCESSES ==> p[j].state == q[j].state
    ensures Search(p, current, i) == Search(q, current, i)
    decreases MAX_PROCESSES + 1 - i
  {
    if i <= MAX_PROCESSES {
      SearchSame(p, q, current, i + 1);
    }
  }

  /** While the slot is only claimed, a tick treats the call as if it had not begun. */
  lemma ClaimTickUndone(c: Config, mk: Making, bootLow: nat)
    requires Good(State(c, Some(mk)), bootLow) && !Exposed(mk.phase)
    ensures Runnable(Undone(c, mk)) && Undone(Apply(c, TimerTick), mk) == Apply(Undone(c, mk), TimerTick)
    ensures Apply(c, TimerTick).sys.sched.procs[mk.slot] == c.sys.sched.procs[mk.slot]
  {
    hide PushFrame, PopFrame, Search, StackInv, SavedInv;
    var u := Undone(c, mk);
    ConfigRunnable(u, bootLow);
    SearchSame(c.sys.sched.procs, u.sys.sched.procs, c.sys.sched.current, 1);
    assert u.sys.sched.procs[mk.slot].state == Unused;
    var next := Search(c.sys.sched.procs, c.sys.sched.current, 1);
    if next >= 0 && next != c.sys.sched.current {
      SwitchedApart(c.sys.sched, u.sys.sched, next, c.sys.cpu.esp - FRAME, mk.slot);
    }
  }

  lemma SwitchedApart(s: Sched, u: Sched, next: nat, e: Word, slot: nat)
    requires |s.procs| == MAX_PROCESSES && s.current < MAX_PROCESSES && next < MAX_PROCESSES && slot < MAX_PROCESSES
    requires slot != next && slot != s.current && next != s.current
    requires |u.procs| == MAX_PROCESSES && u.current == s.current && u.procs == s.procs[slot := u.procs[slot]]
    ensures Switched(u, next, e).procs == Switched(s, next, e).procs[slot := u.procs[slot]]
    ensures Switched(s, next, e).procs[slot] == s.procs[slot]
  {
  }

  lemma ClaimTickGood(c: Config, mk: Making, bootLow: nat)
    requires Good(State(c, Some(mk)), bootLow) && !Exposed(mk.phase)
    ensures Good(State(Apply(c, TimerTick), Some(mk)), bootLow)
  {
    hide ConfigInv, Apply;
    TickRunnable(c);
    ClaimTickUndone(c, mk, bootLow);
    StepKeepsInv(Undone(c, mk), TimerTick, bootLow);
    StepIsApply(Undone(c, mk), TimerTick, bootLow);
    TickKeepsPool(c);
    TickKeepsPool(Undone(c, mk));
  }

  lemma TickKeepsPool(c: Config)
    requires Runnable(c)
    ensures var d := Apply(c, TimerTick); d.sys.pool == c.sys.pool && d.sys.sched.nextPid == c.sys.sched.nextPid
  {
    hide PushFrame, PopFrame, Search;
  }

  /** The stores before the frame is built. */
  lemma EarlyAdvanceGood(c: Config, mk: Making, bootLow: nat)
    requires Good(State(c, Some(mk)), bootLow) && Allowed(State(c, Some(mk)), Advance, bootLow)
    requires mk.phase != Placed && mk.phase != Framed
    ensures Good(Advanced(c, mk), bootLow)
  {
    hide StackInv, SavedInv, Min;
    AdvanceRuns(c, mk);
    var g, u := Advanced(c, mk), Undone(c, mk);
    if g.making == None {
      assert c == u;
    } else {
      assert c.sys.pool != {} ==> c.sys.pool - {Min(c.sys.pool)} + {Min(c.sys.pool)} == c.sys.pool;
      assert Undone(g.config, g.making.value) == u;
    }
  }

  /** A page still in the pool when the call began is on no stack. */
  lemma NewPageApart(u: Config, page: nat, i: nat, bootLow: nat)
    requires ConfigInv(u, bootLow) && CreateOk(u.sys, bootLow) && u.sys.pool != {} && page == Min(u.sys.pool)
    requires i < u.sys.sched.nextPid
    ensures var s := u.sys.sched;
      StackHigh(s, i) <= page * PAGE_SIZE || (page + 1) * PAGE_SIZE <= StackLow(s, i, bootLow)
  {
    hide SavedInv, StacksApart;
    if i > 0 {
      PagesApart(PageOf(u.sys.sched.procs[i].kernelStack), page);
    }
  }

  lemma FrameAdvanceGood(c: Config, mk: Making, bootLow: nat)
    requires Good(State(c, Some(mk)), bootLow) && mk.phase == Placed
    ensures Good(Advanced(c, mk), bootLow)
  {
    hide PushFrame, SavedAt, StacksApart;
    AdvanceRuns(c, mk);
    var g, u := Advanced(c, mk), Undone(c, mk);
    var m, s := g.config.sys.mem, u.sys.sched;
    forall i | 0 <= i < s.nextPid && i != s.current
      ensures SameOn(u.sys.mem, m, StackLow(s, i, bootLow), StackHigh(s, i))
    {
      NewPageApart(u, mk.page, i, bootLow);
      PushElsewhere(c.sys.mem, FrameOf(mk.page), ZERO_REGS, 0, mk.entry, StackLow(s, i, bootLow), StackHigh(s, i));
    }
    StepKeepsInv(u, Work(m, u.sys.cpu), bootLow);
    assert Undone(g.config, g.making.value) == Apply(u, Work(m, u.sys.cpu));
    PushTwice(c.sys.mem, FrameOf(mk.page), mk.entry);
  }

  lemma PushTwice(m: seq<Word>, e: nat, entry: Word)
    requires |m| == MEM_SIZE && e + FRAME <= MEM_SIZE
    ensures var n := PushFrame(m, e, ZERO_REGS, 0, entry); PushFrame(n, e, ZERO_REGS, 0, entry) == n
  {
  }

  /** With its last store the call has done what an uninterrupted one does. */
  lemma CompletedIsCreate(c: Config, mk: Making, bootLow: nat)
    requires Good(State(c, Some(mk)), bootLow) && mk.phase == Framed
    ensures Runnable(Undone(c, mk)) && CanCreate(Undone(c, mk).sys)
    ensures Advanced(c, mk) == State(Apply(Undone(c, mk), CreateProcess(mk.entry)), None)
  {
    hide PushFrame, StackInv, SavedInv;
    var u := Undone(c, mk);
    ConfigRunnable(u, bootLow);
    FreeSlotIsNext(u.sys.sched);
    assert c.sys.pool == u.sys.pool - {mk.page};
    assert Advanced(c, mk).config.sys.sched.procs == Create(u.sys, mk.entry).sched.procs;
  }

  lemma LastAdvanceGood(c: Config, mk: Making, bootLow: nat)
    requires Good(State(c, Some(mk)), bootLow) && mk.phase == Framed
    ensures Good(Advanced(c, mk), bootLow)
  {
    hide ConfigInv, Apply, Advanced;
    AdvanceRuns(c, mk);
    CompletedIsCreate(c, mk, bootLow);
    StepKeepsInv(Undone(c, mk), CreateProcess(mk.entry), bootLow);
    StepIsApply(Undone(c, mk), CreateProcess(mk.entry), bootLow);
  }

  lemma FailedCreateNothing(c: Config, entry: Word)
    requires Runnable(c) && !CanCreate(c.sys)
    ensures Apply(c, CreateProcess(entry)) == c
  {
  }

  lemma OpenNext(f: State, mv: Move, bootLow: nat)
    requires Good(f, bootLow) && f.making.Some? && Allowed(f, mv, bootLow) && Safe(f, mv)
    ensures Good(Next(f, mv, bootLow), bootLow)
  {
    hide ConfigInv, Apply, Advanced, Runnable, Undone, WorkAllowed;
    var c, mk := f.config, f.making.value;
    assert f == State(c, Some(mk));
    match mv
    case Other(Work(m, cpu)) => WorkGood(c, mk, m, cpu, bootLow);
    case Other(TimerTick) =>
      if Exposed(mk.phase) {
        QuietTickGood(c, mk, bootLow);
      } else {
        ClaimTickGood(c, mk, bootLow);
      }
    case Other(CreateProcess(entry)) => FailedCreateNothing(c, entry);
    case Advance =>
      if mk.phase == Placed {
        FrameAdvanceGood(c, mk, bootLow);
      } else if mk.phase == Framed {
        LastAdvanceGood(c, mk, bootLow);
      } else {
        EarlyAdvanceGood(c, mk, bootLow);
      }
  }

  /** A safe move keeps the call in good order, and with no call under way the
      scheduler's whole invariant. */
  lemma SafeKeepsGood(f: State, mv: Move, bootLow: nat)
    requires Good(f, bootLow) && Allowed(f, mv, bootLow) && Safe(f, mv)
    ensures Good(Next(f, mv, bootLow), bootLow)
  {
    hide Good, Next, Safe, Allowed;
    if f.making == None {
      IdleNext(f, mv, bootLow);
    } else {
      OpenNext(f, mv, bootLow);
    }
  }
}
