/** The page allocator's clients side by side: the heap, the page tables and the
    process stacks draw on one pool, and no run lets two of them share a page or
    write on each other's. */
module KernelPages {
  import opened Machine
  import Heap = HeapSpec
  import HeapRuns = HeapTheorems
  import Paging = PagingSpec
  import Procs = ProcessSpec
  import ProcRuns = ProcessTheorems
  import HeapBlocks
  import HeapMemory

  /** `tables` are the pages of the page directory and the page tables.  The pool
      of free pages and physical memory are those of `config`. */
  datatype Kernel = Kernel(
    heap: Heap.Heap,
    flat: map<nat, Paging.Mapping>,
    dirs: map<nat, bool>,
    tables: set<nat>,
    config: Procs.Config
  ) {
    function Pool(): set<nat> { config.sys.pool }
    function Mem(): seq<Word> { config.sys.mem }
    function Store(): Heap.Store { Heap.Store(heap, Pool()) }
    function Space(): Paging.Space { Paging.Space(flat, dirs, Pool()) }
  }

  /** Heap and paging calls are made by the running process; `mem` is physical
      memory after the call. */
  datatype Event =
    | HeapCall(heapOp: HeapRuns.Op, mem: seq<Word>)
    | PagingCall(pageOp: Paging.Op, mem: seq<Word>)
    | ProcEvent(ev: Procs.Event)

  /** The stack pages of the slots below `n`, other than the kernel's own. */
  function StacksBelow(s: Procs.Sched, n: nat): set<nat>
    requires n <= |s.procs|
  {
    set i | 1 <= i < n :: PageOf(s.procs[i].kernelStack)
  }

  function StackPages(s: Procs.Sched): set<nat>
    requires s.nextPid <= |s.procs|
  {
    StacksBelow(s, s.nextPid)
  }

  function AllPages(k: Kernel): set<nat>
    requires k.config.sys.sched.nextPid <= |k.config.sys.sched.procs|
  {
    k.Pool() + k.heap.pages + k.tables + StackPages(k.config.sys.sched)
  }

  /** The page is not part of the boot stack. */
  predicate OffBoot(p: nat, bootLow: nat) {
    PageOf(Procs.KERNEL_STACK_TOP) <= p || (p + 1) * PAGE_SIZE <= bootLow
  }

  ghost predicate AllOffBoot(pages: set<nat>, bootLow: nat) {
    forall p :: p in pages ==> OffBoot(p, bootLow)
  }

  /** No page has two owners, and each directory slot in use has one table. */
  ghost predicate Owned(k: Kernel, bootLow: nat) {
    && k.config.sys.sched.nextPid <= |k.config.sys.sched.procs|
    && k.tables !! k.Pool() && k.heap.pages !! k.tables
    && k.heap.pages !! StackPages(k.config.sys.sched) && k.tables !! StackPages(k.config.sys.sched)
    && AllOffBoot(k.heap.pages + k.tables, bootLow)
    && |k.tables| == 1 + |k.dirs|
  }

  ghost predicate Inv(k: Kernel, bootLow: nat) {
    && Heap.Inv(k.Store()) && Paging.Inv(k.Space()) && Procs.ConfigInv(k.config, bootLow)
    && Owned(k, bootLow)
  }

  // ---------- steps ----------

  ghost predicate OnStack(s: Procs.Sched, i: nat, a: nat, bootLow: nat)
    requires i < |s.procs|
  {
    Procs.StackLow(s, i, bootLow) <= a < Procs.StackHigh(s, i)
  }

  ghost predicate OnOwnStack(k: Kernel, a: nat, bootLow: nat)
    requires k.config.sys.sched.current < |k.config.sys.sched.procs|
  {
    OnStack(k.config.sys.sched, k.config.sys.sched.current, a, bootLow)
  }

  /** Memory changed only on `pages` and on the running process's own stack. */
  ghost predicate Confined(k: Kernel, m: seq<Word>, pages: set<nat>, bootLow: nat)
    requires k.config.sys.sched.current < |k.config.sys.sched.procs|
  {
    && |m| == |k.Mem()| == MEM_SIZE
    && (forall a :: 0 <= a < MEM_SIZE && PageOf(a) !in pages && !OnOwnStack(k, a, bootLow) ==> m[a] == k.Mem()[a])
  }

  /** The pages a component owns after taking some from the pool. */
  function Grown(pages: set<nat>, before: set<nat>, after: set<nat>): set<nat> {
    pages + (before - after)
  }

  function WithMem(c: Procs.Config, m: seq<Word>, pool: set<nat>): Procs.Config {
    c.(sys := c.sys.(mem := m, pool := pool))
  }

  ghost function Step(k: Kernel, ev: Event, bootLow: nat): Kernel
    requires Inv(k, bootLow) && (ev.HeapCall? ==> HeapRuns.Legal(k.Store(), ev.heapOp))
  {
    match ev
    case HeapCall(op, m) =>
      var t := HeapRuns.Step(k.Store(), op);
      k.(heap := t.heap, config := WithMem(k.config, m, t.pool))
    case PagingCall(op, m) =>
      var t := Paging.Step(k.Space(), op);
      Kernel(k.heap, t.flat, t.dirs, Grown(k.tables, k.Pool(), t.pool), WithMem(k.config, m, t.pool))
    case ProcEvent(e) => k.(config := Procs.Step(k.config, e, bootLow))
  }

  /** Calls write where their contracts say, frees are of live pointers, and no
      page handed out is part of the boot stack. */
  ghost predicate Legal(k: Kernel, ev: Event, bootLow: nat)
    requires Inv(k, bootLow)
  {
    match ev
    case HeapCall(op, m) =>
      && HeapRuns.Legal(k.Store(), op)
      && Confined(k, m, HeapRuns.Step(k.Store(), op).heap.pages, bootLow)
      && AllOffBoot(k.Pool() - HeapRuns.Step(k.Store(), op).pool, bootLow)
    case PagingCall(op, m) =>
      && Confined(k, m, Grown(k.tables, k.Pool(), Paging.Step(k.Space(), op).pool), bootLow)
      && AllOffBoot(k.Pool() - Paging.Step(k.Space(), op).pool, bootLow)
    case ProcEvent(e) => Procs.Legal(k.config, e, bootLow)
  }

  // ---------- what the calls write ----------

  /** What kmalloc and kfree promise about memory confines them to heap pages. */
  lemma HeapContractConfines(k: Kernel, m: seq<Word>, pages: set<nat>, live: seq<HeapBlocks.Block>, bootLow: nat)
    requires k.config.sys.sched.current < |k.config.sys.sched.procs|
    requires HeapMemory.ChangedWithin(k.Mem(), m, Heap.PageBytes(pages) - HeapBlocks.Cover(live))
    ensures Confined(k, m, pages, bootLow)
  {
    hide HeapBlocks.Cover, OnOwnStack;
  }

  /** What map and unmap promise confines them to table pages. */
  lemma PagingContractConfines(k: Kernel, m: seq<Word>, pages: set<nat>, bootLow: nat)
    requires k.config.sys.sched.current < |k.config.sys.sched.procs| && DifferOnlyOn(k.Mem(), m, pages)
    ensures Confined(k, m, pages, bootLow)
  {
    hide OnOwnStack;
  }

  // ---------- calls keep the stacks ----------

  lemma StackPageOf(s: Procs.Sched, i: nat, a: nat, bootLow: nat)
    requires 1 <= i < s.nextPid <= |s.procs| && s.procs[i].kernelStack % PAGE_SIZE == 0 && OnStack(s, i, a, bootLow)
    ensures PageOf(a) in StackPages(s)
  {
    assert PageOf(a) == PageOf(s.procs[i].kernelStack);
  }

  lemma OffBootStack(a: nat, bootLow: nat)
    requires bootLow <= a < Procs.KERNEL_STACK_TOP
    ensures !OffBoot(PageOf(a), bootLow)
  {
  }

  /** An address on another process's stack is on no component page. */
  lemma OtherStackSafe(k: Kernel, pages: set<nat>, i: nat, a: nat, bootLow: nat)
    requires Procs.ConfigInv(k.config, bootLow) && i < k.config.sys.sched.nextPid && i != k.config.sys.sched.current
    requires pages !! StackPages(k.config.sys.sched) && AllOffBoot(pages, bootLow)
    requires OnStack(k.config.sys.sched, i, a, bootLow)
    ensures PageOf(a) !in pages && !OnOwnStack(k, a, bootLow)
  {
    hide OffBoot;
    var s := k.config.sys.sched;
    var cur := s.current;
    assert if i < cur then Procs.StacksApart(s, i, cur, bootLow) else Procs.StacksApart(s, cur, i, bootLow);
    if i > 0 {
      StackPageOf(s, i, a, bootLow);
    } else {
      OffBootStack(a, bootLow);
    }
  }

  /** So a call confined to its component's pages is, for the other processes,
      ordinary work of the running one. */
  lemma ConfinedIsWork(k: Kernel, m: seq<Word>, pages: set<nat>, bootLow: nat)
    requires Procs.ConfigInv(k.config, bootLow) && Confined(k, m, pages, bootLow)
    requires pages !! StackPages(k.config.sys.sched) && AllOffBoot(pages, bootLow)
    ensures Procs.Legal(k.config, Procs.Work(m, k.config.sys.cpu), bootLow)
  {
    var s := k.config.sys.sched;
    forall i | 0 <= i < s.nextPid && i != s.current
      ensures Procs.SameOn(k.Mem(), m, Procs.StackLow(s, i, bootLow), Procs.StackHigh(s, i))
    {
      forall a | Procs.StackLow(s, i, bootLow) <= a < Procs.StackHigh(s, i) && a < MEM_SIZE
        ensures m[a] == k.Mem()[a]
      {
        OtherStackSafe(k, pages, i, a, bootLow);
      }
    }
  }

  /** Fewer free pages change nothing for the processes. */
  lemma SmallerPool(c: Procs.Config, pool: set<nat>, bootLow: nat)
    requires Procs.ConfigInv(c, bootLow) && pool <= c.sys.pool
    ensures Procs.ConfigInv(c.(sys := c.sys.(pool := pool)), bootLow)
  {
    hide Procs.PopFrame;
    var d := c.(sys := c.sys.(pool := pool));
    forall i, j | 0 <= i < j < d.sys.sched.nextPid
      ensures Procs.StacksApart(d.sys.sched, i, j, bootLow)
    {
      assert Procs.StacksApart(c.sys.sched, i, j, bootLow);
    }
    forall i | 0 <= i < d.sys.sched.nextPid && i != d.sys.sched.current
      ensures Procs.SavedAt(d.sys, d.saved, bootLow, i)
    {
      assert Procs.SavedAt(c.sys, c.saved, bootLow, i);
    }
  }

  lemma CallKeepsConfig(k: Kernel, m: seq<Word>, pages: set<nat>, pool: set<nat>, bootLow: nat)
    requires Procs.ConfigInv(k.config, bootLow) && Confined(k, m, pages, bootLow) && pool <= k.Pool()
    requires pages !! StackPages(k.config.sys.sched) && AllOffBoot(pages, bootLow)
    ensures Procs.ConfigInv(WithMem(k.config, m, pool), bootLow)
  {
    hide Procs.ConfigInv, Confined, AllOffBoot, StackPages, Procs.Legal;
    ConfinedIsWork(k, m, pages, bootLow);
    Procs.StepKeepsInv(k.config, Procs.Work(m, k.config.sys.cpu), bootLow);
    var c := Procs.Step(k.config, Procs.Work(m, k.config.sys.cpu), bootLow);
    SmallerPool(c, pool, bootLow);
    assert WithMem(k.config, m, pool) == c.(sys := c.sys.(pool := pool));
  }

  // ---------- heap calls ----------

  /** A heap call moves pages from the pool to the heap and loses none. */
  lemma HeapStepPages(s: Heap.Store, op: HeapRuns.Op)
    requires Heap.Inv(s) && HeapRuns.Legal(s, op)
    ensures var t := HeapRuns.Step(s, op);
            Heap.Inv(t) && t.pool <= s.pool && t.heap.pages == Grown(s.heap.pages, s.pool, t.pool)
  {
    hide Heap.Grow, Heap.CanGrow, Heap.Shaped, Heap.Tiled;
    HeapRuns.StepKeepsInv(s, op);
    if op.Kmalloc? {
      Heap.GrowAccounts(s, Heap.PagesNeeded(Heap.Rounded(op.size)));
    }
  }

  /** Pages that come out of the pool had no other owner. */
  lemma GrownApart(pages: set<nat>, before: set<nat>, after: set<nat>, others: set<nat>)
    requires pages !! others && before !! others
    ensures Grown(pages, before, after) !! others
  {
  }

  lemma StacksOffPool(k: Kernel, bootLow: nat)
    requires Procs.ConfigInv(k.config, bootLow)
    ensures k.Pool() !! StackPages(k.config.sys.sched)
  {
  }

  lemma HeapCallKeepsInv(k: Kernel, op: HeapRuns.Op, m: seq<Word>, bootLow: nat)
    requires Inv(k, bootLow) && Legal(k, HeapCall(op, m), bootLow)
    ensures Inv(Step(k, HeapCall(op, m), bootLow), bootLow)
    ensures AllPages(Step(k, HeapCall(op, m), bootLow)) == AllPages(k)
  {
    hide Heap.Inv, Procs.ConfigInv, HeapRuns.Step, HeapRuns.Legal, Confined, StackPages, OffBoot;
    HeapStepPages(k.Store(), op);
    StacksOffPool(k, bootLow);
    var t := HeapRuns.Step(k.Store(), op);
    GrownApart(k.heap.pages, k.Pool(), t.pool, StackPages(k.config.sys.sched));
    GrownApart(k.heap.pages, k.Pool(), t.pool, k.tables);
    CallKeepsConfig(k, m, t.heap.pages, t.pool, bootLow);
  }

  // ---------- paging calls ----------

  /** A paging call takes one page exactly when it opens a directory slot. */
  lemma PagingStepPages(s: Paging.Space, op: Paging.Op)
    requires Paging.Inv(s)
    ensures var t := Paging.Step(s, op);
            Paging.Inv(t) && t.pool <= s.pool && |s.pool - t.pool| == |t.dirs| - |s.dirs|
  {
    hide Paging.Inv, Paging.MapPage;
    Paging.StepKeepsInv(s, op);
    match op
    case Map(virt, phys, flags) => MapTakesOnePage(s, virt, phys, flags);
    case Unmap(_) => assert s.pool - s.pool == {};
  }

  lemma MapTakesOnePage(s: Paging.Space, virt: Word, phys: Word, flags: Word)
    ensures var t := Paging.MapPage(s, virt, phys, flags);
            t.pool <= s.pool && |s.pool - t.pool| == |t.dirs| - |s.dirs|
  {
    hide Paging.HasUser, Paging.MappingFor, Paging.PdOf, PageOf;
    var t, d := Paging.MapPage(s, virt, phys, flags), Paging.PdOf(PageOf(virt));
    if !Paging.CanMap(s, virt) || d in s.dirs {
      assert t.dirs.Keys == s.dirs.Keys;
      assert s.pool - t.pool == {};
    } else {
      assert t.dirs.Keys == s.dirs.Keys + {d};
      assert s.pool - t.pool == {Min(s.pool)};
    }
    SameSize(s.dirs);
    SameSize(t.dirs);
  }

  lemma SameSize(m: map<nat, bool>)
    ensures |m| == |m.Keys|
  {
  }

  lemma PagingCallKeepsInv(k: Kernel, op: Paging.Op, m: seq<Word>, bootLow: nat)
    requires Inv(k, bootLow) && Legal(k, PagingCall(op, m), bootLow)
    ensures Inv(Step(k, PagingCall(op, m), bootLow), bootLow)
    ensures AllPages(Step(k, PagingCall(op, m), bootLow)) == AllPages(k)
  {
    hide Procs.ConfigInv, Paging.Step, Paging.Inv, Confined, StackPages, OffBoot, Heap.Inv;
    PagingStepPages(k.Space(), op);
    StacksOffPool(k, bootLow);
    var t := Paging.Step(k.Space(), op);
    HeapSmallerPool(k.Store(), t.pool);
    GrownApart(k.tables, k.Pool(), t.pool, StackPages(k.config.sys.sched));
    GrownApart(k.tables, k.Pool(), t.pool, k.heap.pages);
    CallKeepsConfig(k, m, Grown(k.tables, k.Pool(), t.pool), t.pool, bootLow);
    GrownSize(k.tables, k.Pool(), t.pool);
  }

  lemma PagingAnyPool(s: Paging.Space, pool: set<nat>)
    requires Paging.Inv(s)
    ensures Paging.Inv(s.(pool := pool))
  {
    var t := s.(pool := pool);
    forall v | v in t.flat ensures Paging.Consistent(t, v) {
      assert Paging.Consistent(s, v);
    }
  }

  lemma HeapSmallerPool(s: Heap.Store, pool: set<nat>)
    requires Heap.Inv(s) && pool <= s.pool
    ensures Heap.Inv(s.(pool := pool)) && s.heap.pages !! s.pool
  {
    hide Heap.Shaped, Heap.Tiled;
    var t := s.(pool := pool);
    assert forall p :: p in t.heap.pages + t.pool ==> p in s.heap.pages + s.pool;
  }

  lemma GrownSize(pages: set<nat>, before: set<nat>, after: set<nat>)
    requires pages !! before
    ensures |Grown(pages, before, after)| == |pages| + |before - after|
  {
  }

  // ---------- process events ----------

  /** Creating a process turns one free page into a stack; nothing else changes hands. */
  lemma ProcStepPages(c: Procs.Config, ev: Procs.Event, bootLow: nat)
    requires Procs.ConfigInv(c, bootLow) && Procs.Legal(c, ev, bootLow)
    ensures var d := Procs.Step(c, ev, bootLow);
            && Procs.ConfigInv(d, bootLow) && d.sys.pool <= c.sys.pool && d.sys.sched.nextPid <= |d.sys.sched.procs|
            && StackPages(d.sys.sched) == Grown(StackPages(c.sys.sched), c.sys.pool, d.sys.pool)
  {
    Procs.StepKeepsInv(c, ev, bootLow);
    var d := Procs.Step(c, ev, bootLow);
    match ev
    case Work(_, _) =>
    case TimerTick => TickKeepsStacks(c, bootLow);
    case CreateProcess(entry) => CreateAddsStack(c, entry, bootLow);
  }

  lemma TickKeepsStacks(c: Procs.Config, bootLow: nat)
    requires Procs.ConfigInv(c, bootLow)
    ensures var d := Procs.Step(c, Procs.TimerTick, bootLow);
            d.sys.pool == c.sys.pool && d.sys.sched.nextPid == c.sys.sched.nextPid
            && |d.sys.sched.procs| == |c.sys.sched.procs| && StackPages(d.sys.sched) == StackPages(c.sys.sched)
  {
    hide Procs.PushFrame, Procs.PopFrame, Procs.SavedAt, Procs.StacksApart, PageOf;
    var d := Procs.Step(c, Procs.TimerTick, bootLow);
    assert forall i :: 0 <= i < |c.sys.sched.procs| ==>
        d.sys.sched.procs[i].kernelStack == c.sys.sched.procs[i].kernelStack;
  }

  lemma CreateAddsStack(c: Procs.Config, entry: Word, bootLow: nat)
    requires Procs.ConfigInv(c, bootLow)
    ensures var d := Procs.Step(c, Procs.CreateProcess(entry), bootLow);
            && d.sys.pool <= c.sys.pool && d.sys.sched.nextPid <= |d.sys.sched.procs|
            && StackPages(d.sys.sched) == Grown(StackPages(c.sys.sched), c.sys.pool, d.sys.pool)
  {
    hide Procs.PushFrame, Procs.PopFrame, Procs.SavedAt, Procs.StacksApart;
    var d := Procs.Step(c, Procs.CreateProcess(entry), bootLow);
    Procs.FreeSlotIsNext(c.sys.sched);
    if Procs.CanCreate(c.sys) {
      NewStack(c.sys.sched, d.sys.sched, Min(c.sys.pool));
      assert c.sys.pool - d.sys.pool == {Min(c.sys.pool)};
    }
  }

  lemma NewStack(s: Procs.Sched, t: Procs.Sched, page: nat)
    requires 1 <= s.nextPid < |s.procs| == |t.procs| && t.nextPid == s.nextPid + 1
    requires forall i :: 0 <= i < s.nextPid ==> t.procs[i] == s.procs[i]
    requires t.procs[s.nextPid].kernelStack == page * PAGE_SIZE
    ensures StackPages(t) == StackPages(s) + {page}
  {
    assert PageOf(t.procs[s.nextPid].kernelStack) == page;
    forall p
      ensures p in StackPages(t) <==> p in StackPages(s) + {page}
    {
      if p in StackPages(s) {
        var i :| 1 <= i < s.nextPid && p == PageOf(s.procs[i].kernelStack);
        assert PageOf(t.procs[i].kernelStack) == p;
      }
    }
  }

  lemma ProcEventKeepsInv(k: Kernel, ev: Procs.Event, bootLow: nat)
    requires Inv(k, bootLow) && Legal(k, ProcEvent(ev), bootLow)
    ensures Inv(Step(k, ProcEvent(ev), bootLow), bootLow)
    ensures AllPages(Step(k, ProcEvent(ev), bootLow)) == AllPages(k)
  {
    hide Procs.ConfigInv, Procs.Step, Procs.Legal, StackPages, Heap.Inv, AllOffBoot, Paging.Consistent;
    ProcStepPages(k.config, ev, bootLow);
    var d := Procs.Step(k.config, ev, bootLow);
    HeapSmallerPool(k.Store(), d.sys.pool);
    PagingAnyPool(k.Space(), d.sys.pool);
    GrownApart(StackPages(k.config.sys.sched), k.Pool(), d.sys.pool, k.heap.pages);
    GrownApart(StackPages(k.config.sys.sched), k.Pool(), d.sys.pool, k.tables);
  }

  // ---------- runs ----------

  /** Every step keeps the three components' invariants, keeps their pages apart,
      and neither loses nor makes up a page. */
  lemma StepKeepsInv(k: Kernel, ev: Event, bootLow: nat)
    requires Inv(k, bootLow) && Legal(k, ev, bootLow)
    ensures Inv(Step(k, ev, bootLow), bootLow)
    ensures AllPages(Step(k, ev, bootLow)) == AllPages(k)
  {
    hide Inv, Legal, Step, AllPages;
    match ev
    case HeapCall(op, m) => HeapCallKeepsInv(k, op, m, bootLow);
    case PagingCall(op, m) => PagingCallKeepsInv(k, op, m, bootLow);
    case ProcEvent(e) => ProcEventKeepsInv(k, e, bootLow);
  }

  ghost predicate LegalRun(k: Kernel, evs: seq<Event>, bootLow: nat)
    requires Inv(k, bootLow)
    decreases |evs|
  {
    evs == [] ||
    (Legal(k, evs[0], bootLow) &&
     (StepKeepsInv(k, evs[0], bootLow); LegalRun(Step(k, evs[0], bootLow), evs[1..], bootLow)))
  }

  ghost function Run(k: Kernel, evs: seq<Event>, bootLow: nat): (t: Kernel)
    requires Inv(k, bootLow) && LegalRun(k, evs, bootLow)
    ensures Inv(t, bootLow)
    decreases |evs|
  {
    if evs == [] then k
    else
      StepKeepsInv(k, evs[0], bootLow);
      Run(Step(k, evs[0], bootLow), evs[1..], bootLow)
  }

  lemma {:induction false} RunConservesPages(k: Kernel, evs: seq<Event>, bootLow: nat)
    requires Inv(k, bootLow) && LegalRun(k, evs, bootLow)
    ensures AllPages(Run(k, evs, bootLow)) == AllPages(k)
    decreases |evs|
  {
    hide Inv, Step, AllPages, Confined, HeapRuns.Legal, HeapRuns.Step, Paging.Step, Procs.Legal, AllOffBoot;
    if evs != [] {
      StepKeepsInv(k, evs[0], bootLow);
      RunConservesPages(Step(k, evs[0], bootLow), evs[1..], bootLow);
    }
  }

  /** What the three initialisers leave: the heap first takes its pages from
      `pool`, paging then takes a directory and four tables. */
  ghost predicate Booted(k: Kernel, pool: set<nat>, initial: nat, bootLow: nat) {
    var h := HeapRuns.Boot(pool, initial);
    && k.heap == h.heap && k.tables <= h.pool && |k.tables| == 5 && k.Pool() == h.pool - k.tables
    && k.Space() == Paging.Identity(k.Pool())
    && ProcRuns.Booted(k.config.sys, bootLow) && |k.config.saved| == Procs.MAX_PROCESSES
    && AllOffBoot(k.heap.pages + k.tables, bootLow)
  }

  lemma IdentityInv(pool: set<nat>)
    ensures Paging.Inv(Paging.Identity(pool))
  {
    var s := Paging.Identity(pool);
    forall v | v in s.flat ensures Paging.Consistent(s, v) {
      assert Paging.PdOf(v) in s.dirs;
    }
  }

  lemma IdentitySlots(pool: set<nat>)
    ensures |Paging.Identity(pool).dirs| == 4
  {
    assert Paging.Identity(pool).dirs.Keys == {0, 1, 2, 3};
    SameSize(Paging.Identity(pool).dirs);
  }

  lemma NoStacksYet(s: Procs.Sched)
    requires s.nextPid == 1 <= |s.procs|
    ensures StackPages(s) == {}
  {
  }

  lemma BootInv(k: Kernel, pool: set<nat>, initial: nat, bootLow: nat)
    requires Booted(k, pool, initial, bootLow) && forall p :: p in pool ==> 0 < p < TOTAL_PAGES
    ensures Inv(k, bootLow) && AllPages(k) == pool
  {
    hide HeapRuns.Boot, Heap.Inv, Procs.ConfigInv, Paging.Inv, Paging.Identity, AllOffBoot, StackPages;
    HeapRuns.BootInv(pool, initial);
    HeapSmallerPool(HeapRuns.Boot(pool, initial), k.Pool());
    ProcRuns.BootInv(k.config.sys, k.config.saved, bootLow);
    assert k.config == Procs.Config(k.config.sys, k.config.saved);
    IdentityInv(k.Pool());
    NoStacksYet(k.config.sys.sched);
    IdentitySlots(k.Pool());
  }

  // ---------- one page per process ----------

  lemma {:induction false} StacksDistinct(c: Procs.Config, n: nat, bootLow: nat)
    requires Procs.ConfigInv(c, bootLow) && 1 <= n <= c.sys.sched.nextPid
    ensures |StacksBelow(c.sys.sched, n)| == n - 1
    decreases n
  {
    hide StacksBelow, Procs.ConfigInv;
    StacksNext(c, n, bootLow);
    if n > 1 {
      StacksDistinct(c, n - 1, bootLow);
      StackFresh(c, n, bootLow);
    }
  }

  lemma StacksNext(c: Procs.Config, n: nat, bootLow: nat)
    requires Procs.ConfigInv(c, bootLow) && 1 <= n <= c.sys.sched.nextPid
    ensures n <= |c.sys.sched.procs| && StacksBelow(c.sys.sched, n) ==
            if n == 1 then {} else StacksBelow(c.sys.sched, n - 1) + {PageOf(c.sys.sched.procs[n - 1].kernelStack)}
  {
    hide Procs.StackInv, Procs.SavedInv, PageOf;
  }

  lemma StackFresh(c: Procs.Config, n: nat, bootLow: nat)
    requires Procs.ConfigInv(c, bootLow) && 1 < n <= c.sys.sched.nextPid
    ensures PageOf(c.sys.sched.procs[n - 1].kernelStack) !in StacksBelow(c.sys.sched, n - 1)
  {
    hide Procs.SavedInv;
    var s := c.sys.sched;
    forall i | 1 <= i < n - 1 ensures PageOf(s.procs[i].kernelStack) != PageOf(s.procs[n - 1].kernelStack) {
      assert Procs.StacksApart(s, i, n - 1, bootLow);
    }
  }

  ghost predicate PairwiseApart(k: Kernel)
    requires k.config.sys.sched.nextPid <= |k.config.sys.sched.procs|
  {
    k.Pool() !! k.heap.pages !! k.tables !! StackPages(k.config.sys.sched)
  }

  lemma InvApart(k: Kernel, bootLow: nat)
    requires Inv(k, bootLow)
    ensures k.config.sys.sched.nextPid <= |k.config.sys.sched.procs| && PairwiseApart(k)
    ensures |StackPages(k.config.sys.sched)| == k.config.sys.sched.nextPid - 1
  {
    hide Heap.Inv, Paging.Inv, Procs.StackInv, Procs.SavedInv, OffBoot, StacksBelow;
    StacksOffPool(k, bootLow);
    HeapSmallerPool(k.Store(), k.Pool());
    StacksDistinct(k.config, k.config.sys.sched.nextPid, bootLow);
  }

  /** In every state the kernel reaches, heap pages, table pages, process stacks
      and free pages are pairwise disjoint and together are the initial pool;
      each created process and each directory slot in use has a page of its own.
      The invariant the run starts from is the one `BootInv` gives. */
  lemma ReachableOwnership(k: Kernel, pool: set<nat>, initial: nat, evs: seq<Event>, bootLow: nat)
    requires Booted(k, pool, initial, bootLow) && forall p :: p in pool ==> 0 < p < TOTAL_PAGES
    requires Inv(k, bootLow) && LegalRun(k, evs, bootLow)
    ensures var t := Run(k, evs, bootLow);
            && PairwiseApart(t) && AllPages(t) == pool
            && |StackPages(t.config.sys.sched)| == t.config.sys.sched.nextPid - 1 && |t.tables| == 1 + |t.dirs|
  {
    hide Run, LegalRun, Booted, Procs.ConfigInv, Paging.Inv, AllOffBoot, StackPages, Heap.Inv, AllPages, PairwiseApart;
    BootInv(k, pool, initial, bootLow);
    RunConservesPages(k, evs, bootLow);
    InvApart(Run(k, evs, bootLow), bootLow);
  }

  // ---------- isolation ----------

  /** The running process's stack is on no heap or table page. */
  lemma OwnStackApart(k: Kernel, a: nat, bootLow: nat)
    requires Inv(k, bootLow) && PageOf(a) in k.heap.pages + k.tables
    ensures !OnOwnStack(k, a, bootLow)
  {
    hide Heap.Inv, Paging.Inv, OffBoot;
    var s := k.config.sys.sched;
    if OnOwnStack(k, a, bootLow) {
      if s.current > 0 {
        StackPageOf(s, s.current, a, bootLow);
      } else {
        OffBootStack(a, bootLow);
      }
    }
  }

  /** Heap calls leave the page tables alone, and paging calls the heap. */
  lemma CallsSpareEachOther(k: Kernel, ev: Event, a: nat, bootLow: nat)
    requires Inv(k, bootLow) && Legal(k, ev, bootLow) && !ev.ProcEvent? && a < MEM_SIZE
    requires PageOf(a) in if ev.HeapCall? then k.tables else k.heap.pages
    ensures Step(k, ev, bootLow).Mem()[a] == k.Mem()[a]
  {
    hide Heap.Inv, Paging.Inv, Procs.ConfigInv, OffBoot, HeapRuns.Step, Paging.Step, HeapRuns.Legal, PageOf;
    OwnStackApart(k, a, bootLow);
    match ev
    case HeapCall(op, m) => HeapStepPages(k.Store(), op);
    case PagingCall(op, m) => HeapSmallerPool(k.Store(), k.Pool());
  }

  /** Timer ticks and process creation leave the heap and the tables alone. */
  lemma ProcEventsSpareComponents(k: Kernel, ev: Procs.Event, a: nat, bootLow: nat)
    requires Inv(k, bootLow) && Legal(k, ProcEvent(ev), bootLow) && !ev.Work? && a < MEM_SIZE
    requires PageOf(a) in k.heap.pages + k.tables
    ensures |Procs.Step(k.config, ev, bootLow).sys.mem| == MEM_SIZE
    ensures Procs.Step(k.config, ev, bootLow).sys.mem[a] == k.Mem()[a]
  {
    hide Heap.Inv, Paging.Inv, OffBoot, Procs.PushFrame, Procs.PopFrame, Procs.SavedAt, Procs.StacksApart;
    Procs.StepKeepsInv(k.config, ev, bootLow);
    OwnStackApart(k, a, bootLow);
    match ev
    case TimerTick => TickOnOwnStack(k, a, bootLow);
    case CreateProcess(entry) =>
      HeapSmallerPool(k.Store(), k.Pool());
      CreateOnNewPage(k.config, entry, a, bootLow);
  }

  lemma TickOnOwnStack(k: Kernel, a: nat, bootLow: nat)
    requires Procs.ConfigInv(k.config, bootLow) && a < MEM_SIZE && !OnOwnStack(k, a, bootLow)
    ensures var d := Procs.Step(k.config, Procs.TimerTick, bootLow);
            |d.sys.mem| == MEM_SIZE && d.sys.mem[a] == k.Mem()[a]
  {
    hide Procs.PushFrame, Procs.PopFrame, Procs.SavedAt, Procs.StacksApart, Procs.SchedInv;
    var y := k.config.sys;
    Procs.AllEspLow(y, k.config.saved, bootLow);
    Procs.PushElsewhere(y.mem, y.cpu.esp - Procs.FRAME, y.cpu.regs, y.cpu.esp - Procs.FRAME + 32, y.cpu.eip, a, a + 1);
  }

  lemma CreateOnNewPage(c: Procs.Config, entry: Word, a: nat, bootLow: nat)
    requires Procs.ConfigInv(c, bootLow) && a < MEM_SIZE && PageOf(a) !in c.sys.pool
    ensures var d := Procs.Step(c, Procs.CreateProcess(entry), bootLow);
            |d.sys.mem| == MEM_SIZE && d.sys.mem[a] == c.sys.mem[a]
  {
    hide Procs.PushFrame, Procs.PopFrame, Procs.SavedAt, Procs.StacksApart, Procs.SchedInv, Procs.SavedInv;
    var y := c.sys;
    if Procs.CanCreate(y) {
      var e := Min(y.pool) * PAGE_SIZE + PAGE_SIZE - Procs.FRAME;
      Procs.PushElsewhere(y.mem, e, Procs.ZERO_REGS, 0, entry, a, a + 1);
    }
  }

  /** No step changes what a suspended process will get back. */
  lemma StepKeepsContext(k: Kernel, ev: Event, i: nat, bootLow: nat)
    requires Inv(k, bootLow) && Legal(k, ev, bootLow)
    requires i < k.config.sys.sched.nextPid && i != k.config.sys.sched.current
    ensures Step(k, ev, bootLow).config.saved[i] == k.config.saved[i]
  {
    hide Heap.Inv, Paging.Inv, Owned, HeapRuns.Step, HeapRuns.Legal, Paging.Step, Procs.Step, Procs.Legal;
    if ev.ProcEvent? {
      ProcRuns.StepKeepsSaved(k.config, ev.ev, i, bootLow);
    }
  }
}
