/** What holds of the kernel heap for every request, every pointer and every run. */
module HeapTheorems {
  import opened Machine
  import opened HeapBlocks
  import opened HeapSpec

  // ---------- one request ----------

  lemma MallocZero(s: Store)
    ensures Malloc(s, 0) == Outcome(s, 0)
  {
  }

  lemma MallocKeepsInv(s: Store, size: Word)
    requires Inv(s)
    ensures Inv(Malloc(s, size).store)
  {
    if size != 0 {
      var n := Rounded(size);
      var k := FirstFit(s.heap.free, n);
      if k < |s.heap.free| {
        AllocateKeepsInv(s, k, n);
      } else {
        var g := Grow(s, PagesNeeded(n));
        GrowKeepsInv(s, PagesNeeded(n));
        var k' := FirstFit(g.heap.free, n);
        if k' < |g.heap.free| {
          AllocateKeepsInv(g, k', n);
        }
      }
    }
  }

  /** `live'` is `live` with one more block: 16-aligned payload at `ptr`, at least
      `n` bytes, apart from every earlier block. */
  ghost predicate HandsOut(live: seq<Block>, live': seq<Block>, ptr: nat, n: nat) {
    && ptr % 16 == 0
    && |live'| == |live| + 1 && live'[..|live|] == live
    && var b := live'[|live|];
       b.addr + HEADER_SIZE == ptr && n <= b.size && ApartFromAll(b, live)
  }

  lemma TryTakeResult(s: Store, n: nat)
    requires Shaped(s.heap) && 16 <= n && n % 16 == 0
    ensures var o := TryTake(s, n);
      if o.ptr == 0 then o.store == s else HandsOut(s.heap.live, o.store.heap.live, o.ptr, n)
  {
    var h, k := s.heap, FirstFit(s.heap.free, n);
    if k < |h.free| {
      var b := Taken(h.free[k], n);
      assert WellFormed(h.free[k]);
      forall j | 0 <= j < |h.live|
        ensures Apart(b, h.live[j])
      {
        TakeApart(h.free, k, n, h.live[j]);
      }
    }
  }

  /** A non-null result is a fresh, 16-aligned block of at least the rounded
      size; a null result hands out nothing.  Earlier blocks stay as they are. */
  lemma MallocResult(s: Store, size: Word)
    requires Inv(s)
    ensures var o := Malloc(s, size);
      if o.ptr == 0 then o.store.heap.live == s.heap.live
      else HandsOut(s.heap.live, o.store.heap.live, o.ptr, Rounded(size))
  {
    var n := Rounded(size);
    if size != 0 {
      if FirstFit(s.heap.free, n) < |s.heap.free| {
        TryTakeResult(s, n);
      } else {
        var g := Grow(s, PagesNeeded(n));
        assert g.heap.live == s.heap.live by { GrowAccounts(s, PagesNeeded(n)); }
        if CanGrow(s, PagesNeeded(n)) {
          assert Shaped(g.heap) by { GrowKeepsInv(s, PagesNeeded(n)); }
          TryTakeResult(g, n);
        }
      }
    }
  }

  /** A block handed out holds the bytes asked for if and only if rounding did not
      wrap. */
  lemma MallocHoldsIff(s: Store, size: Word)
    requires Inv(s) && Malloc(s, size).ptr != 0
    ensures var o, i := Malloc(s, size), |s.heap.live|;
      && i < |o.store.heap.live| && o.store.heap.live[i].addr + HEADER_SIZE == o.ptr
      && (size <= o.store.heap.live[i].size <==> size <= 0xFFFF_FFF0)
  {
    hide Malloc, Rounded, Tiled, ApartFromAll;
    MallocResult(s, size);
    MallocKeepsInv(s, size);
    RoundedSufficesIff(size);
    assert WellFormed(Malloc(s, size).store.heap.live[|s.heap.live|]);
  }

  /** Rounding gives the caller what it asked for exactly up to 0xFFFFFFF0. */
  lemma RoundedSufficesIff(size: Word)
    ensures size <= Rounded(size) <==> size <= 0xFFFF_FFF0
    ensures size <= 0xFFFF_FFF0 ==> Rounded(size) < size + 16 || Rounded(size) == MIN_ALLOC
  {
    if size <= 0xFFFF_FFF0 {
      assert Wrap(size + 15) == size + 15;
    } else {
      assert Wrap(size + 15) == size + 15 - 0x1_0000_0000;
    }
  }

  /** The largest requests come back with 16 bytes. */
  lemma RoundedWraps()
    ensures Rounded(0xFFFF_FFF1) == 16
  {
    assert Wrap(0xFFFF_FFF1 + 15) == 0;
  }

  /** First fit: when some free block has room, the block taken is the
      lowest-addressed one that does. */
  lemma MallocTakesLowestFit(s: Store, size: Word, i: nat)
    requires Inv(s) && size != 0
    requires i < |s.heap.free| && Rounded(size) <= s.heap.free[i].size
    ensures var o := Malloc(s, size);
      && 0 < o.ptr <= s.heap.free[i].addr + HEADER_SIZE
      && o.store.pool == s.pool
      && exists k :: 0 <= k < |s.heap.free| && s.heap.free[k].addr + HEADER_SIZE == o.ptr
                     && Rounded(size) <= s.heap.free[k].size
  {
    var k := FirstFit(s.heap.free, Rounded(size));
    assert k <= i;
    assert s.heap.free[k].addr + HEADER_SIZE == Malloc(s, size).ptr;
    if k < i {
      assert s.heap.free[k].End() <= s.heap.free[i].addr;
    }
  }

  lemma OnePageSuffices(n: Word)
    requires 16 <= n <= PAGE_SIZE - HEADER_SIZE
    ensures PagesNeeded(n) == 1
  {
    assert Wrap(n + HEADER_SIZE + PAGE_SIZE - 1) == n + HEADER_SIZE + PAGE_SIZE - 1;
  }

  /** After one page has been added some block can hold any request of up to a
      page, whether or not the page was merged into a neighbour. */
  lemma AddPageMakesRoom(s: Store, n: nat)
    requires s.pool != {} && n <= PAGE_SIZE - HEADER_SIZE
    ensures FirstFit(AddPage(s).heap.free, n) < |AddPage(s).heap.free|
  {
    var b := PageBlock(Min(s.pool));
    var f := Insert(s.heap.free, b);
    var r := Rank(s.heap.free, b.addr);
    assert f[r] == b;
    var j := CoalesceKeepsRoom(f, r);
  }

  /** A request that rounds to at most 4080 bytes fails exactly when nothing fits
      and no page is left. */
  lemma SmallMallocFailsIff(s: Store, size: Word)
    requires Inv(s) && size != 0 && Rounded(size) <= PAGE_SIZE - HEADER_SIZE
    ensures Malloc(s, size).ptr == 0 <==>
      s.pool == {} && forall i :: 0 <= i < |s.heap.free| ==> s.heap.free[i].size < Rounded(size)
  {
    var n := Rounded(size);
    OnePageSuffices(n);
    if FirstFit(s.heap.free, n) == |s.heap.free| && s.pool != {} {
      AddPageMakesRoom(s, n);
      assert Grow(s, 1) == Grow(AddPage(s), 0) == AddPage(s);
      assert CanGrow(AddPage(s), 0);
    }
  }

  lemma LiveIndexUnique(h: Heap, i: nat)
    requires Shaped(h) && i < |h.live|
    ensures IsLive(h, h.live[i].addr + HEADER_SIZE)
    ensures LiveIndex(h.live, h.live[i].addr + HEADER_SIZE) == i
  {
    var ptr := h.live[i].addr + HEADER_SIZE;
    assert IsLive(h, ptr);
    var j := LiveIndex(h.live, ptr);
    assert j < i ==> Apart(h.live[j], h.live[i]);
    assert i < j ==> Apart(h.live[i], h.live[j]);
  }

  lemma AllocateThenFree(h: Heap, k: nat, n: nat)
    requires k < |h.free| && n <= h.free[k].size
    ensures var t := FreeAt(Allocate(h, k, n), |h.live|);
      Cover(t.free) == Cover(h.free) && t.live == h.live && t.pages == h.pages
  {
    var b, f := Taken(h.free[k], n), Take(h.free, k, n);
    TakeConserves(h.free, k, n);
    InsertConserves(f, b);
    CoalesceConserves(Insert(f, b));
    var live' := h.live + [b];
    assert live'[..|h.live|] + live'[|h.live| + 1..] == h.live;
  }

  /** Allocating from an existing block and freeing it again gives back exactly
      the free bytes and the live blocks there were. */
  lemma MallocThenFree(s: Store, size: Word)
    requires Inv(s) && size != 0 && FirstFit(s.heap.free, Rounded(size)) < |s.heap.free|
    ensures var o := Malloc(s, size);
      && IsLive(o.store.heap, o.ptr)
      && var t := Release(o.store, o.ptr);
         && Cover(t.heap.free) == Cover(s.heap.free)
         && t.heap.live == s.heap.live && t.heap.pages == s.heap.pages && t.pool == s.pool
  {
    hide Cover, Tiled, Pairs, Rounded, Coalesce, Insert, Take, ApartFromAll;
    var n := Rounded(size);
    var k := FirstFit(s.heap.free, n);
    MallocKeepsInv(s, size);
    LiveIndexUnique(Malloc(s, size).store.heap, |s.heap.live|);
    assert WellFormed(s.heap.free[k]);
    AllocateThenFree(s.heap, k, n);
  }

  lemma ReleaseKeepsInv(s: Store, ptr: nat)
    requires Inv(s) && (ptr == 0 || IsLive(s.heap, ptr))
    ensures Inv(Release(s, ptr))
  {
    if ptr != 0 {
      FreeKeepsInv(s, LiveIndex(s.heap.live, ptr));
    }
  }

  // ---------- how far coalescing goes ----------

  /** Freeing leaves no two free blocks touching unless the freed block completes
      three in a row; then it always leaves some. */
  lemma FreeCoalescesFullyIff(h: Heap, i: nat)
    requires i < |h.live|
    ensures Pairs(FreeAt(h, i).free) == 0 <==> !HasTriple(Insert(h.free, h.live[i]))
  {
    CoalesceCompleteIff(Insert(h.free, h.live[i]));
  }

  // ---------- accounting ----------

  /** The figures `heap_get_stats` reports: used bytes are the live blocks with
      their headers plus one header per free block. */
  lemma StatsAccount(h: Heap)
    requires Tiled(h)
    ensures PAGE_SIZE * |h.pages| - PayloadBytes(h.free) == Bytes(h.live) + HEADER_SIZE * |h.free|
  {
    BytesSplit(h.free);
  }

  // ---------- every run ----------

  datatype Op = Kmalloc(size: Word) | Kfree(ptr: nat)

  ghost predicate Legal(s: Store, op: Op) {
    op.Kfree? ==> op.ptr == 0 || IsLive(s.heap, op.ptr)
  }

  ghost function Step(s: Store, op: Op): Store
    requires Legal(s, op)
  {
    match op
    case Kmalloc(size) => Malloc(s, size).store
    case Kfree(ptr) => Release(s, ptr)
  }

  /** The run's frees are of null or of pointers live at that moment. */
  ghost predicate LegalRun(s: Store, ops: seq<Op>)
    decreases |ops|
  {
    ops == [] || (Legal(s, ops[0]) && LegalRun(Step(s, ops[0]), ops[1..]))
  }

  ghost function Run(s: Store, ops: seq<Op>): Store
    requires LegalRun(s, ops)
    decreases |ops|
  {
    if ops == [] then s else Run(Step(s, ops[0]), ops[1..])
  }

  lemma StepKeepsInv(s: Store, op: Op)
    requires Inv(s) && Legal(s, op)
    ensures Inv(Step(s, op))
  {
    match op
    case Kmalloc(size) => MallocKeepsInv(s, size);
    case Kfree(ptr) => ReleaseKeepsInv(s, ptr);
  }

  lemma {:induction false} RunKeepsInv(s: Store, ops: seq<Op>)
    requires Inv(s) && LegalRun(s, ops)
    ensures Inv(Run(s, ops))
    decreases |ops|
  {
    hide Inv, Step, Legal;
    if ops != [] {
      StepKeepsInv(s, ops[0]);
      RunKeepsInv(Step(s, ops[0]), ops[1..]);
    }
  }

  /** A live block stays live, at the same place and size, until it is freed. */
  lemma StepKeepsLive(s: Store, op: Op, b: Block)
    requires Inv(s) && Legal(s, op) && b in s.heap.live && op != Kfree(b.addr + HEADER_SIZE)
    ensures b in Step(s, op).heap.live
  {
    match op
    case Kmalloc(size) =>
      MallocResult(s, size);
      var o := Malloc(s, size);
      if o.ptr != 0 {
        var i :| 0 <= i < |s.heap.live| && s.heap.live[i] == b;
        assert o.store.heap.live[..|s.heap.live|][i] == b;
      }
    case Kfree(ptr) =>
      if ptr != 0 {
        var j := LiveIndex(s.heap.live, ptr);
        var i :| 0 <= i < |s.heap.live| && s.heap.live[i] == b;
        assert Release(s, ptr).heap.live[if i < j then i else i - 1] == b;
      }
  }

  lemma {:induction false} RunKeepsLive(s: Store, ops: seq<Op>, b: Block)
    requires Inv(s) && LegalRun(s, ops) && b in s.heap.live && Kfree(b.addr + HEADER_SIZE) !in ops
    ensures b in Run(s, ops).heap.live
    decreases |ops|
  {
    hide Inv, Step, Legal;
    if ops != [] {
      StepKeepsLive(s, ops[0], b);
      StepKeepsInv(s, ops[0]);
      RunKeepsLive(Step(s, ops[0]), ops[1..], b);
    }
  }

  /** `heap_init`, which asks for `initial` pages, on a page pool. */
  ghost function Boot(pool: set<nat>, initial: nat): Store {
    Grow(Store(Heap([], [], {}), pool), initial)
  }

  lemma BootInv(pool: set<nat>, initial: nat)
    requires forall p :: p in pool ==> 0 < p < TOTAL_PAGES
    ensures Inv(Boot(pool, initial))
    ensures Boot(pool, initial).heap.pages + Boot(pool, initial).pool == pool
  {
    EmptyInv(pool);
    hide Inv, Grow, Cover;
    var s := Store(Heap([], [], {}), pool);
    GrowKeepsInv(s, initial);
    GrowAccounts(s, initial);
    assert s.heap.pages + s.pool == pool;
  }

  lemma EmptyInv(pool: set<nat>)
    requires forall p :: p in pool ==> 0 < p < TOTAL_PAGES
    ensures Inv(Store(Heap([], [], {}), pool))
  {
    assert Cover([]) + Cover([]) == PageBytes({});
  }

  /** Every state reachable by `heap_init` followed by any run of `kmalloc` and
      `kfree`: the list is sorted, the blocks tile the heap's pages and at most
      one pair of list neighbours touches. */
  lemma ReachableHeap(pool: set<nat>, initial: nat, ops: seq<Op>)
    requires forall p :: p in pool ==> 0 < p < TOTAL_PAGES
    requires LegalRun(Boot(pool, initial), ops)
    ensures var t := Run(Boot(pool, initial), ops);
      && Shaped(t.heap) && Tiled(t.heap) && Pairs(t.heap.free) <= 1
      && t.heap.pages + t.pool == pool
  {
    BootInv(pool, initial);
    RunKeepsInv(Boot(pool, initial), ops);
    RunKeepsPages(Boot(pool, initial), ops);
  }

  lemma {:induction false} RunKeepsPages(s: Store, ops: seq<Op>)
    requires LegalRun(s, ops)
    ensures Run(s, ops).heap.pages + Run(s, ops).pool == s.heap.pages + s.pool
    decreases |ops|
  {
    if ops != [] {
      if ops[0].Kmalloc? {
        GrowAccounts(s, PagesNeeded(Rounded(ops[0].size)));
      }
      RunKeepsPages(Step(s, ops[0]), ops[1..]);
    }
  }
}
