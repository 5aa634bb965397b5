/** A run from `heap_init` into a state that shows what the one-pass coalesce
    costs: a free that leaves a touching pair, and a large request that then
    fails although its pages were there.  It exists for every page pool whose
    eighteen lowest pages are consecutive. */
module HeapWitness {
  import opened Machine
  import opened HeapBlocks
  import opened HeapSpec
  import opened HeapTheorems
  import opened HeapGrowth
  import PageAllocator

  /** The lowest free pages start at `p`; `heap_init` takes sixteen of them. */
  ghost predicate PoolFrom(pool: set<nat>, p: nat) {
    Consecutive(pool, p, 18) && forall q :: q in pool ==> 0 < q < TOTAL_PAGES
  }

  /** What `pmm_init` leaves is such a pool when the kernel ends at least eighteen
      pages below the ROM hole, or above it and as far below page 0x1F0. */
  lemma InitialPool(kendPage: nat)
    requires 0 < kendPage && (kendPage + 18 <= 0xA0 || 0x100 <= kendPage <= 0x1F0 - 18)
    ensures PoolFrom(PageAllocator.InitiallyFree(kendPage), kendPage)
  {
    forall q | q in PageRange(kendPage, 18) ensures q in PageAllocator.InitiallyFree(kendPage) {
      assert InRange(q, kendPage, 18) && PageAllocator.LowPage(kendPage, q);
    }
  }

  /** The blocks of the run: a large one and three small ones that fill the last
      of the sixteen pages. */
  function Big(p: nat): Block { Block(p * PAGE_SIZE, 65424) }

  function First(p: nat): Block { Block(p * PAGE_SIZE + 65440, 16) }

  function Second(p: nat): Block { Block(p * PAGE_SIZE + 65472, 16) }

  function Third(p: nat): Block { Block(p * PAGE_SIZE + 65504, 16) }

  function Pointer(b: Block): nat { b.addr + HEADER_SIZE }

  ghost function Booted(pool: set<nat>): Store {
    Boot(pool, INITIAL_PAGES)
  }

  /** A state of the run. */
  ghost function At(pool: set<nat>, p: nat, free: seq<Block>, live: seq<Block>): Store {
    Store(Heap(free, live, PageRange(p, 16)), pool - PageRange(p, 16))
  }

  lemma BootedIs(pool: set<nat>, p: nat)
    requires PoolFrom(pool, p)
    ensures Booted(pool) == At(pool, p, [Block(p * PAGE_SIZE, 65520)], []) && Inv(Booted(pool))
  {
    hide Grow, CanGrow, Inv;
    BootInv(pool, INITIAL_PAGES);
    EmptyInv(pool);
    PagesLeft(pool, p);
    var s := Store(Heap([], [], {}), pool);
    var u, v := GrowStarts(s, [], [], p, INITIAL_PAGES);
    GrowAccounts(s, INITIAL_PAGES);
    assert u + [Block(p * PAGE_SIZE, 65520)] + v == [Block(p * PAGE_SIZE, 65520)];
    assert {} + PageRange(p, 16) == PageRange(p, 16);
  }

  lemma PagesLeft(pool: set<nat>, p: nat)
    requires PoolFrom(pool, p)
    ensures Consecutive(pool, p, INITIAL_PAGES) && Consecutive(pool - PageRange(p, 16), p + 16, 2)
  {
    forall q | q in PageRange(p, 16) ensures q in pool {
      assert InRange(q, p, 16) && InRange(q, p, 18) && q in PageRange(p, 18);
    }
    forall q | q in PageRange(p + 16, 2) ensures q in pool - PageRange(p, 16) {
      assert InRange(q, p + 16, 2) && InRange(q, p, 18) && q in PageRange(p, 18);
      assert !InRange(q, p, 16);
    }
    forall q | q in pool - PageRange(p, 16) ensures p + 16 <= q {
      assert !InRange(q, p, 16);
    }
  }

  /** A request when the list holds one block that fits. */
  lemma MallocOnly(pool: set<nat>, p: nat, free: Block, live: seq<Block>, size: Word)
    requires 0 < size && size % 16 == 0 && size <= free.size
    ensures Malloc(At(pool, p, [free], live), size).store == At(pool, p, Remainder(free, size), live + [Taken(free, size)])
    ensures Legal(At(pool, p, [free], live), Kmalloc(size))
  {
    assert Rounded(size) == size;
    assert Take([free], 0, size) == Remainder(free, size);
  }

  /** Freeing the live block with index `i`. */
  lemma FreeNth(pool: set<nat>, p: nat, free: seq<Block>, live: seq<Block>, i: nat)
    requires Inv(At(pool, p, free, live)) && i < |live|
    ensures Legal(At(pool, p, free, live), Kfree(Pointer(live[i])))
    ensures Release(At(pool, p, free, live), Pointer(live[i])) ==
            At(pool, p, Coalesce(Insert(free, live[i])), live[..i] + live[i + 1..])
    ensures Inv(At(pool, p, Coalesce(Insert(free, live[i])), live[..i] + live[i + 1..]))
  {
    ReleaseNth(At(pool, p, free, live), i);
    hide Inv, Release, Coalesce, Insert;
    ReleaseKeepsInv(At(pool, p, free, live), Pointer(live[i]));
  }

  lemma ReleaseNth(s: Store, i: nat)
    requires Inv(s) && i < |s.heap.live|
    ensures IsLive(s.heap, Pointer(s.heap.live[i])) && Release(s, Pointer(s.heap.live[i])) == s.(heap := FreeAt(s.heap, i))
  {
    hide Tiled, Pairs, Coalesce, Insert;
    LiveIndexUnique(s.heap, i);
  }

  lemma RunCons(s: Store, op: Op, rest: seq<Op>)
    requires Legal(s, op) && LegalRun(Step(s, op), rest)
    ensures LegalRun(s, [op] + rest) && Run(s, [op] + rest) == Run(Step(s, op), rest)
  {
    assert ([op] + rest)[1..] == rest;
  }

  /** The run: four requests, then the first and the third small block freed. */
  function Frees(p: nat): seq<Op> {
    [Kfree(Pointer(First(p)))] + ([Kfree(Pointer(Third(p)))] + [])
  }

  function Requests(p: nat): seq<Op> {
    [Kmalloc(65424)] + ([Kmalloc(16)] + ([Kmalloc(16)] + ([Kmalloc(16)] + Frees(p))))
  }

  ghost function Gapped(pool: set<nat>, p: nat): Store {
    At(pool, p, [First(p), Third(p)], [Big(p), Second(p)])
  }

  ghost function Full(pool: set<nat>, p: nat): Store {
    At(pool, p, [], [Big(p), First(p), Second(p), Third(p)])
  }

  ghost predicate StepsTo(s: Store, op: Op, t: Store) {
    Legal(s, op) && Step(s, op) == t && Inv(t)
  }

  lemma FreeFirst(pool: set<nat>, p: nat)
    requires Inv(Full(pool, p))
    ensures StepsTo(Full(pool, p), Kfree(Pointer(First(p))), At(pool, p, [First(p)], [Big(p), Second(p), Third(p)]))
  {
    hide Inv, Release, First, Second, Third, Big, Coalesce, Insert;
    var all := [Big(p), First(p), Second(p), Third(p)];
    FreeNth(pool, p, [], all, 1);
    assert all[..1] + all[2..] == [Big(p), Second(p), Third(p)];
    InsertedAlone(First(p));
  }

  lemma InsertedAlone(b: Block)
    ensures Coalesce(Insert([], b)) == [b]
  {
  }

  lemma FreeThird(pool: set<nat>, p: nat)
    requires Inv(At(pool, p, [First(p)], [Big(p), Second(p), Third(p)]))
    ensures StepsTo(At(pool, p, [First(p)], [Big(p), Second(p), Third(p)]), Kfree(Pointer(Third(p))), Gapped(pool, p))
  {
    hide Inv, Release, Insert, Coalesce;
    ThirdInserted(p);
    hide First, Second, Third, Big;
    var three := [Big(p), Second(p), Third(p)];
    FreeNth(pool, p, [First(p)], three, 2);
    assert three[..2] + three[3..] == [Big(p), Second(p)];
  }

  lemma ThirdInserted(p: nat)
    ensures Coalesce(Insert([First(p)], Third(p))) == [First(p), Third(p)]
  {
    hide Insert, Coalesce;
    var a, c := First(p), Third(p);
    InsertBetween([a], [], c);
    LoneHead(a, [c]);
    assert [a] + [] == [a] && [a] + [c] + [] == [a] + [c] == [a, c];
  }

  lemma FreesReach(pool: set<nat>, p: nat)
    requires Inv(Full(pool, p))
    ensures LegalRun(Full(pool, p), Frees(p)) && Run(Full(pool, p), Frees(p)) == Gapped(pool, p) && Inv(Gapped(pool, p))
  {
    hide Inv, Step, Legal, At, Gapped, Full, First, Second, Third, Big;
    FreeFirst(pool, p);
    FreeThird(pool, p);
    RunCons(At(pool, p, [First(p)], [Big(p), Second(p), Third(p)]), Kfree(Pointer(Third(p))), []);
    RunCons(Full(pool, p), Kfree(Pointer(First(p))), [Kfree(Pointer(Third(p)))] + []);
  }

  /** One request of the run. */
  lemma RequestStep(pool: set<nat>, p: nat, free: Block, live: seq<Block>, size: Word, left: seq<Block>, taken: Block)
    requires Inv(At(pool, p, [free], live)) && 0 < size && size % 16 == 0 && size <= free.size
    requires left == Remainder(free, size) && taken == Taken(free, size)
    ensures StepsTo(At(pool, p, [free], live), Kmalloc(size), At(pool, p, left, live + [taken]))
  {
    hide Inv, Malloc, At;
    MallocOnly(pool, p, free, live, size);
    MallocKeepsInv(At(pool, p, [free], live), size);
  }

  /** The four requests, one state after another. */
  lemma RequestSteps(pool: set<nat>, p: nat)
    requires PoolFrom(pool, p)
    ensures var a := p * PAGE_SIZE;
      && StepsTo(Booted(pool), Kmalloc(65424), At(pool, p, [Block(a + 65440, 80)], [Big(p)]))
      && StepsTo(At(pool, p, [Block(a + 65440, 80)], [Big(p)]), Kmalloc(16), At(pool, p, [Block(a + 65472, 48)], [Big(p), First(p)]))
      && StepsTo(At(pool, p, [Block(a + 65472, 48)], [Big(p), First(p)]), Kmalloc(16),
                 At(pool, p, [Third(p)], [Big(p), First(p), Second(p)]))
      && StepsTo(At(pool, p, [Third(p)], [Big(p), First(p), Second(p)]), Kmalloc(16), Full(pool, p))
  {
    hide Inv, Step, Legal, At, Booted;
    var a := p * PAGE_SIZE;
    BootedIs(pool, p);
    RequestStep(pool, p, Block(a, 65520), [], 65424, [Block(a + 65440, 80)], Big(p));
    assert [] + [Big(p)] == [Big(p)];
    RequestStep(pool, p, Block(a + 65440, 80), [Big(p)], 16, [Block(a + 65472, 48)], First(p));
    assert [Big(p)] + [First(p)] == [Big(p), First(p)];
    RequestStep(pool, p, Block(a + 65472, 48), [Big(p), First(p)], 16, [Third(p)], Second(p));
    assert [Big(p), First(p)] + [Second(p)] == [Big(p), First(p), Second(p)];
    RequestStep(pool, p, Third(p), [Big(p), First(p), Second(p)], 16, [], Third(p));
    assert [Big(p), First(p), Second(p)] + [Third(p)] == [Big(p), First(p), Second(p), Third(p)];
  }

  lemma RequestsReach(pool: set<nat>, p: nat)
    requires PoolFrom(pool, p)
    ensures LegalRun(Booted(pool), Requests(p)) && Run(Booted(pool), Requests(p)) == Gapped(pool, p) && Inv(Gapped(pool, p))
  {
    hide Inv, Step, Legal, At, Gapped, Booted, Full, Frees, LegalRun, Run, PoolFrom, First, Second, Third, Big;
    var a := p * PAGE_SIZE;
    RequestSteps(pool, p);
    FreesReach(pool, p);
    var r3 := [Kmalloc(16)] + Frees(p);
    var r2 := [Kmalloc(16)] + r3;
    RunCons(At(pool, p, [Third(p)], [Big(p), First(p), Second(p)]), Kmalloc(16), Frees(p));
    RunCons(At(pool, p, [Block(a + 65472, 48)], [Big(p), First(p)]), Kmalloc(16), r3);
    RunCons(At(pool, p, [Block(a + 65440, 80)], [Big(p)]), Kmalloc(16), r2);
    RunCons(Booted(pool), Kmalloc(65424), [Kmalloc(16)] + r2);
  }

  // ---------- a free that leaves a pair ----------

  function Pair(p: nat): Block { Block(p * PAGE_SIZE + 65440, 48) }

  lemma SecondFreed(p: nat)
    ensures Coalesce(Insert([First(p), Third(p)], Second(p))) == [Pair(p), Third(p)]
  {
    hide Insert, Coalesce;
    var a, b, c := First(p), Second(p), Third(p);
    assert [a] + [c] == [a, c] && [a] + [b] + [c] == [a, b] + [c];
    InsertBetween([a], [c], b);
    PassPair(a, b, [c]);
    OnePass(c);
    assert [Pair(p)] + [c] == [Pair(p), c];
  }

  ghost function Paired(pool: set<nat>, p: nat): Store {
    At(pool, p, [Pair(p), Third(p)], [Big(p)])
  }

  lemma TwoPairs(p: nat)
    ensures Pairs([First(p), Third(p)]) == 0 && Pairs([Pair(p), Third(p)]) == 1
  {
    assert [First(p), Third(p)][1..] == [Third(p)] && [Pair(p), Third(p)][1..] == [Third(p)];
  }

  /** Reachable from `heap_init`: no two free blocks touch, and freeing one more
      live block leaves two that do. */
  lemma FreeMayLeaveOnePair(pool: set<nat>, p: nat)
    requires PoolFrom(pool, p)
    ensures LegalRun(Booted(pool), Requests(p)) && Run(Booted(pool), Requests(p)) == Gapped(pool, p)
    ensures Pairs(Gapped(pool, p).heap.free) == 0
    ensures StepsTo(Gapped(pool, p), Kfree(Pointer(Second(p))), Paired(pool, p)) && Pairs(Paired(pool, p).heap.free) == 1
  {
    hide Inv, Release, Insert, Coalesce, Booted, Requests, PoolFrom, First, Second, Third, Big, Pair, LegalRun, Run, Pairs;
    RequestsReach(pool, p);
    var live := [Big(p), Second(p)];
    FreeNth(pool, p, [First(p), Third(p)], live, 1);
    assert live[..1] + live[2..] == [Big(p)];
    SecondFreed(p);
    TwoPairs(p);
  }

  /** From there 8176 bytes are refused although the two pages they need are free,
      consecutive and all taken. */
  lemma LargeMallocMayFail(pool: set<nat>, p: nat)
    requires PoolFrom(pool, p)
    ensures Inv(Paired(pool, p)) && PagesNeeded(8176) == 2 && Consecutive(Paired(pool, p).pool, p + 16, 2)
    ensures Malloc(Paired(pool, p), 8176).ptr == 0
  {
    hide Inv, Booted, Requests, Malloc, Run, LegalRun, PageRange, PairBelow, LaggingRoom, HasRoom, Consecutive, PoolFrom, Step, Legal;
    FreeMayLeaveOnePair(pool, p);
    PagesLeft(pool, p);
    PairLags(p);
    LargeMallocSucceedsIff(Paired(pool, p), 8176, p + 16);
  }

  lemma PairLags(p: nat)
    ensures var f := [Pair(p), Third(p)]; !HasRoom(f, 8176) && PairBelow(f, p + 16) && !LaggingRoom(f, p + 16, 2, 8176)
  {
    var f := [Pair(p), Third(p)];
    RoomIff(f, 8176);
    RankUnique(f, (p + 16) * PAGE_SIZE, 2);
  }

  /** So on the pool the kernel boots with. */
  lemma LargeMallocFailsAfterBoot(kendPage: nat)
    requires 0 < kendPage && (kendPage + 18 <= 0xA0 || 0x100 <= kendPage <= 0x1F0 - 18)
    ensures var pool := PageAllocator.InitiallyFree(kendPage);
      && LegalRun(Booted(pool), Requests(kendPage))
      && StepsTo(Run(Booted(pool), Requests(kendPage)), Kfree(Pointer(Second(kendPage))), Paired(pool, kendPage))
      && Malloc(Paired(pool, kendPage), 8176).ptr == 0
  {
    hide PoolFrom, LegalRun, Run, StepsTo, Malloc, Paired, Booted, Requests, Gapped;
    InitialPool(kendPage);
    FreeMayLeaveOnePair(PageAllocator.InitiallyFree(kendPage), kendPage);
    LargeMallocMayFail(PageAllocator.InitiallyFree(kendPage), kendPage);
  }
}
