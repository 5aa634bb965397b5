/** The in-place heap and pager on one memory array and one page allocator: calls of
    each leave the other's representation as it was. */
module KernelMemory {
  import opened Machine
  import HeapBlocks
  import HeapSpec
  import HeapMemory
  import HeapRuns = HeapTheorems
  import PagingSpec
  import Pages = KernelPages
  import opened KernelHeap
  import opened Paging

  // ---------- what survives on memory values ----------

  lemma HeapWritesOnPages(m: seq<Word>, n: seq<Word>, pages: set<nat>, live: seq<HeapBlocks.Block>)
    requires HeapMemory.ChangedWithin(m, n, HeapSpec.PageBytes(pages) - HeapBlocks.Cover(live))
    ensures DifferOnlyOn(m, n, pages)
  {
    hide HeapBlocks.Cover;
  }

  /** Tables on other pages are still there. */
  lemma TablesSurvive(m: seq<Word>, n: seq<Word>, pages: set<nat>, dir: nat, tables: map<nat, nat>,
                      dirs: map<nat, bool>, flat: map<nat, PagingSpec.Mapping>)
    requires DifferOnlyOn(m, n, pages) && dir < TOTAL_PAGES && pages !! {dir} + tables.Values
    requires DirOk(Table(m, dir), tables, dirs) && TablesOk(m, tables, flat)
    ensures DirOk(Table(n, dir), tables, dirs) && TablesOk(n, tables, flat)
  {
    hide Table, DirOk, TableOk;
    assert dir !in pages by { assert dir in {dir} + tables.Values; }
    TableFrame(m, n, pages, dir);
    forall d | d in tables
      ensures TableOk(Table(n, tables[d]), flat, d)
    {
      assert tables[d] in tables.Values && tables[d] !in pages;
      TableFrame(m, n, pages, tables[d]);
    }
  }

  lemma SeparateSmaller(dir: nat, tables: map<nat, nat>, free: set<nat>, smaller: set<nat>)
    requires Separate(dir, tables, free) && smaller <= free
    ensures Separate(dir, tables, smaller)
  {
  }

  lemma TablesNotFree(dir: nat, tables: map<nat, nat>, free: set<nat>)
    requires Separate(dir, tables, free)
    ensures free !! {dir} + tables.Values
  {
  }

  /** The list and the live headers on other pages are still there. */
  lemma HeapSurvives(m: seq<Word>, n: seq<Word>, pages: set<nat>, head: int, h: HeapSpec.Heap)
    requires DifferOnlyOn(m, n, pages) && pages !! h.pages && HeapSpec.Tiled(h)
    requires HeapMemory.Segment(m, head, h.free, 0) && HeapMemory.LiveHeaders(m, h.live)
    ensures HeapMemory.Segment(n, head, h.free, 0) && HeapMemory.LiveHeaders(n, h.live)
  {
    hide HeapBlocks.Cover, HeapBlocks.Bytes, HeapMemory.Segment, HeapMemory.LiveHeaders;
    var where := HeapSpec.PageBytes(pages);
    PagesApart(pages, h.pages);
    assert HeapMemory.ChangedWithin(m, n, where);
    HeapMemory.SegmentFrame(m, n, where, head, h.free, 0);
    forall i | 0 <= i < |h.live|
      ensures HeapBlocks.Span(h.live[i]) !! where
    {
      SpanCovered(h.live, i);
    }
    HeapMemory.LiveHeadersFrame(m, n, where, h.live);
  }

  lemma PagesApart(p: set<nat>, q: set<nat>)
    requires p !! q
    ensures HeapSpec.PageBytes(p) !! HeapSpec.PageBytes(q)
  {
  }

  lemma SpanCovered(bs: seq<HeapBlocks.Block>, i: nat)
    requires i < |bs|
    ensures HeapBlocks.Span(bs[i]) <= HeapBlocks.Cover(bs)
  {
    forall a | a in HeapBlocks.Span(bs[i]) ensures a in HeapBlocks.Cover(bs) {
      HeapBlocks.CoverMember(bs, i, a);
    }
  }

  // ---------- the two side by side ----------

  ghost predicate Together(heap: Kheap, pager: Pager)
    reads heap, pager, heap.mem, pager.mem, heap.pmm.bitmap, pager.pmm.bitmap
  {
    && heap.mem == pager.mem && heap.pmm == pager.pmm
    && heap.Valid() && pager.Valid() && heap.state.pages !! pager.Pages()
  }

  /** The pager's tables in a memory `m` with free pages `free`. */
  ghost predicate PagedIn(pager: Pager, m: seq<Word>, free: set<nat>)
    reads pager
  {
    && |m| == MEM_SIZE && pager.directory % PAGE_SIZE == 0 && pager.directory < MEM_SIZE
    && DirOk(Table(m, PageOf(pager.directory)), pager.tables, pager.dirs) && TablesOk(m, pager.tables, pager.flat)
    && PagingSpec.Inv(PagingSpec.Space(pager.flat, pager.dirs, free))
    && Separate(PageOf(pager.directory), pager.tables, free)
  }

  lemma PagedInIff(pager: Pager)
    requires pager.pmm.Valid()
    ensures pager.Valid() <==> PagedIn(pager, pager.mem[..], pager.pmm.Free())
  {
  }

  /** A heap call, as far as the pager is concerned: it wrote on heap pages and took
      pages from the pool. */
  lemma PagerKept(pager: Pager, m: seq<Word>, n: seq<Word>, s: HeapSpec.Store, op: HeapRuns.Op)
    requires HeapSpec.Inv(s) && HeapRuns.Legal(s, op) && PagedIn(pager, m, s.pool) && s.heap.pages !! pager.Pages()
    requires DifferOnlyOn(m, n, HeapRuns.Step(s, op).heap.pages)
    ensures PagedIn(pager, n, HeapRuns.Step(s, op).pool) && HeapRuns.Step(s, op).heap.pages !! pager.Pages()
  {
    hide HeapSpec.Inv, HeapRuns.Step, HeapRuns.Legal, PagingSpec.Inv, DirOk, TablesOk, Table, Separate;
    var t, dir := HeapRuns.Step(s, op), PageOf(pager.directory);
    Pages.HeapStepPages(s, op);
    Pages.PagingAnyPool(PagingSpec.Space(pager.flat, pager.dirs, s.pool), t.pool);
    TablesNotFree(dir, pager.tables, s.pool);
    Pages.GrownApart(s.heap.pages, s.pool, t.pool, pager.Pages());
    SeparateSmaller(dir, pager.tables, s.pool, t.pool);
    TablesSurvive(m, n, t.heap.pages, dir, pager.tables, pager.dirs, pager.flat);
  }

  /** kmalloc beside the page tables. */
  method Kmalloc(heap: Kheap, pager: Pager, size: Word) returns (ptr: Word)
    requires Together(heap, pager)
    modifies heap, heap.mem, heap.pmm.bitmap
    ensures Together(heap, pager) && unchanged(pager)
    ensures HeapSpec.Outcome(heap.Content(), ptr) == HeapSpec.Malloc(old(heap.Content()), size)
  {
    hide HeapSpec.Malloc, HeapSpec.Inv, Kheap.Represents, PagedIn, Pager.Represents;
    ghost var m: seq<Word>, s := heap.mem[..], heap.Content();
    PagedInIff(pager);
    ptr := heap.Kmalloc(size);
    HeapWritesOnPages(m, heap.mem[..], heap.state.pages, s.heap.live);
    PagerKept(pager, m, heap.mem[..], s, HeapRuns.Kmalloc(size));
    PagedInIff(pager);
  }

  /** kfree beside the page tables. */
  method Kfree(heap: Kheap, pager: Pager, ptr: Word)
    requires Together(heap, pager) && (ptr == 0 || HeapSpec.IsLive(heap.state, ptr))
    modifies heap, heap.mem
    ensures Together(heap, pager) && unchanged(pager)
    ensures heap.Content() == HeapSpec.Release(old(heap.Content()), ptr)
  {
    hide HeapSpec.Release, HeapSpec.Inv, Kheap.Represents, PagedIn, Pager.Represents;
    ghost var m: seq<Word>, s := heap.mem[..], heap.Content();
    PagedInIff(pager);
    heap.Kfree(ptr);
    HeapWritesOnPages(m, heap.mem[..], heap.state.pages, heap.state.live);
    PagerKept(pager, m, heap.mem[..], s, HeapRuns.Kfree(ptr));
    PagedInIff(pager);
  }

  // ---------- paging calls beside the heap ----------

  /** The heap's blocks in a memory `m` with free pages `free`. */
  ghost predicate HeapIn(heap: Kheap, m: seq<Word>, free: set<nat>)
    reads heap
  {
    && |m| == MEM_SIZE && heap.heapPages == |heap.state.pages|
    && HeapMemory.Segment(m, heap.freeList, heap.state.free, 0) && HeapMemory.LiveHeaders(m, heap.state.live)
    && HeapSpec.Inv(HeapSpec.Store(heap.state, free))
  }

  lemma HeapInIff(heap: Kheap)
    requires heap.pmm.Valid()
    ensures heap.Valid() <==> HeapIn(heap, heap.mem[..], heap.pmm.Free())
  {
  }

  /** A paging call, as far as the heap is concerned. */
  lemma HeapKept(heap: Kheap, m: seq<Word>, n: seq<Word>, free: set<nat>, smaller: set<nat>, pages: set<nat>)
    requires HeapIn(heap, m, free) && smaller <= free && DifferOnlyOn(m, n, pages) && pages !! heap.state.pages
    ensures HeapIn(heap, n, smaller)
  {
    hide HeapMemory.Segment, HeapMemory.LiveHeaders;
    TiledOf(heap.state, free);
    hide HeapSpec.Inv;
    HeapSurvives(m, n, pages, heap.freeList, heap.state);
    Pages.HeapSmallerPool(HeapSpec.Store(heap.state, free), smaller);
  }

  lemma TiledOf(h: HeapSpec.Heap, free: set<nat>)
    requires HeapSpec.Inv(HeapSpec.Store(h, free))
    ensures HeapSpec.Tiled(h) && h.pages !! free
  {
  }

  /** The pool only shrinks, so new tables lie apart from the heap. */
  lemma MapPages(s: PagingSpec.Space, op: PagingSpec.Op, before: set<nat>, after: set<nat>, pages: set<nat>)
    requires PagingSpec.Inv(s) && after <= before + s.pool && pages !! before && pages !! s.pool
    ensures PagingSpec.Step(s, op).pool <= s.pool && pages !! after
  {
    hide PagingSpec.Inv, PagingSpec.Step;
    Pages.PagingStepPages(s, op);
  }

  /** map beside the heap. */
  method Map(heap: Kheap, pager: Pager, virt: Word, phys: Word, flags: Word)
    requires Together(heap, pager)
    modifies pager, pager.mem, pager.pmm.bitmap
    ensures Together(heap, pager) && unchanged(heap)
    ensures pager.Content() == PagingSpec.MapPage(old(pager.Content()), virt, phys, flags)
  {
    hide PagingSpec.MapPage, PagingSpec.Inv, Pager.Represents, HeapIn, Kheap.Represents, HeapSpec.Inv, DifferOnlyOn;
    ghost var m: seq<Word>, s, before := heap.mem[..], pager.Content(), pager.Pages();
    HeapInIff(heap);
    HeapNotFree(heap, m, s.pool);
    pager.Map(virt, phys, flags);
    MapPages(s, PagingSpec.Op.Map(virt, phys, flags), before, pager.Pages(), heap.state.pages);
    HeapKept(heap, m, heap.mem[..], s.pool, pager.pmm.Free(), pager.Pages());
    HeapInIff(heap);
  }

  lemma HeapNotFree(heap: Kheap, m: seq<Word>, free: set<nat>)
    requires HeapIn(heap, m, free)
    ensures heap.state.pages !! free
  {
    TiledOf(heap.state, free);
  }

  /** unmap beside the heap. */
  method Unmap(heap: Kheap, pager: Pager, virt: Word)
    requires Together(heap, pager)
    modifies pager, pager.mem
    ensures Together(heap, pager) && unchanged(heap)
    ensures pager.Content() == PagingSpec.UnmapPage(old(pager.Content()), virt)
  {
    hide PagingSpec.Inv, Pager.Represents, HeapIn, Kheap.Represents, HeapSpec.Inv, DifferOnlyOn;
    ghost var m: seq<Word>, free := heap.mem[..], pager.pmm.Free();
    HeapInIff(heap);
    pager.Unmap(virt);
    HeapKept(heap, m, heap.mem[..], free, free, pager.Pages());
    HeapInIff(heap);
  }
}
