/** The kernel heap: an address-sorted free list threaded through the blocks of
    flat memory, growing page by page from the page allocator. */
module KernelHeap {
  import opened Machine
  import opened PageAllocator
  import opened HeapBlocks
  import opened HeapSpec
  import opened HeapMemory
  import HeapTheorems

  datatype Stats = Stats(totalBytes: nat, freeBytes: nat, usedBytes: int, freeBlocks: nat, pages: nat)

  class Kheap {
    const mem: array<Word>
    const pmm: Pmm
    var freeList: Word
    var heapPages: nat
    ghost var state: Heap

    ghost function Content(): Store
      requires pmm.bitmap.Length == BITMAP_BYTES
      reads this, pmm.bitmap
    {
      Store(state, pmm.Free())
    }

    /** Memory and the list head hold the heap `h`. */
    ghost predicate Represents(h: Heap)
      reads this`freeList, this`heapPages, mem
    {
      && mem.Length == MEM_SIZE && heapPages == |h.pages|
      && Segment(mem[..], freeList, h.free, 0)
      && LiveHeaders(mem[..], h.live)
    }

    ghost predicate Valid()
      reads this, mem, pmm.bitmap
    {
      pmm.Valid() && Inv(Content()) && Represents(state)
    }

    constructor (mem: array<Word>, pmm: Pmm)
      requires mem.Length == MEM_SIZE && pmm.Valid()
      ensures this.mem == mem && this.pmm == pmm
      ensures Valid() && Content() == Store(Heap([], [], {}), pmm.Free())
    {
      this.mem, this.pmm := mem, pmm;
      freeList, heapPages, state := 0, 0, Heap([], [], {});
      new;
      HeapTheorems.BootInv(pmm.Free(), 0);
    }

    /** `heap_init`. */
    method Init()
      requires Valid()
      modifies this, mem, pmm.bitmap
      ensures Valid() && Content() == Grow(old(Content()), INITIAL_PAGES)
    {
      hide Segment, LiveHeaders, Inv, Grow, HeapSpec.AddPage, ChangedWithin;
      ghost var s := Content();
      for i := 0 to INITIAL_PAGES
        invariant Valid() && Grow(s, INITIAL_PAGES) == Grow(Content(), INITIAL_PAGES - i)
      {
        GrowUnfold(Content(), INITIAL_PAGES - i);
        GrowUnfold(Content(), INITIAL_PAGES - i - 1);
        var _ := AddPage();
      }
      GrowUnfold(Content(), 0);
    }

    /** `heap_get_stats`. */
    method GetStats() returns (stats: Stats)
      requires Valid()
      ensures stats.pages == |state.pages| && stats.totalBytes == PAGE_SIZE * |state.pages|
      ensures stats.freeBytes == PayloadBytes(state.free) && stats.freeBlocks == |state.free|
      ensures stats.usedBytes == Bytes(state.live) + HEADER_SIZE * |state.free|
    {
      hide Segment, Sorted, Cover, LiveHeaders;
      var freeBytes, freeBlocks := 0, 0;
      var cur := freeList;
      ghost var y := state.free;
      FreeNonNull(y);
      SegmentEnds(mem[..], cur, y);
      while cur != 0
        invariant Segment(mem[..], cur, y, 0) && NonNull(y) && (cur == 0 <==> y == [])
        invariant freeBytes + PayloadBytes(y) == PayloadBytes(state.free)
        invariant freeBlocks + |y| == |state.free|
        decreases |y|
      {
        SegmentHead(mem[..], cur, y);
        if mem[cur + 4] != 0 {
          freeBytes := freeBytes + mem[cur];
          freeBlocks := freeBlocks + 1;
        }
        cur := mem[cur + 8];
        y := y[1..];
        SegmentEnds(mem[..], cur, y);
      }
      HeapTheorems.StatsAccount(state);
      stats := Stats(heapPages * PAGE_SIZE, freeBytes, heapPages * PAGE_SIZE - freeBytes, freeBlocks, heapPages);
    }

    /** The walk of `list_insert` past the blocks `x` below `block`. */
    method FindPlace(block: Word, ghost f: seq<Block>) returns (cur: Word, ghost x: seq<Block>, ghost y: seq<Block>)
      requires mem.Length == MEM_SIZE && Segment(mem[..], freeList, f, 0) && Sorted(f) && NonNull(f)
      requires f != [] && f[0].addr < block
      ensures f == x + y && x != [] && cur == x[|x| - 1].addr < block && (y != [] ==> block <= y[0].addr)
      ensures Segment(mem[..], freeList, x, First(y)) && Segment(mem[..], First(y), y, 0)
      ensures InMemory(x[|x| - 1]) && mem[cur + 8] == First(y) < MEM_SIZE
      ensures exists k :: 0 <= k < |f| && cur == f[k].addr < block && (k + 1 < |f| ==> block <= f[k + 1].addr)
    {
      hide Segment, Sorted;
      cur, x, y := freeList, [f[0]], f[1..];
      SegmentHead(mem[..], freeList, f);
      while mem[cur + 8] != 0 && mem[cur + 8] < block
        invariant f == x + y && x != [] && cur == x[|x| - 1].addr < block && InMemory(x[|x| - 1])
        invariant mem[cur + 8] == First(y)
        invariant Segment(mem[..], freeList, x, First(y)) && Segment(mem[..], First(y), y, 0)
        decreases |y|
      {
        SegmentHead(mem[..], First(y), y);
        SegmentConcat(mem[..], freeList, x, First(y), [y[0]], First(y[1..]));
        cur := mem[cur + 8];
        x, y := x + [y[0]], y[1..];
      }
      if y != [] {
        SegmentHead(mem[..], First(y), y);
      }
      assert f[|x| - 1] == x[|x| - 1] && (y != [] ==> f[|x|] == y[0]);
    }

    /** `list_insert`, on a list holding the blocks `f`. */
    method ListInsert(block: Word, ghost f: seq<Block>, ghost b: Block)
      requires mem.Length == MEM_SIZE && Segment(mem[..], freeList, f, 0) && Sorted(f) && NonNull(f)
      requires InMemory(b) && 0 < b.addr && b.addr == block && ApartFromAll(b, f) && mem[block] == b.size
      modifies this`freeList, mem
      ensures Segment(mem[..], freeList, Insert(f, b), 0)
      ensures ChangedWithin(old(mem[..]), mem[..], Cover(f) + Span(b))
    {
      ghost var m0: seq<Word> := mem[..];
      MarkFree(m0, freeList, f, b);
      mem[block + 4] := 1;
      ghost var m1: seq<Word> := m0[block + 4 := 1];
      assert mem[..] == m1;
      if freeList == 0 || block < freeList {
        LinkFront(m1, freeList, f, b);
        mem[block + 8] := freeList;
        assert mem[..] == m1[block + 8 := freeList];
        freeList := block;
      } else {
        assert Apart(b, f[0]);
        InsertAfter(block, f, b);
      }
      ChangedTrans(m0, m1, mem[..], Cover(f) + Span(b), Cover(f) + Span(b));
    }

    /** The part of `list_insert` for a block that does not become the head. */
    method InsertAfter(block: Word, ghost f: seq<Block>, ghost b: Block)
      requires mem.Length == MEM_SIZE && Segment(mem[..], freeList, f, 0) && Sorted(f) && NonNull(f)
      requires f != [] && f[0].addr < block
      requires InMemory(b) && b.addr == block && ApartFromAll(b, f) && mem[block] == b.size && mem[block + 4] == 1
      modifies mem
      ensures Segment(mem[..], freeList, Insert(f, b), 0)
      ensures ChangedWithin(old(mem[..]), mem[..], Cover(f) + Span(b))
    {
      hide Segment, Sorted, NonNull, ApartFromAll, Cover;
      ghost var m: seq<Word> := mem[..];
      var cur, x, y := FindPlace(block, f);
      LinkAt(m, freeList, x, b, y);
      var next := mem[cur + 8];
      TwoWrites(m, f, b, |x| - 1, next, block);
      mem[block + 8] := next;
      mem[cur + 8] := block;
      assert mem[..] == m[block + 8 := next][cur + 8 := block];
    }

    /** `coalesce_forward` of the first block of the list tail `y`. */
    method CoalesceForward(block: Word, ghost y: seq<Block>)
      requires mem.Length == MEM_SIZE && Segment(mem[..], block, y, 0) && Sorted(y) && NonNull(y) && y != []
      modifies mem
      ensures Segment(mem[..], block, Forward(y), 0)
      ensures ChangedWithin(old(mem[..]), mem[..], Span(y[0]))
    {
      ghost var m0: seq<Word> := mem[..];
      SegmentHead(m0, block, y);
      var next := mem[block + 8];
      if next == 0 {
        return;
      }
      SegmentHead(m0, next, y[1..]);
      if block + HEADER_SIZE + mem[block] == next && mem[next + 4] != 0 {
        var size, after := mem[block] + HEADER_SIZE + mem[next], mem[next + 8];
        ForwardLinked(m0, block, y, size, after);
        mem[block], mem[block + 8] := size, after;
        assert mem[..] == m0[block := size][block + 8 := after];
      }
    }

    /** The walk over the whole list that follows every insertion. */
    method CoalesceAll(ghost f: seq<Block>)
      requires mem.Length == MEM_SIZE && Segment(mem[..], freeList, f, 0) && Sorted(f) && NonNull(f)
      modifies mem
      ensures Segment(mem[..], freeList, Coalesce(f), 0)
      ensures ChangedWithin(old(mem[..]), mem[..], Cover(f))
    {
      var cur := freeList;
      ghost var x, y := [], f;
      while cur != 0
        invariant Segment(mem[..], freeList, x, cur) && Segment(mem[..], cur, y, 0)
        invariant WalkOk(f, x, y)
        invariant ChangedWithin(old(mem[..]), mem[..], Cover(f))
        decreases |y|
      {
        ghost var m: seq<Word> := mem[..];
        CoalesceForward(cur, y);
        ApartSpans(y[0], x);
        SegmentFrame(m, mem[..], Span(y[0]), freeList, x, cur);
        ForwardTail(y);
        ghost var z := Forward(y);
        WalkStep(f, x, y, z[0], z[1..]);
        SegmentHead(mem[..], cur, z);
        SegmentConcat(mem[..], freeList, x, cur, [z[0]], First(z[1..]));
        cur := mem[cur + 8];
        x, y := x + [z[0]], z[1..];
      }
      assert y == [];
      assert x + [] == x;
    }

    /** Insertion followed by the walk, as both callers do it. */
    method InsertAndCoalesce(block: Word, ghost f: seq<Block>, ghost b: Block)
      requires mem.Length == MEM_SIZE && Segment(mem[..], freeList, f, 0) && Sorted(f) && NonNull(f)
      requires InMemory(b) && 0 < b.addr && b.addr == block && ApartFromAll(b, f) && mem[block] == b.size
      requires Sorted(Insert(f, b)) && NonNull(Insert(f, b))
      modifies this`freeList, mem
      ensures Segment(mem[..], freeList, Coalesce(Insert(f, b)), 0)
      ensures ChangedWithin(old(mem[..]), mem[..], Cover(f) + Span(b))
    {
      ghost var m0: seq<Word> := mem[..];
      ListInsert(block, f, b);
      ghost var m1: seq<Word> := mem[..];
      CoalesceAll(Insert(f, b));
      InsertConserves(f, b);
      ChangedTrans(m0, m1, mem[..], Cover(f) + Span(b), Cover(f) + Span(b));
    }

    /** `heap_add_page`. */
    method AddPage() returns (block: Word)
      requires Valid()
      modifies this, mem, pmm.bitmap
      ensures Valid() && Content() == HeapSpec.AddPage(old(Content()))
      ensures block == 0 <==> old(pmm.Free()) == {}
      ensures ChangedWithin(old(mem[..]), mem[..], PageBytes(state.pages) - Cover(state.live))
    {
      hide Segment, LiveHeaders, Inv, Sorted, NonNull, ApartFromAll, Cover, ListsApart, ChangedWithin;
      ghost var s, m0: seq<Word> := Content(), mem[..];
      block := pmm.Alloc();
      if block == 0 {
        NothingChanged(m0, PageBytes(state.pages) - Cover(state.live));
        return;
      }
      ghost var b, f := PageBlock(Min(s.pool)), state.free;
      FreshPage(s);
      LinkPage(block, f, b);
      heapPages := heapPages + 1;
      state := HeapSpec.AddPage(s).heap;
      LiveUntouched(state, state.live, m0, mem[..]);
      assert Content() == HeapSpec.AddPage(s);
      FreeBytesOnly(Content(), m0, mem[..]);
    }

    /** Writes a new page's header and puts the page on the list. */
    method LinkPage(block: Word, ghost f: seq<Block>, ghost b: Block)
      requires mem.Length == MEM_SIZE && Segment(mem[..], freeList, f, 0) && Sorted(f) && NonNull(f)
      requires InMemory(b) && 0 < b.addr && b.addr == block && ApartFromAll(b, f) && b.size == PAGE_SIZE - HEADER_SIZE
      requires Sorted(Insert(f, b)) && NonNull(Insert(f, b))
      modifies this`freeList, mem
      ensures Segment(mem[..], freeList, Coalesce(Insert(f, b)), 0)
      ensures ChangedWithin(old(mem[..]), mem[..], Cover(f) + Span(b))
    {
      ghost var m0: seq<Word> := mem[..];
      ghost var m1: seq<Word> := m0[block := PAGE_SIZE - HEADER_SIZE][block + 4 := 1][block + 8 := 0];
      FillHeader(m0, freeList, f, b, 1, 0);
      mem[block] := PAGE_SIZE - HEADER_SIZE;
      mem[block + 4] := 1;
      mem[block + 8] := 0;
      assert mem[..] == m1;
      InsertAndCoalesce(block, f, b);
      ChangedTrans(m0, m1, mem[..], Cover(f) + Span(b), Cover(f) + Span(b));
    }

    /** `kfree` of null or of a live pointer. */
    method Kfree(ptr: Word)
      requires Valid() && (ptr == 0 || IsLive(state, ptr))
      modifies this, mem
      ensures Valid() && Content() == Release(old(Content()), ptr)
      ensures ChangedWithin(old(mem[..]), mem[..], PageBytes(state.pages) - Cover(state.live))
    {
      hide Segment, LiveHeaders, Inv, Sorted, NonNull, ApartFromAll, Cover, ListsApart, ChangedWithin;
      ghost var s, m0: seq<Word> := Content(), mem[..];
      if ptr == 0 {
        NothingChanged(m0, PageBytes(state.pages) - Cover(state.live));
        return;
      }
      ghost var i := LiveIndex(state.live, ptr);
      ghost var b, f := state.live[i], state.free;
      FreedBlock(s, m0, i);
      var block := ptr - HEADER_SIZE;
      InsertAndCoalesce(block, f, b);
      state := FreeAt(state, i);
      LiveRemoved(m0, s.heap.live, i);
      LiveUntouched(state, state.live, m0, mem[..]);
      assert Content() == s.(heap := state);
      FreeBytesOnly(s.(heap := state), m0, mem[..]);
    }

    /** Splits the first block of the list tail `y` when enough would be left over. */
    method SplitFront(cur: Word, n: Word, ghost y: seq<Block>)
      requires mem.Length == MEM_SIZE && Segment(mem[..], cur, y, 0) && Sorted(y) && y != [] && n <= y[0].size
      modifies mem
      ensures Segment(mem[..], cur, [Taken(y[0], n)] + (Remainder(y[0], n) + y[1..]), 0)
      ensures ChangedWithin(old(mem[..]), mem[..], Span(y[0]))
    {
      hide Segment, Sorted;
      ghost var m: seq<Word> := mem[..];
      SegmentHead(m, cur, y);
      if mem[cur] >= n + HEADER_SIZE + MIN_ALLOC {
        var size, next := mem[cur] - n - HEADER_SIZE, mem[cur + 8];
        SplitLinked(m, cur, y, n, size, next);
        var newBlock := cur + HEADER_SIZE + n;
        mem[newBlock] := size;
        mem[newBlock + 4] := 1;
        mem[newBlock + 8] := next;
        mem[cur + 8] := newBlock;
        mem[cur] := n;
        assert mem[..] == SplitWords(m, cur, n, size, next);
      } else {
        assert [y[0]] + ([] + y[1..]) == y;
      }
    }

    /** Takes the block `t` that follows `x` off the list. */
    method Unlink(cur: Word, prev: Word, ghost x: seq<Block>, ghost t: Block, ghost z: seq<Block>)
      requires mem.Length == MEM_SIZE && Segment(mem[..], freeList, x, cur) && Segment(mem[..], cur, [t] + z, 0)
      requires Sorted(x) && NonNull(x) && ApartFromAll(t, x) && ApartFromAll(t, z) && (x != [] ==> ApartFromAll(x[|x| - 1], z))
      requires prev == if x == [] then 0 else x[|x| - 1].addr
      modifies this`freeList, mem
      ensures Segment(mem[..], freeList, x + z, 0)
      ensures InMemory(t) && mem[t.addr] == t.size && mem[t.addr + 4] == 0 && t.addr == cur
      ensures ChangedWithin(old(mem[..]), mem[..], Span(t) + Cover(x))
    {
      hide Segment, Sorted, Cover;
      ghost var m: seq<Word> := mem[..];
      SegmentHead(m, cur, [t] + z);
      assert ([t] + z)[1..] == z;
      var next := mem[cur + 8];
      UnlinkLinked(m, freeList, x, t, z, next);
      mem[cur + 4] := 0;
      if prev != 0 {
        mem[prev + 8] := next;
        mem[cur + 8] := 0;
        assert mem[..] == m[cur + 4 := 0][prev + 8 := next][cur + 8 := 0];
      } else {
        freeList := next;
        mem[cur + 8] := 0;
        assert mem[..] == m[cur + 4 := 0][cur + 8 := 0];
      }
      UnlinkWrites(m, mem[..], x, t, prev);
      assert x != [] ==> Apart(t, x[|x| - 1]);
    }

    /** The first-fit walk: `x` has been passed over, `cur` is the head of `y`. */
    method Search(n: Word, ghost f: seq<Block>) returns (cur: Word, prev: Word, ghost x: seq<Block>, ghost y: seq<Block>)
      requires mem.Length == MEM_SIZE && Segment(mem[..], freeList, f, 0) && NonNull(f)
      ensures f == x + y && Segment(mem[..], freeList, x, cur) && Segment(mem[..], cur, y, 0)
      ensures prev == if x == [] then 0 else x[|x| - 1].addr
      ensures FirstFit(f, n) == |x| && (cur == 0 <==> y == [])
      ensures y != [] ==> n <= y[0].size
      ensures cur == if FirstFit(f, n) < |f| then f[FirstFit(f, n)].addr else 0
    {
      hide Segment, FirstFit, NonNull;
      ghost var m: seq<Word> := mem[..];
      cur, prev, x, y := freeList, 0, [], f;
      SegmentEmpty(m, freeList);
      SegmentEnds(m, freeList, f);
      while cur != 0
        invariant f == x + y && NonNull(y) && Segment(m, freeList, x, cur) && Segment(m, cur, y, 0)
        invariant cur == 0 <==> y == []
        invariant forall i :: 0 <= i < |x| ==> x[i].size < n
        invariant prev == if x == [] then 0 else x[|x| - 1].addr
        decreases |y|
      {
        SegmentHead(m, cur, y);
        if mem[cur + 4] != 0 && mem[cur] >= n {
          FitAt(x, y, n);
          assert f[|x|] == y[0];
          return;
        }
        WalkOn(m, freeList, x, cur, y);
        prev := cur;
        cur := mem[cur + 8];
        x, y := x + [y[0]], y[1..];
      }
      assert x + [] == x;
    }

    /** First-fit search, and allocation from the block it finds. */
    method TakeFit(n: Word, ghost s: Store) returns (ptr: Word)
      requires Represents(s.heap) && Inv(s) && 16 <= n && n % 16 == 0
      modifies this`freeList, mem
      ensures Represents(TryTake(s, n).store.heap) && ptr == TryTake(s, n).ptr
      ensures ChangedWithin(old(mem[..]), mem[..], PageBytes(s.heap.pages) - Cover(s.heap.live))
    {
      hide Segment, LiveHeaders, Sorted, AllWellFormed, NonNull;
      FreeNonNull(s.heap.free);
      var cur, prev, x, y := Search(n, s.heap.free);
      if cur == 0 {
        return 0;
      }
      Detach(cur, prev, n, s, x, y);
      return cur + HEADER_SIZE;
    }

    method Detach(cur: Word, prev: Word, n: Word, ghost s: Store, ghost x: seq<Block>, ghost y: seq<Block>)
      requires mem.Length == MEM_SIZE && Segment(mem[..], freeList, x, cur) && Segment(mem[..], cur, y, 0)
      requires Inv(s) && s.heap.free == x + y && y != [] && 16 <= n <= y[0].size && n % 16 == 0
      requires LiveHeaders(mem[..], s.heap.live) && prev == if x == [] then 0 else x[|x| - 1].addr
      modifies this`freeList, mem
      ensures var h := Allocate(s.heap, |x|, n);
        Segment(mem[..], freeList, h.free, 0) && LiveHeaders(mem[..], h.live)
      ensures ChangedWithin(old(mem[..]), mem[..], PageBytes(s.heap.pages) - Cover(s.heap.live))
      ensures cur == y[0].addr == s.heap.free[|x|].addr && cur < MEM_SIZE
    {
      hide Segment, LiveHeaders, Sorted, AllWellFormed, NonNull, ApartFromAll, ChangedWithin;
      ghost var m: seq<Word> := mem[..];
      PrefixNonNull(x, y);
      CutFacts(x, y, n);
      CutFrom(cur, prev, n, x, y);
      TakenState(s, x, y, n, m, mem[..], freeList);
    }

    /** `kmalloc`. */
    method Kmalloc(size: Word) returns (ptr: Word)
      requires Valid()
      modifies this, mem, pmm.bitmap
      ensures Valid() && Outcome(Content(), ptr) == Malloc(old(Content()), size)
      ensures ChangedWithin(old(mem[..]), mem[..], PageBytes(state.pages) - Cover(old(state.live)))
    {
      hide Represents, Inv, Cover, PageBytes, ChangedWithin, Grow, CanGrow, TryTake, Malloc, Rounded, PagesNeeded, FreeOf, FirstFit;
      ghost var s, m0: seq<Word> := Content(), mem[..];
      SizeOf(this);
      HeapTheorems.MallocKeepsInv(s, size);
      if size == 0 {
        HeapTheorems.MallocZero(s);
        NothingChanged(m0, PageBytes(state.pages) - Cover(state.live));
        return 0;
      }
      MallocUnfold(s, size);
      var n := RoundUp(size);
      ptr := TakeFit(n, s);
      if ptr != 0 {
        state := TryTake(s, n).store.heap;
        return;
      }
      ghost var m1: seq<Word> := mem[..];
      var count := PageCount(n);
      var ok := GrowBy(count);
      ghost var g, m2: seq<Word> := Content(), mem[..];
      GrowAccounts(s, count);
      ChangesGrow(m0, m1, m2, s, g);
      if !ok {
        return 0;
      }
      ptr := TakeFit(n, g);
      state := TryTake(g, n).store.heap;
      ChangesGrow(m0, m2, mem[..], g, g);
    }

    method RoundUp(size: Word) returns (n: Word)
      ensures n == Rounded(size) && 16 <= n && n % 16 == 0
    {
      n := Wrap(size + 15) / 16 * 16;
      if n < MIN_ALLOC {
        n := MIN_ALLOC;
      }
    }

    method PageCount(n: Word) returns (count: nat)
      ensures count == PagesNeeded(n)
    {
      count := Wrap(n + HEADER_SIZE + PAGE_SIZE - 1) / PAGE_SIZE;
    }

    /** The growth loop: adds pages until `count` have come or the pool is empty. */
    method GrowBy(count: nat) returns (ok: bool)
      requires Valid()
      modifies this, mem, pmm.bitmap
      ensures Valid() && Content() == Grow(old(Content()), count) && ok == CanGrow(old(Content()), count)
      ensures ChangedWithin(old(mem[..]), mem[..], PageBytes(state.pages) - Cover(old(state.live)))
    {
      hide Segment, LiveHeaders, Inv, Cover, ChangedWithin, Grow, CanGrow, HeapSpec.AddPage, PageBytes;
      ghost var s, m0: seq<Word> := Content(), mem[..];
      NothingChanged(m0, PageBytes(state.pages) - Cover(state.live));
      var i := 0;
      while i < count
        invariant 0 <= i <= count && Valid()
        invariant Grow(s, count) == Grow(Content(), count - i) && CanGrow(s, count) == CanGrow(Content(), count - i)
        invariant state.live == s.heap.live
        invariant ChangedWithin(m0, mem[..], PageBytes(state.pages) - Cover(s.heap.live))
      {
        ghost var t, m1: seq<Word> := Content(), mem[..];
        GrowUnfold(t, count - i);
        var block := AddPage();
        ChangesGrow(m0, m1, mem[..], t, Content());
        if block == 0 {
          return false;
        }
        i := i + 1;
      }
      GrowUnfold(Content(), 0);
      return true;
    }

    method CutFrom(cur: Word, prev: Word, n: Word, ghost x: seq<Block>, ghost y: seq<Block>)
      requires mem.Length == MEM_SIZE && Segment(mem[..], freeList, x, cur) && Segment(mem[..], cur, y, 0)
      requires y != [] && n <= y[0].size && Sorted(x) && NonNull(x) && Sorted(y) && Cover(x) !! Span(y[0])
      requires ApartFromAll(Taken(y[0], n), x) && ApartFromAll(Taken(y[0], n), Remainder(y[0], n) + y[1..])
      requires x != [] ==> ApartFromAll(x[|x| - 1], Remainder(y[0], n) + y[1..])
      requires prev == if x == [] then 0 else x[|x| - 1].addr
      modifies this`freeList, mem
      ensures Segment(mem[..], freeList, x + (Remainder(y[0], n) + y[1..]), 0)
      ensures cur == y[0].addr && cur + 4 < MEM_SIZE && mem[cur] == Taken(y[0], n).size && mem[cur + 4] == 0
      ensures ChangedWithin(old(mem[..]), mem[..], Cover(x + y))
    {
      hide Segment, Sorted, NonNull, ApartFromAll, Cover, ChangedWithin;
      ghost var m0: seq<Word> := mem[..];
      ghost var t, z := Taken(y[0], n), Remainder(y[0], n) + y[1..];
      SplitFront(cur, n, y);
      ghost var m1: seq<Word> := mem[..];
      SegmentFrame(m0, m1, Span(y[0]), freeList, x, cur);
      Unlink(cur, prev, x, t, z);
      CutChanges(m0, m1, mem[..], x, y, n);
    }
  }

  lemma TakenInside(b: Block, n: nat)
    requires WellFormed(b) && n <= b.size
    ensures InMemory(Taken(b, n)) && Taken(b, n).addr == b.addr
  {
  }

  /** The state after a block has been cut out of the list. */
  lemma TakenState(s: Store, x: seq<Block>, y: seq<Block>, n: nat, m: seq<Word>, m': seq<Word>, head: int)
    requires Inv(s) && s.heap.free == x + y && y != [] && 16 <= n <= y[0].size && n % 16 == 0
    requires LiveHeaders(m, s.heap.live) && ChangedWithin(m, m', Cover(s.heap.free))
    requires Segment(m', head, x + (Remainder(y[0], n) + y[1..]), 0)
    requires y[0].addr + 4 < MEM_SIZE && m'[y[0].addr] == Taken(y[0], n).size && m'[y[0].addr + 4] == 0
    ensures var h := Allocate(s.heap, |x|, n);
      && Segment(m', head, h.free, 0) && LiveHeaders(m', h.live)
      && ChangedWithin(m, m', PageBytes(s.heap.pages) - Cover(s.heap.live))
  {
    hide Segment, Sorted, LiveApart, ApartFromAll, Cover;
    CutFacts(x, y, n);
    assert s.heap.free[|x|] == y[0];
    TakenInside(y[0], n);
    LiveGrows(s.heap, |x|, n, m, m');
    FreeBytesOnly(s, m, m');
  }

  lemma CutFacts(x: seq<Block>, y: seq<Block>, n: nat)
    requires Sorted(x + y) && y != [] && n <= y[0].size
    ensures var t, z := Taken(y[0], n), Remainder(y[0], n) + y[1..];
      && Sorted(x) && Sorted(y) && Cover(x) !! Span(y[0])
      && ApartFromAll(t, x) && ApartFromAll(t, z) && (x != [] ==> ApartFromAll(x[|x| - 1], z))
      && Take(x + y, |x|, n) == x + z
  {
    SortedParts(x, y);
    CutApart(x, y, n);
    CutCovers(x, y, n);
    ApartSpans(y[0], x);
  }

  lemma CutChanges(m0: seq<Word>, m1: seq<Word>, m2: seq<Word>, x: seq<Block>, y: seq<Block>, n: nat)
    requires y != [] && n <= y[0].size
    requires ChangedWithin(m0, m1, Span(y[0])) && ChangedWithin(m1, m2, Span(Taken(y[0], n)) + Cover(x))
    ensures ChangedWithin(m0, m2, Cover(x + y))
  {
    CutCovers(x, y, n);
    ChangedTrans(m0, m1, m2, Cover(x + y), Cover(x + y));
  }

  lemma UnlinkLinked(m: seq<Word>, head: Word, x: seq<Block>, t: Block, z: seq<Block>, next: Word)
    requires Segment(m, head, x, t.addr) && Segment(m, next, z, 0) && next == First(z) && InMemory(t)
    requires Sorted(x) && NonNull(x) && ApartFromAll(t, x) && ApartFromAll(t, z)
    requires x != [] ==> ApartFromAll(x[|x| - 1], z)
    ensures x == [] ==> Segment(m[t.addr + 4 := 0][t.addr + 8 := 0], next, x + z, 0)
    ensures x != [] ==> InMemory(x[|x| - 1]) && Segment(m[t.addr + 4 := 0][x[|x| - 1].addr + 8 := next][t.addr + 8 := 0], head, x + z, 0)
  {
    var m1 := m[t.addr + 4 := 0];
    WriteFrame(m, t, 4, 0, head, x, t.addr);
    WriteFrame(m, t, 4, 0, next, z, 0);
    if x == [] {
      WriteFrame(m1, t, 8, 0, next, z, 0);
      assert x + z == z;
    } else {
      SegmentJoin(m1, head, x, t.addr, z);
      var m2 := m1[x[|x| - 1].addr + 8 := next];
      ApartConcat(t, x, z);
      WriteFrame(m2, t, 8, 0, head, x + z, 0);
    }
  }

  lemma UnlinkWrites(m: seq<Word>, n: seq<Word>, x: seq<Block>, t: Block, prev: int)
    requires |m| == |n| == MEM_SIZE && (x != [] ==> prev == x[|x| - 1].addr)
    requires forall a :: 0 <= a < MEM_SIZE && a != t.addr + 4 && a != t.addr + 8 && (x == [] || a != prev + 8) ==> m[a] == n[a]
    ensures ChangedWithin(m, n, Span(t) + Cover(x))
  {
    HeaderInSpan(t);
    if x != [] {
      CoverMember(x, |x| - 1, prev + 8);
    }
  }

  lemma ApartConcat(t: Block, x: seq<Block>, z: seq<Block>)
    requires ApartFromAll(t, x) && ApartFromAll(t, z)
    ensures ApartFromAll(t, x + z)
  {
  }

  lemma FreeNonNull(f: seq<Block>)
    requires AllWellFormed(f)
    ensures NonNull(f)
  {
    forall i | 0 <= i < |f|
      ensures 0 < f[i].addr
    {
      assert WellFormed(f[i]);
    }
  }

  lemma PrefixNonNull(x: seq<Block>, y: seq<Block>)
    requires AllWellFormed(x + y)
    ensures NonNull(x)
  {
    forall i | 0 <= i < |x|
      ensures 0 < x[i].addr
    {
      assert WellFormed((x + y)[i]);
    }
  }

  lemma SortedParts(x: seq<Block>, y: seq<Block>)
    requires Sorted(x + y) && y != []
    ensures Sorted(x) && Sorted(y) && AllBelow(x, y[0].addr)
    ensures forall i :: 0 < i < |y| ==> y[0].End() <= y[i].addr
  {
    var f := x + y;
    assert forall i :: 0 <= i < |x| ==> f[i] == x[i];
    assert forall i :: 0 <= i < |y| ==> f[|x| + i] == y[i];
  }

  /** Cutting at `y[0]`: the piece taken and what remains lie apart from the rest. */
  lemma CutApart(x: seq<Block>, y: seq<Block>, n: nat)
    requires y != [] && AllBelow(x, y[0].addr) && n <= y[0].size
    requires forall i :: 0 < i < |y| ==> y[0].End() <= y[i].addr
    ensures ApartFromAll(Taken(y[0], n), x) && ApartFromAll(y[0], x)
    ensures ApartFromAll(Taken(y[0], n), Remainder(y[0], n) + y[1..])
    ensures x != [] ==> ApartFromAll(x[|x| - 1], Remainder(y[0], n) + y[1..])
  {
    assert forall i :: 0 <= i < |y[1..]| ==> y[1..][i] == y[i + 1];
  }

  lemma CutCovers(x: seq<Block>, y: seq<Block>, n: nat)
    requires y != [] && n <= y[0].size
    ensures Span(Taken(y[0], n)) <= Span(y[0]) <= Cover(x + y) && Cover(x) <= Cover(x + y)
    ensures Take(x + y, |x|, n) == x + (Remainder(y[0], n) + y[1..])
  {
    CoverConcat(x, y);
    forall a | a in Span(Taken(y[0], n))
      ensures a in Span(y[0])
    {
      assert Holds(y[0], a);
    }
    assert (x + y)[..|x|] == x && (x + y)[|x|] == y[0] && (x + y)[|x| + 1..] == y[1..];
  }

  lemma FitAt(x: seq<Block>, y: seq<Block>, n: nat)
    requires y != [] && n <= y[0].size && forall i :: 0 <= i < |x| ==> x[i].size < n
    ensures FirstFit(x + y, n) == |x|
  {
    assert (x + y)[|x|] == y[0];
    assert forall i :: 0 <= i < |x| ==> (x + y)[i] == x[i];
  }

  lemma LiveGrows(h: Heap, k: nat, n: nat, m: seq<Word>, m': seq<Word>)
    requires Shaped(h) && k < |h.free| && LiveHeaders(m, h.live) && ChangedWithin(m, m', Cover(h.free))
    requires var t := Taken(h.free[k], n); InMemory(t) && m'[t.addr] == t.size && m'[t.addr + 4] == 0
    ensures LiveHeaders(m', Allocate(h, k, n).live)
  {
    LiveUntouched(h, h.live, m, m');
  }

  /** One step along the list, from `x` and `y` to one block more and one less. */
  lemma WalkOn(m: seq<Word>, head: int, x: seq<Block>, cur: int, y: seq<Block>)
    requires Segment(m, head, x, cur) && Segment(m, cur, y, 0) && y != [] && NonNull(y)
    ensures 0 <= cur && cur + 8 < MEM_SIZE && Segment(m, head, x + [y[0]], m[cur + 8]) && Segment(m, m[cur + 8], y[1..], 0)
    ensures NonNull(y[1..]) && (m[cur + 8] == 0 <==> y[1..] == [])
    ensures x + y == x + [y[0]] + y[1..]
  {
    hide Segment, NonNull;
    SegmentHead(m, cur, y);
    SegmentConcat(m, head, x, cur, [y[0]], First(y[1..]));
    NonNullTail(y);
    SegmentEnds(m, m[cur + 8], y[1..]);
    MoveHead(x, y);
  }

  lemma NonNullTail(y: seq<Block>)
    requires y != [] && NonNull(y)
    ensures NonNull(y[1..])
  {
  }

  lemma MoveHead(x: seq<Block>, y: seq<Block>)
    requires y != []
    ensures x + y == x + [y[0]] + y[1..]
  {
  }

  /** The five words `kmalloc` writes to split a block. */
  function SplitWords(m: seq<Word>, cur: nat, n: Word, size: Word, next: Word): (w: seq<Word>)
    requires |m| == MEM_SIZE && cur + HEADER_SIZE + n + HEADER_SIZE <= MEM_SIZE
    ensures |w| == MEM_SIZE
  {
    var r := cur + HEADER_SIZE + n;
    m[r := size][r + 4 := 1][r + 8 := next][cur + 8 := r][cur := n]
  }

  lemma SplitLinked(m: seq<Word>, cur: int, y: seq<Block>, n: Word, size: Word, next: Word)
    requires Segment(m, cur, y, 0) && Sorted(y) && y != [] && Splits(y[0], n)
    requires size == y[0].size - n - HEADER_SIZE && next == First(y[1..])
    ensures InMemory(y[0]) && cur == y[0].addr
    ensures var m' := SplitWords(m, cur, n, size, next);
      && Segment(m', cur, [Taken(y[0], n)] + (Remainder(y[0], n) + y[1..]), 0)
      && ChangedWithin(m, m', Span(y[0]))
  {
    hide Cover, Segment, Sorted, ChangedWithin;
    SegmentHead(m, cur, y);
    RestApart(y, n);
    SplitChanges(m, y[0], n, size, next);
    SplitSegment(m, y[0], y[1..], n, size, next);
  }

  lemma RestApart(y: seq<Block>, n: nat)
    requires y != [] && Sorted(y) && Splits(y[0], n)
    ensures var t, r := Taken(y[0], n), Remainder(y[0], n)[0]; ApartFromAll(r, y[1..]) && ApartFromAll(t, [r] + y[1..])
  {
  }

  lemma SplitChanges(m: seq<Word>, b: Block, n: Word, size: Word, next: Word)
    requires |m| == MEM_SIZE && InMemory(b) && Splits(b, n)
    ensures ChangedWithin(m, SplitWords(m, b.addr, n, size, next), Span(b))
  {
    var r := b.addr + HEADER_SIZE + n;
    HeaderInSpan(b);
    assert Holds(b, r) && Holds(b, r + 4) && Holds(b, r + 8);
  }

  lemma SplitSegment(m: seq<Word>, b: Block, z: seq<Block>, n: Word, size: Word, next: Word)
    requires |m| == MEM_SIZE && InMemory(b) && Splits(b, n) && size == b.size - n - HEADER_SIZE
    requires next == First(z) && Segment(m, next, z, 0) && m[b.addr + 4] == 1
    requires var t, r := Taken(b, n), Remainder(b, n)[0]; ApartFromAll(r, z) && ApartFromAll(t, [r] + z)
    ensures Segment(SplitWords(m, b.addr, n, size, next), b.addr, [Taken(b, n)] + (Remainder(b, n) + z), 0)
  {
    hide Segment, ApartFromAll;
    var t, r := Taken(b, n), Remainder(b, n)[0];
    FillHeader(m, next, z, r, 1, next);
    var m1 := m[r.addr := size][r.addr + 4 := 1][r.addr + 8 := next];
    SegmentCons(m1, r, z, 0);
    WriteFrame(m1, t, 8, r.addr, r.addr, [r] + z, 0);
    var m2 := m1[t.addr + 8 := r.addr];
    WriteFrame(m2, t, 0, n, r.addr, [r] + z, 0);
    SegmentCons(m2[t.addr := n], t, [r] + z, 0);
  }

  lemma SizeOf(k: Kheap)
    requires k.Valid()
    ensures k.mem.Length == MEM_SIZE
  {
  }

  /** Changes before and after a growth step, all outside the live blocks. */
  lemma ChangesGrow(m0: seq<Word>, m1: seq<Word>, m2: seq<Word>, s: Store, g: Store)
    requires s.heap.pages <= g.heap.pages
    requires ChangedWithin(m0, m1, PageBytes(s.heap.pages) - Cover(s.heap.live))
    requires ChangedWithin(m1, m2, PageBytes(g.heap.pages) - Cover(s.heap.live))
    ensures ChangedWithin(m0, m2, PageBytes(g.heap.pages) - Cover(s.heap.live))
  {
    hide Cover;
  }

  /** What holds of a page just taken from the pool. */
  lemma FreshPage(s: Store)
    requires Inv(s) && s.pool != {}
    ensures var b := PageBlock(Min(s.pool));
      && InMemory(b) && 0 < b.addr && ApartFromAll(b, s.heap.free) && Sorted(s.heap.free)
      && Sorted(Insert(s.heap.free, b)) && NonNull(Insert(s.heap.free, b)) && NonNull(s.heap.free)
      && Cover(Insert(s.heap.free, b)) == Cover(s.heap.free) + Span(b)
      && Cover(AddPage(s).heap.free) == Cover(s.heap.free) + Span(b)
      && |AddPage(s).heap.pages| == |s.heap.pages| + 1
      && ListsApart(AddPage(s).heap.free, s.heap.live)
    ensures Inv(AddPage(s))
  {
    var p, f := Min(s.pool), s.heap.free;
    var b := PageBlock(p);
    assert p in s.heap.pages + s.pool;
    PageBlockWellFormed(p);
    AddPageShape(s.heap, p);
    InsertSorted(f, b);
    AddPageKeepsInv(s);
    InsertConserves(f, b);
    CoalesceConserves(Insert(f, b));
  }

  /** What holds of a live block about to be freed. */
  lemma FreedBlock(s: Store, m: seq<Word>, i: nat)
    requires Inv(s) && i < |s.heap.live| && LiveHeaders(m, s.heap.live)
    ensures var b := s.heap.live[i];
      && InMemory(b) && 0 < b.addr && ApartFromAll(b, s.heap.free) && Sorted(s.heap.free)
      && Sorted(Insert(s.heap.free, b)) && NonNull(Insert(s.heap.free, b)) && NonNull(s.heap.free)
      && Cover(Insert(s.heap.free, b)) == Cover(s.heap.free) + Span(b)
      && Cover(FreeAt(s.heap, i).free) == Cover(s.heap.free) + Span(b)
      && ListsApart(FreeAt(s.heap, i).free, FreeAt(s.heap, i).live) && m[b.addr] == b.size
    ensures Inv(s.(heap := FreeAt(s.heap, i)))
  {
    var b, f := s.heap.live[i], s.heap.free;
    assert WellFormed(b);
    InsertSorted(f, b);
    FreeKeepsInv(s, i);
    InsertConserves(f, b);
    CoalesceConserves(Insert(f, b));
  }

  lemma FillHeader(m: seq<Word>, head: int, f: seq<Block>, b: Block, isFree: Word, next: Word)
    requires Segment(m, head, f, 0) && InMemory(b) && ApartFromAll(b, f)
    ensures b.size < 0x1_0000_0000
    ensures var n := m[b.addr := b.size][b.addr + 4 := isFree][b.addr + 8 := next];
      Segment(n, head, f, 0) && ChangedWithin(m, n, Cover(f) + Span(b))
  {
    HeaderInSpan(b);
    WriteFrame(m, b, 0, b.size, head, f, 0);
    var m1 := m[b.addr := b.size];
    WriteFrame(m1, b, 4, isFree, head, f, 0);
    WriteFrame(m1[b.addr + 4 := isFree], b, 8, next, head, f, 0);
  }

  /** Changes confined to free blocks leave the headers of live blocks alone. */
  lemma LiveUntouched(h: Heap, live: seq<Block>, m: seq<Word>, n: seq<Word>)
    requires ListsApart(h.free, live) && LiveHeaders(m, live) && ChangedWithin(m, n, Cover(h.free))
    ensures LiveHeaders(n, live)
  {
    forall j | 0 <= j < |live|
      ensures Span(live[j]) !! Cover(h.free)
    {
      ApartSpans(live[j], h.free);
    }
    LiveHeadersFrame(m, n, Cover(h.free), live);
  }

  lemma LiveRemoved(m: seq<Word>, live: seq<Block>, i: nat)
    requires LiveHeaders(m, live) && i < |live|
    ensures LiveHeaders(m, live[..i] + live[i + 1..])
  {
    var live' := live[..i] + live[i + 1..];
    assert forall j :: 0 <= j < |live'| ==> live'[j] == live[if j < i then j else j + 1];
  }

  lemma FreeBytesOnly(s: Store, m: seq<Word>, n: seq<Word>)
    requires Inv(s) && ChangedWithin(m, n, Cover(s.heap.free))
    ensures ChangedWithin(m, n, PageBytes(s.heap.pages) - Cover(s.heap.live))
  {
    hide Cover;
    FreeOffLive(s.heap.free, s.heap.live);
  }

  lemma FreeOffLive(free: seq<Block>, live: seq<Block>)
    requires ListsApart(free, live)
    ensures Cover(free) !! Cover(live)
  {
    forall a | a in Cover(live)
      ensures a !in Cover(free)
    {
      var j := CoverWitness(live, a);
      ApartSpans(live[j], free);
    }
  }

  predicate AllBelow(x: seq<Block>, a: nat) {
    forall i :: 0 <= i < |x| ==> x[i].End() <= a
  }

  lemma AllBelowAppend(x: seq<Block>, a: nat, c: Block, a': nat)
    requires AllBelow(x, a) && a <= c.End() <= a'
    ensures AllBelow(x + [c], a')
  {
  }

  /** State of the coalescing walk: `x` is done, `y` still to be visited. */
  ghost predicate WalkOk(f: seq<Block>, x: seq<Block>, y: seq<Block>) {
    && Sorted(y) && NonNull(y) && Cover(y) <= Cover(f)
    && (y != [] ==> AllBelow(x, y[0].addr))
    && Coalesce(f) == x + Coalesce(y)
  }

  lemma PassStep(f: seq<Block>, x: seq<Block>, y: seq<Block>, c: Block, z: seq<Block>)
    requires Coalesce(f) == x + Coalesce(y) && Coalesce(y) == [c] + Coalesce(z)
    ensures Coalesce(f) == x + [c] + Coalesce(z)
  {
    hide Coalesce;
    assert x + ([c] + Coalesce(z)) == x + [c] + Coalesce(z);
  }

  lemma WalkStep(f: seq<Block>, x: seq<Block>, y: seq<Block>, c: Block, z: seq<Block>)
    requires WalkOk(f, x, y) && y != [] && Sorted(z) && NonNull(z) && Cover(z) <= Cover(y)
    requires Coalesce(y) == [c] + Coalesce(z) && (z != [] ==> y[0].addr <= c.End() <= z[0].addr)
    ensures WalkOk(f, x + [c], z) && Span(y[0]) <= Cover(f)
  {
    PassStep(f, x, y, c, z);
    if z != [] {
      AllBelowAppend(x, y[0].addr, c, z[0].addr);
    }
  }

  lemma ForwardTail(y: seq<Block>)
    requires y != [] && Sorted(y) && NonNull(y)
    ensures var c, z := Forward(y)[0], Forward(y)[1..];
      && |z| < |y| && Sorted(z) && NonNull(z) && Cover(z) <= Cover(y)
      && Coalesce(y) == [c] + Coalesce(z)
      && (z != [] ==> y[0].addr <= c.End() <= z[0].addr)
  {
    var z := Forward(y)[1..];
    if |y| >= 2 && Adjacent(y[0], y[1]) {
      assert z == y[2..] && y[1..][1..] == y[2..];
    } else {
      assert z == y[1..];
    }
  }

  lemma MarkFree(m: seq<Word>, head: int, f: seq<Block>, b: Block)
    requires Segment(m, head, f, 0) && InMemory(b) && ApartFromAll(b, f)
    ensures Segment(m[b.addr + 4 := 1], head, f, 0)
    ensures ChangedWithin(m, m[b.addr + 4 := 1], Cover(f) + Span(b))
  {
    HeaderInSpan(b);
    WriteFrame(m, b, 4, 1, head, f, 0);
  }

  /** Linking `b` in as the new head. */
  lemma LinkFront(m: seq<Word>, head: Word, f: seq<Block>, b: Block)
    requires Segment(m, head, f, 0) && Sorted(f) && NonNull(f) && ApartFromAll(b, f) && InMemory(b)
    requires m[b.addr] == b.size && m[b.addr + 4] == 1 && (head == 0 || b.addr < head)
    ensures Segment(m[b.addr + 8 := head], b.addr, Insert(f, b), 0)
    ensures ChangedWithin(m, m[b.addr + 8 := head], Cover(f) + Span(b))
  {
    HeaderInSpan(b);
    WriteFrame(m, b, 8, head, head, f, 0);
    SegmentCons(m[b.addr + 8 := head], b, f, 0);
    RankUnique(f, b.addr, 0);
    assert f[..0] + [b] + f[0..] == [b] + f;
  }

  lemma TwoWrites(m: seq<Word>, f: seq<Block>, b: Block, i: nat, v: Word, w: Word)
    requires |m| == MEM_SIZE && InMemory(b) && i < |f| && InMemory(f[i])
    ensures ChangedWithin(m, m[b.addr + 8 := v][f[i].addr + 8 := w], Cover(f) + Span(b))
  {
    HeaderInSpan(b);
    CoverMember(f, i, f[i].addr + 8);
  }

  /** Linking `b` in between the blocks `x` below it and `y` above it. */
  lemma LinkAt(m: seq<Word>, head: int, x: seq<Block>, b: Block, y: seq<Block>)
    requires Segment(m, head, x, First(y)) && Segment(m, First(y), y, 0) && InMemory(b)
    requires Sorted(x + y) && NonNull(x + y) && ApartFromAll(b, x + y)
    requires x != [] && x[|x| - 1].addr < b.addr && (y != [] ==> b.addr <= y[0].addr)
    requires m[b.addr] == b.size && m[b.addr + 4] == 1 && InMemory(x[|x| - 1]) && First(y) < MEM_SIZE
    ensures Segment(m[b.addr + 8 := First(y)][x[|x| - 1].addr + 8 := b.addr], head, Insert(x + y, b), 0)
  {
    InsertPosition(x, b, y);
    LinkBetween(m, head, x, b, y);
  }

  /** Where the insertion walk stops is where the block belongs. */
  lemma InsertPosition(x: seq<Block>, b: Block, y: seq<Block>)
    requires Sorted(x + y) && NonNull(x + y) && InMemory(b) && ApartFromAll(b, x + y)
    requires x != [] && x[|x| - 1].addr < b.addr && (y != [] ==> b.addr <= y[0].addr)
    ensures Insert(x + y, b) == x + ([b] + y)
    ensures Sorted(x) && ApartFromAll(b, x) && ApartFromAll(b, y) && ApartFromAll(x[|x| - 1], [b] + y)
  {
    PartsApart(x, y, b);
    InsertRank(x, b, y);
    hide Rank, Sorted, ApartFromAll;
    var f, k := x + y, |x|;
    assert f[..k] == x && f[k..] == y;
    assert x + [b] + y == x + ([b] + y);
  }

  lemma InsertRank(x: seq<Block>, b: Block, y: seq<Block>)
    requires Sorted(x + y) && ApartFromAll(b, x + y)
    requires x != [] && x[|x| - 1].addr < b.addr && (y != [] ==> b.addr <= y[0].addr)
    ensures Rank(x + y, b.addr) == |x|
  {
    var f, k := x + y, |x|;
    assert k < |f| ==> f[k] == y[0] && Apart(b, f[k]);
    forall i | 0 <= i < k
      ensures f[i].addr <= b.addr
    {
      assert i < k - 1 ==> f[i].End() <= f[k - 1].addr;
    }
    RankUnique(f, b.addr, k);
  }
}
