/** The kernel heap as a transition system: what `kmalloc`, `kfree` and page
    growth do to the free list, the live blocks and the page pool, and what every
    run of them keeps. */
module HeapSpec {
  import opened Machine
  import opened HeapBlocks

  const INITIAL_PAGES := 16

  /** `free` is the free list in list order, `live` the blocks handed out and
      not yet freed, `pages` the page numbers taken from the page pool. */
  datatype Heap = Heap(free: seq<Block>, live: seq<Block>, pages: set<nat>)

  /** A heap together with the pool of free pages it grows from. */
  datatype Store = Store(heap: Heap, pool: set<nat>)

  datatype Outcome = Outcome(store: Store, ptr: nat)

  // ---------- operations ----------

  /** The size `kmalloc` actually looks for: rounded up to 16 with 32-bit
      wrap-around, and at least 16. */
  function Rounded(size: Word): (n: Word)
    ensures 16 <= n && n % 16 == 0
  {
    var r := Wrap(size + 15) / 16 * 16;
    if r < MIN_ALLOC then MIN_ALLOC else r
  }

  function PagesNeeded(n: Word): nat {
    Wrap(n + HEADER_SIZE + PAGE_SIZE - 1) / PAGE_SIZE
  }

  /** Index of the first block with room for `n` bytes, or the list's length. */
  function FirstFit(f: seq<Block>, n: nat): (k: nat)
    ensures k <= |f|
    ensures forall i :: 0 <= i < k ==> f[i].size < n
    ensures k < |f| ==> n <= f[k].size
  {
    if f == [] || n <= f[0].size then 0 else 1 + FirstFit(f[1..], n)
  }

  predicate Splits(b: Block, n: nat) {
    n + HEADER_SIZE + MIN_ALLOC <= b.size
  }

  function Taken(b: Block, n: nat): Block {
    if Splits(b, n) then Block(b.addr, n) else b
  }

  /** What stays on the free list when `n` bytes are cut from the front of `b`. */
  function Remainder(b: Block, n: nat): seq<Block> {
    if Splits(b, n) then [Block(b.addr + HEADER_SIZE + n, b.size - n - HEADER_SIZE)] else []
  }

  function Take(f: seq<Block>, k: nat, n: nat): seq<Block>
    requires k < |f|
  {
    f[..k] + Remainder(f[k], n) + f[k + 1..]
  }

  function Allocate(h: Heap, k: nat, n: nat): Heap
    requires k < |h.free|
  {
    h.(free := Take(h.free, k, n), live := h.live + [Taken(h.free[k], n)])
  }

  function PageBlock(p: nat): Block {
    Block(p * PAGE_SIZE, PAGE_SIZE - HEADER_SIZE)
  }

  ghost function AddPage(s: Store): Store {
    if s.pool == {} then s
    else
      var p := Min(s.pool);
      Store(Heap(Coalesce(Insert(s.heap.free, PageBlock(p))), s.heap.live, s.heap.pages + {p}), s.pool - {p})
  }

  /** Adds up to `count` pages, stopping when the pool is empty. */
  ghost function Grow(s: Store, count: nat): Store
    decreases count
  {
    if count == 0 || s.pool == {} then s else Grow(AddPage(s), count - 1)
  }

  /** Whether `Grow` obtains all the pages it asks for. */
  ghost predicate CanGrow(s: Store, count: nat)
    decreases count
  {
    count == 0 || (s.pool != {} && CanGrow(AddPage(s), count - 1))
  }

  lemma GrowUnfold(s: Store, count: nat)
    ensures count == 0 ==> Grow(s, count) == s && CanGrow(s, count)
    ensures count > 0 && s.pool == {} ==> Grow(s, count) == s && !CanGrow(s, count) && AddPage(s) == s
    ensures count > 0 && s.pool != {} ==>
      Grow(s, count) == Grow(AddPage(s), count - 1) && CanGrow(s, count) == CanGrow(AddPage(s), count - 1)
    ensures AddPage(s).heap.live == s.heap.live && s.heap.pages <= AddPage(s).heap.pages
  {
  }

  ghost function TryTake(s: Store, n: nat): Outcome {
    var k := FirstFit(s.heap.free, n);
    if k < |s.heap.free| then Outcome(s.(heap := Allocate(s.heap, k, n)), s.heap.free[k].addr + HEADER_SIZE)
    else Outcome(s, 0)
  }

  ghost function Malloc(s: Store, size: Word): Outcome {
    if size == 0 then Outcome(s, 0)
    else
      var n := Rounded(size);
      if FirstFit(s.heap.free, n) < |s.heap.free| then TryTake(s, n)
      else
        var g := Grow(s, PagesNeeded(n));
        if CanGrow(s, PagesNeeded(n)) then TryTake(g, n) else Outcome(g, 0)
  }

  lemma MallocUnfold(s: Store, size: Word)
    requires size != 0
    ensures var n := Rounded(size);
      var g := Grow(s, PagesNeeded(n));
      && TryTake(s, n).store.pool == s.pool && TryTake(s, n).store.heap.pages == s.heap.pages
      && TryTake(g, n).store.pool == g.pool && TryTake(g, n).store.heap.pages == g.heap.pages
      && (TryTake(s, n).ptr != 0 ==> Malloc(s, size) == TryTake(s, n))
      && (TryTake(s, n).ptr == 0 ==>
            && TryTake(s, n).store == s
            && Malloc(s, size) == if CanGrow(s, PagesNeeded(n)) then TryTake(g, n) else Outcome(g, 0))
  {
  }

  predicate IsLive(h: Heap, ptr: nat) {
    exists i :: 0 <= i < |h.live| && h.live[i].addr + HEADER_SIZE == ptr
  }

  /** `kfree` of the live block with index `i`. */
  function FreeAt(h: Heap, i: nat): Heap
    requires i < |h.live|
  {
    Heap(Coalesce(Insert(h.free, h.live[i])), h.live[..i] + h.live[i + 1..], h.pages)
  }

  function LiveIndex(live: seq<Block>, ptr: nat): (i: nat)
    requires exists i :: 0 <= i < |live| && live[i].addr + HEADER_SIZE == ptr
    ensures i < |live| && live[i].addr + HEADER_SIZE == ptr
  {
    if live[0].addr + HEADER_SIZE == ptr then 0
    else
      assert exists i :: 0 <= i < |live[1..]| && live[1..][i].addr + HEADER_SIZE == ptr by {
        var i :| 0 <= i < |live| && live[i].addr + HEADER_SIZE == ptr;
        assert live[1..][i - 1] == live[i];
      }
      1 + LiveIndex(live[1..], ptr)
  }

  ghost function Release(s: Store, ptr: nat): Store
    requires ptr == 0 || IsLive(s.heap, ptr)
  {
    if ptr == 0 then s else s.(heap := FreeAt(s.heap, LiveIndex(s.heap.live, ptr)))
  }

  // ---------- the invariant ----------

  ghost function PageBytes(pages: set<nat>): set<int> {
    set a: int | 0 <= a < MEM_SIZE && PageOf(a) in pages
  }

  ghost predicate LiveApart(live: seq<Block>) {
    forall i, j :: 0 <= i < j < |live| ==> Apart(live[i], live[j])
  }

  ghost predicate ListsApart(free: seq<Block>, live: seq<Block>) {
    forall j :: 0 <= j < |live| ==> ApartFromAll(live[j], free)
  }

  /** List shape: sorted, well-formed blocks that do not overlap, free or live. */
  ghost predicate Shaped(h: Heap) {
    && Sorted(h.free) && AllWellFormed(h.free) && AllWellFormed(h.live)
    && LiveApart(h.live) && ListsApart(h.free, h.live)
  }

  /** Byte tiling: the blocks cover exactly the heap's pages. */
  ghost predicate Tiled(h: Heap) {
    && Cover(h.free) + Cover(h.live) == PageBytes(h.pages)
    && Bytes(h.free) + Bytes(h.live) == PAGE_SIZE * |h.pages|
  }

  ghost predicate Inv(s: Store) {
    && Shaped(s.heap) && Tiled(s.heap)
    && Pairs(s.heap.free) <= 1
    && s.heap.pages !! s.pool
    && (forall p :: p in s.heap.pages + s.pool ==> 0 < p < TOTAL_PAGES)
  }

  // ---------- page growth ----------

  lemma PageBytesAdd(pages: set<nat>, p: nat)
    requires p < TOTAL_PAGES
    ensures PageBytes(pages + {p}) == PageBytes(pages) + Span(PageBlock(p))
  {
    forall a: int
      ensures a in PageBytes(pages + {p}) <==> a in PageBytes(pages) + Span(PageBlock(p))
    {
      assert Holds(PageBlock(p), a) <==> 0 <= a && PageOf(a) == p;
    }
  }

  /** A block of the heap lies apart from any page the heap does not own. */
  lemma BlockOffPage(bs: seq<Block>, i: nat, pages: set<nat>, p: nat)
    requires i < |bs| && Cover(bs) <= PageBytes(pages) && p !in pages
    ensures Apart(bs[i], PageBlock(p)) && Apart(PageBlock(p), bs[i])
  {
    var b := bs[i];
    var q := PageBlock(p);
    var a := if b.addr <= q.addr then q.addr else b.addr;
    if Holds(b, a) {
      CoverMember(bs, i, a);
      assert a in PageBytes(pages);
    }
  }

  lemma PageBlockWellFormed(p: nat)
    requires 0 < p < TOTAL_PAGES
    ensures WellFormed(PageBlock(p))
  {
    assert p * PAGE_SIZE == 16 * (p * 256);
  }

  lemma AddPageShape(h: Heap, p: nat)
    requires Shaped(h) && Pairs(h.free) <= 1 && p !in h.pages && 0 < p < TOTAL_PAGES
    requires Cover(h.free) <= PageBytes(h.pages) && Cover(h.live) <= PageBytes(h.pages)
    ensures ApartFromAll(PageBlock(p), h.free)
    ensures ListsApart(Coalesce(Insert(h.free, PageBlock(p))), h.live)
  {
    var b := PageBlock(p);
    forall i | 0 <= i < |h.free|
      ensures Apart(b, h.free[i])
    {
      BlockOffPage(h.free, i, h.pages, p);
    }
    forall j | 0 <= j < |h.live|
      ensures ApartFromAll(h.live[j], Coalesce(Insert(h.free, b)))
    {
      BlockOffPage(h.live, j, h.pages, p);
      InsertApart(h.free, b, h.live[j]);
      CoalesceApart(Insert(h.free, b), h.live[j]);
    }
  }

  lemma AddPageKeepsInv(s: Store)
    requires Inv(s) && s.pool != {}
    ensures Inv(AddPage(s))
  {
    hide Sorted, AllWellFormed, Cover, Bytes, Pairs, Coalesce, Insert, ApartFromAll, LiveApart, PageBytes, ListsApart;
    var h, p := s.heap, Min(s.pool);
    var g := Coalesce(Insert(h.free, PageBlock(p)));
    var s' := AddPage(s);
    assert 0 < p < TOTAL_PAGES by { assert p in h.pages + s.pool; }
    assert p !in h.pages;
    assert Tiled(s'.heap) by { AddPageTiled(h, p); }
    assert ApartFromAll(PageBlock(p), h.free) && ListsApart(g, h.live) by {
      AddPageShape(h, p);
    }
    assert Sorted(g) && AllWellFormed(g) && Pairs(g) <= 1 by {
      PageBlockWellFormed(p);
      InsertCoalesceKeepsShape(h.free, PageBlock(p));
    }
    assert s'.heap.pages + s'.pool == h.pages + s.pool;
  }

  lemma AddPageTiled(h: Heap, p: nat)
    requires Tiled(h) && p !in h.pages && p < TOTAL_PAGES
    ensures Tiled(Heap(Coalesce(Insert(h.free, PageBlock(p))), h.live, h.pages + {p}))
  {
    var g := Insert(h.free, PageBlock(p));
    InsertConserves(h.free, PageBlock(p));
    CoalesceConserves(g);
    PageBytesAdd(h.pages, p);
  }

  lemma InsertCoalesceKeepsShape(f: seq<Block>, b: Block)
    requires Sorted(f) && AllWellFormed(f) && WellFormed(b) && ApartFromAll(b, f) && Pairs(f) <= 1
    ensures var g := Coalesce(Insert(f, b));
      && Sorted(g) && AllWellFormed(g) && Pairs(g) <= 1
      && Bytes(g) == Bytes(f) + HEADER_SIZE + b.size
      && Cover(g) == Cover(f) + Span(b)
  {
    var g := Insert(f, b);
    InsertSorted(f, b);
    InsertConserves(f, b);
    CoalesceSorted(g);
    CoalesceConserves(g);
    CoalesceHalvesPairs(g);
  }

  lemma {:induction false} GrowKeepsInv(s: Store, count: nat)
    requires Inv(s)
    ensures Inv(Grow(s, count))
    decreases count
  {
    hide Inv, AddPage;
    if count > 0 && s.pool != {} {
      AddPageKeepsInv(s);
      GrowKeepsInv(AddPage(s), count - 1);
    }
  }

  /** Growing moves pages from the pool to the heap and touches no live block;
      it falls short only when the pool is empty. */
  lemma {:induction false} GrowAccounts(s: Store, count: nat)
    ensures Grow(s, count).heap.live == s.heap.live
    ensures s.heap.pages <= Grow(s, count).heap.pages
    ensures Grow(s, count).pool + Grow(s, count).heap.pages == s.pool + s.heap.pages
    ensures !CanGrow(s, count) ==> Grow(s, count).pool == {}
    decreases count
  {
    if count > 0 && s.pool != {} {
      GrowAccounts(AddPage(s), count - 1);
    }
  }

  // ---------- allocation ----------

  lemma TakeConserves(f: seq<Block>, k: nat, n: nat)
    requires k < |f| && n <= f[k].size
    ensures Bytes(Take(f, k, n)) + HEADER_SIZE + Taken(f[k], n).size == Bytes(f)
    ensures Cover(Take(f, k, n)) + Span(Taken(f[k], n)) == Cover(f)
  {
    hide Bytes, Cover, Span;
    var x, y, b := f[..k], f[k + 1..], f[k];
    var r := Remainder(b, n);
    assert f == x + [b] + y;
    BytesAround(x, b, y);
    CoverAround(x, b, y);
    if Splits(b, n) {
      assert x + r + y == x + [r[0]] + y;
      BytesAround(x, r[0], y);
      CoverAround(x, r[0], y);
      SpanMerge(Taken(b, n), r[0]);
      assert Merge(Taken(b, n), r[0]) == b;
    } else {
      assert x + r + y == x + y;
    }
  }

  lemma PairsAround(x: seq<Block>, b: Block, y: seq<Block>)
    ensures Pairs(x + [b] + y) == Pairs(x) + Touch(x, [b]) + Touch([b], y) + Pairs(y)
  {
    PairsConcat(x, [b]);
    PairsConcat(x + [b], y);
  }

  /** Replacing a block by one that starts later and ends where it did makes no
      new touching pair. */
  lemma CutPairs(x: seq<Block>, b: Block, c: Block, y: seq<Block>)
    requires (x != [] ==> x[|x| - 1].End() <= b.addr) && b.addr < c.addr && c.End() == b.End()
    ensures Pairs(x + [c] + y) <= Pairs(x + [b] + y)
  {
    hide Pairs;
    PairsAround(x, b, y);
    PairsAround(x, c, y);
  }

  /** Nor does removing a block. */
  lemma DropPairs(x: seq<Block>, b: Block, y: seq<Block>)
    requires (x != [] ==> x[|x| - 1].End() <= b.addr) && (y != [] ==> b.End() <= y[0].addr)
    ensures Pairs(x + y) <= Pairs(x + [b] + y)
  {
    hide Pairs;
    PairsAround(x, b, y);
    PairsConcat(x, y);
  }

  lemma TakePairs(f: seq<Block>, k: nat, n: nat)
    requires Sorted(f) && k < |f| && n <= f[k].size
    ensures Pairs(Take(f, k, n)) <= Pairs(f)
  {
    hide Pairs;
    var x, y, b := f[..k], f[k + 1..], f[k];
    assert k > 0 ==> x[k - 1].End() <= b.addr;
    assert y != [] ==> b.End() <= y[0].addr;
    assert f == x + [b] + y;
    if Splits(b, n) {
      CutPairs(x, b, Remainder(b, n)[0], y);
    } else {
      DropPairs(x, b, y);
      assert x + [] == x;
    }
  }

  lemma TakeShape(f: seq<Block>, k: nat, n: nat)
    requires Sorted(f) && AllWellFormed(f) && k < |f| && 16 <= n <= f[k].size && n % 16 == 0
    ensures Sorted(Take(f, k, n)) && AllWellFormed(Take(f, k, n)) && WellFormed(Taken(f[k], n))
    ensures ApartFromAll(Taken(f[k], n), Take(f, k, n))
  {
    hide WellFormed;
    assert WellFormed(f[k]);
    CutWellFormed(f[k], n);
    TakeMembers(f, k, n);
    TakeSorted(f, k, n);
  }

  /** What the list holds after a block was taken. */
  lemma TakeMembers(f: seq<Block>, k: nat, n: nat)
    requires k < |f|
    ensures var g, d := Take(f, k, n), |Remainder(f[k], n)|;
      |g| == |f| - 1 + d && forall i :: 0 <= i < |g| ==>
        g[i] == if i < k then f[i] else if i < k + d then Remainder(f[k], n)[0] else f[i + 1 - d]
  {
  }

  lemma TakeSorted(f: seq<Block>, k: nat, n: nat)
    requires Sorted(f) && k < |f| && n <= f[k].size
    ensures Sorted(Take(f, k, n)) && ApartFromAll(Taken(f[k], n), Take(f, k, n))
  {
    TakeMembers(f, k, n);
    hide Take;
  }

  lemma CutWellFormed(b: Block, n: nat)
    requires WellFormed(b) && 16 <= n <= b.size && n % 16 == 0
    ensures WellFormed(Taken(b, n)) && forall r :: r in Remainder(b, n) ==> WellFormed(r)
  {
  }

  lemma TakeApart(f: seq<Block>, k: nat, n: nat, c: Block)
    requires k < |f| && n <= f[k].size && ApartFromAll(c, f)
    ensures ApartFromAll(c, Take(f, k, n)) && Apart(c, Taken(f[k], n))
  {
    assert Apart(c, f[k]);
  }

  lemma AllocateShape(h: Heap, k: nat, n: nat)
    requires Shaped(h) && k < |h.free| && 16 <= n <= h.free[k].size && n % 16 == 0
    ensures Shaped(Allocate(h, k, n))
  {
    hide Sorted, WellFormed, Take, Taken;
    var t := Taken(h.free[k], n);
    TakeShape(h.free, k, n);
    forall j | 0 <= j < |h.live|
      ensures ApartFromAll(h.live[j], Take(h.free, k, n)) && Apart(h.live[j], t)
    {
      TakeApart(h.free, k, n, h.live[j]);
    }
  }

  lemma AllocateTiled(h: Heap, k: nat, n: nat)
    requires Tiled(h) && k < |h.free| && n <= h.free[k].size
    ensures Tiled(Allocate(h, k, n))
  {
    hide Bytes, Cover, Span, Take, Taken, PageBytes;
    var t := Taken(h.free[k], n);
    TakeConserves(h.free, k, n);
    OneBlock(t);
    BytesConcat(h.live, [t]);
    CoverConcat(h.live, [t]);
  }

  lemma AllocateKeepsInv(s: Store, k: nat, n: nat)
    requires Inv(s) && k < |s.heap.free| && 16 <= n <= s.heap.free[k].size && n % 16 == 0
    ensures Inv(s.(heap := Allocate(s.heap, k, n)))
  {
    hide Shaped, Tiled, Pairs, Take, Taken;
    SortedFree(s);
    AllocateShape(s.heap, k, n);
    AllocateTiled(s.heap, k, n);
    TakePairs(s.heap.free, k, n);
  }

  lemma SortedFree(s: Store)
    requires Inv(s)
    ensures Sorted(s.heap.free)
  {
  }

  // ---------- freeing ----------

  lemma FreeShape(h: Heap, i: nat)
    requires Shaped(h) && i < |h.live|
    ensures ListsApart(FreeAt(h, i).free, FreeAt(h, i).live)
    ensures LiveApart(FreeAt(h, i).live) && AllWellFormed(FreeAt(h, i).live)
  {
    var b := h.live[i];
    var live' := h.live[..i] + h.live[i + 1..];
    assert forall j :: 0 <= j < |live'| ==> live'[j] == h.live[if j < i then j else j + 1];
    forall j | 0 <= j < |live'|
      ensures ApartFromAll(live'[j], Coalesce(Insert(h.free, b)))
    {
      InsertApart(h.free, b, live'[j]);
      CoalesceApart(Insert(h.free, b), live'[j]);
    }
  }

  lemma LiveBytes(live: seq<Block>, i: nat)
    requires i < |live|
    ensures Bytes(live) == Bytes(live[..i] + live[i + 1..]) + HEADER_SIZE + live[i].size
  {
    hide Bytes;
    assert live == live[..i] + [live[i]] + live[i + 1..];
    BytesAround(live[..i], live[i], live[i + 1..]);
  }

  lemma LiveCover(live: seq<Block>, i: nat)
    requires i < |live|
    ensures Cover(live) == Cover(live[..i] + live[i + 1..]) + Span(live[i])
  {
    hide Cover, Span;
    assert live == live[..i] + [live[i]] + live[i + 1..];
    CoverAround(live[..i], live[i], live[i + 1..]);
  }

  lemma FreeKeepsInv(s: Store, i: nat)
    requires Inv(s) && i < |s.heap.live|
    ensures Inv(s.(heap := FreeAt(s.heap, i)))
  {
    var h := s.heap;
    FreeShape(h, i);
    LiveBytes(h.live, i);
    LiveCover(h.live, i);
    InsertCoalesceKeepsShape(h.free, h.live[i]);
  }
}
