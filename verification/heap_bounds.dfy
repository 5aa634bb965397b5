/** How much a request takes: the size of what `kmalloc` hands out, from above as well
    as from below, what happens to the rest of the block it was cut from, and which
    addresses leave and join the free list. */
module HeapBounds {
  import opened Machine
  import opened HeapBlocks
  import opened HeapSpec
  import opened HeapTheorems
  import opened HeapGrowth

  /** The store whose list serves the request: as it is when some block has `n` bytes,
      otherwise grown. */
  ghost function Searched(s: Store, n: Word): Store {
    if exists i :: 0 <= i < |s.heap.free| && n <= s.heap.free[i].size then s else Grow(s, PagesNeeded(n))
  }

  predicate Inside(b: Block, a: int) {
    b.addr <= a < b.addr + 16 + b.size
  }

  /** The addresses of a block, header included. */
  function Extent(b: Block): set<int> {
    set a: int | b.addr <= a < b.addr + 16 + b.size && Inside(b, a)
  }

  /** `x` is what stays free of block `c` after `b` was cut from its front. */
  predicate RestOf(x: Block, b: Block, c: Block) {
    x.addr == b.addr + 16 + b.size && x.addr + 16 + x.size == c.addr + 16 + c.size
  }

  /** Block `b` of at least `n` bytes was cut from block `k` of the list `f`, leaving
      `g`: all of block `k` when it has fewer than 32 bytes to spare, otherwise exactly
      `n` bytes, and the rest of it stays. */
  ghost predicate CutFrom(f: seq<Block>, k: nat, n: nat, b: Block, g: seq<Block>) {
    && k < |f| && b.addr == f[k].addr && n <= f[k].size && (forall i :: 0 <= i < k ==> f[i].size < n)
    && b.size == (if f[k].size >= n + 32 then n else f[k].size)
    && (forall x :: x in g <==> (x in f && x != f[k]) || (f[k].size >= n + 32 && RestOf(x, b, f[k])))
    && Cover(g) <= Cover(f) && Cover(f) - Cover(g) == Extent(b)
  }

  lemma ExtentIsSpan(b: Block)
    ensures Extent(b) == Span(b)
  {
    assert forall a :: Inside(b, a) <==> Holds(b, a);
  }

  lemma ApartCover(b: Block, bs: seq<Block>)
    requires ApartFromAll(b, bs)
    ensures Cover(bs) !! Extent(b) && Extent(b) == Span(b)
  {
    ExtentIsSpan(b);
    forall a | a in Cover(bs)
      ensures a !in Extent(b)
    {
      var i := CoverWitness(bs, a);
      assert Apart(b, bs[i]);
    }
  }

  lemma SortedDistinct(f: seq<Block>, i: nat, j: nat)
    requires Sorted(f) && i < |f| && j < |f| && f[i] == f[j]
    ensures i == j
  {
  }

  /** The blocks of the list after a cut. */
  lemma TakeIs(f: seq<Block>, k: nat, n: nat, x: Block)
    requires Sorted(f) && k < |f| && n <= f[k].size
    ensures var b := Taken(f[k], n);
      x in Take(f, k, n) <==> (x in f && x != f[k]) || (f[k].size >= n + 32 && RestOf(x, b, f[k]))
  {
    hide Sorted;
    var c := f[k];
    assert x in Take(f, k, n) <==> x in f[..k] || x in Remainder(c, n) || x in f[k + 1..];
    if x in f && x != c {
      var i :| 0 <= i < |f| && f[i] == x;
      assert i < k ==> f[..k][i] == x;
      assert i > k ==> f[k + 1..][i - (k + 1)] == x;
    }
    if x in f[..k] {
      var i :| 0 <= i < k && f[..k][i] == x;
      if x == c { SortedDistinct(f, i, k); }
    }
    if x in f[k + 1..] {
      var i :| 0 <= i < |f| - (k + 1) && f[k + 1..][i] == x;
      if x == c { SortedDistinct(f, k + 1 + i, k); }
    }
    if c.size >= n + 32 && RestOf(x, Taken(c, n), c) {
      assert x == Remainder(c, n)[0];
    }
  }

  lemma TryTakeCuts(s: Store, n: nat) returns (k: nat)
    requires Inv(s) && 16 <= n && n % 16 == 0 && TryTake(s, n).ptr != 0
    ensures var t := TryTake(s, n).store.heap;
      && |t.live| == |s.heap.live| + 1 && t.live[..|s.heap.live|] == s.heap.live
      && CutFrom(s.heap.free, k, n, t.live[|s.heap.live|], t.free)
      && TryTake(s, n).ptr == t.live[|s.heap.live|].addr + 16
  {
    var f := s.heap.free;
    k := FirstFit(f, n);
    assert Sorted(f) && AllWellFormed(f);
    hide Inv, Sorted, AllWellFormed, Cover, Take, Taken, FirstFit, ApartFromAll;
    var b, g := Taken(f[k], n), Take(f, k, n);
    TakenIs(f[k], n);
    TakeConserves(f, k, n);
    TakeShape(f, k, n);
    ApartCover(b, g);
    forall x
      ensures x in g <==> (x in f && x != f[k]) || (f[k].size >= n + 32 && RestOf(x, b, f[k]))
    {
      TakeIs(f, k, n, x);
    }
  }

  lemma TakenIs(c: Block, n: nat)
    ensures Taken(c, n).addr == c.addr && Taken(c, n).size == if c.size >= n + 32 then n else c.size
  {
  }

  /** A request that succeeds gets the lowest-addressed block that is large enough, cut
      to size: fewer than 32 bytes more than the rounded request, and none more when 32
      are left over; exactly the addresses of what it gets leave the list. */
  lemma MallocCuts(s: Store, size: Word) returns (k: nat)
    requires Inv(s) && Malloc(s, size).ptr != 0
    ensures var n, o := Rounded(size), Malloc(s, size);
      && |o.store.heap.live| == |s.heap.live| + 1 && o.store.heap.live[..|s.heap.live|] == s.heap.live
      && var b := o.store.heap.live[|s.heap.live|];
         && o.ptr == b.addr + 16 && n <= b.size < n + 32
         && CutFrom(Searched(s, n).heap.free, k, n, b, o.store.heap.free)
         && o.store.heap.pages == Searched(s, n).heap.pages && o.store.pool == Searched(s, n).pool
  {
    hide Inv, Grow, CanGrow, Rounded, PagesNeeded, Cover, TryTake;
    var n := Rounded(size);
    RoomIff(s.heap.free, n);
    assert size != 0;
    MallocUnfold(s, size);
    GrowAccounts(s, PagesNeeded(n));
    GrowKeepsInv(s, PagesNeeded(n));
    TakesWhenRoom(s, n);
    k := TryTakeCuts(Searched(s, n), n);
  }

  lemma TakesWhenRoom(s: Store, n: nat)
    requires Inv(s)
    ensures TryTake(s, n).ptr != 0 <==> HasRoom(s.heap.free, n)
  {
  }

  /** Freeing a live block takes it, and it alone, from the live blocks, and gives the
      free list exactly its addresses. */
  lemma ReleaseGives(s: Store, i: nat)
    requires Inv(s) && i < |s.heap.live|
    ensures var b := s.heap.live[i];
      && IsLive(s.heap, b.addr + 16)
      && var t := Release(s, b.addr + 16);
         && t.heap.live == s.heap.live[..i] + s.heap.live[i + 1..]
         && Cover(t.heap.free) == Cover(s.heap.free) + Extent(b)
         && t.heap.pages == s.heap.pages && t.pool == s.pool
  {
    hide Cover, Insert, Coalesce, Tiled, Pairs;
    LiveIndexUnique(s.heap, i);
    InsertConserves(s.heap.free, s.heap.live[i]);
    CoalesceConserves(Insert(s.heap.free, s.heap.live[i]));
    ExtentIsSpan(s.heap.live[i]);
  }

  // ---------- sizes ----------

  /** The size looked for is the request rounded up to a multiple of 16; the last
      fifteen sizes wrap to 16. */
  lemma RoundedIs(size: Word)
    ensures size == 0 ==> Rounded(size) == 16
    ensures 0 < size <= 0xFFFF_FFF0 ==> Rounded(size) % 16 == 0 && size <= Rounded(size) < size + 16
    ensures 0xFFFF_FFF0 < size ==> Rounded(size) == 16
  {
  }

  /** The pages asked for are as few as hold the size and a header; none when that sum
      does not fit in a word. */
  lemma PagesNeededIs(n: Word)
    requires n <= 0xFFFF_FFF0
    ensures var k := PagesNeeded(n);
      if n <= 0xFFFF_EFF0 then (k - 1) * 4096 < n + 16 <= k * 4096 else k == 0
  {
    var sum := n + HEADER_SIZE + PAGE_SIZE - 1;
    assert Wrap(sum) == if sum < 0x1_0000_0000 then sum else sum - 0x1_0000_0000;
  }
}
