/** Growth on any pool, gaps included: when the retry of a large request finds room,
    said in bytes rather than in list elements. */
module HeapGaps {
  import opened Machine
  import opened HeapBlocks
  import opened HeapSpec
  import opened HeapGrowth

  // ---------- room, in bytes ----------

  /** All of the `len` bytes from `a` on are in `bytes`. */
  ghost predicate Stretch(bytes: set<int>, a: int, len: nat) {
    forall b :: a <= b < a + len ==> b in bytes
  }

  /** Two list elements meet at `e` without having been merged. */
  ghost predicate Seam(f: seq<Block>, e: int) {
    exists j :: 0 <= j < |f| - 1 && Adjacent(f[j], f[j + 1]) && f[j].End() == e
  }

  /** A stretch of free bytes that crosses no seam. */
  ghost predicate Unbroken(f: seq<Block>, a: int, len: nat) {
    Stretch(Cover(f), a, len) && forall e :: a < e < a + len ==> !Seam(f, e)
  }

  /** Room for `n` bytes and a header at `a`. */
  ghost predicate FitsAt(f: seq<Block>, a: int, n: nat) {
    Unbroken(f, a, n + HEADER_SIZE)
  }

  lemma BlockUnbroken(f: seq<Block>, i: nat, n: nat)
    requires Sorted(f) && i < |f| && n <= f[i].size
    ensures Unbroken(f, f[i].addr, n + HEADER_SIZE)
  {
    hide Cover;
    var b := f[i];
    forall a | b.addr <= a < b.addr + n + HEADER_SIZE ensures a in Cover(f) {
      CoverMember(f, i, a);
    }
    forall e | b.addr < e < b.addr + n + HEADER_SIZE ensures !Seam(f, e) {
      SeamOutside(f, i, e);
    }
  }

  lemma SeamOutside(f: seq<Block>, i: nat, e: int)
    requires Sorted(f) && i < |f| && f[i].addr < e < f[i].End()
    ensures !Seam(f, e)
  {
    forall j | 0 <= j < |f| - 1 && Adjacent(f[j], f[j + 1]) ensures f[j].End() != e {
      assert j < i ==> f[j].End() <= f[i].addr;
      assert i < j ==> f[i].End() <= f[j].addr;
    }
  }

  /** The block that holds the first byte holds the whole stretch. */
  lemma UnbrokenInBlock(f: seq<Block>, a: int, len: nat) returns (i: nat)
    requires Sorted(f) && Unbroken(f, a, len) && len > 0
    ensures i < |f| && f[i].addr <= a && a + len <= f[i].End()
  {
    hide Cover;
    assert a in Cover(f);
    i := CoverWitness(f, a);
    var e := f[i].End();
    if e < a + len {
      assert e in Cover(f) && !Seam(f, e);
      var j := CoverWitness(f, e);
      NextHolder(f, i, j, e);
      assert false;
    }
  }

  lemma NextHolder(f: seq<Block>, i: nat, j: nat, e: int)
    requires Sorted(f) && i < |f| && j < |f| && f[i].End() == e && Holds(f[j], e)
    ensures Seam(f, e)
  {
    hide Sorted;
    if j < i {
      InOrder(f, j, i);
      assert false;
    } else if i + 1 < j {
      InOrder(f, i, i + 1);
      InOrder(f, i + 1, j);
      assert false;
    } else if i == j {
      assert false;
    }
    InOrder(f, i, i + 1);
    assert Adjacent(f[i], f[i + 1]);
  }

  lemma InOrder(f: seq<Block>, i: nat, j: nat)
    requires Sorted(f) && i < j < |f|
    ensures f[i].End() <= f[j].addr
  {
  }

  /** A list has room for `n` bytes if and only if its bytes contain an unbroken
      stretch for them and a header. */
  lemma RoomIffUnbroken(f: seq<Block>, n: nat)
    requires Sorted(f)
    ensures HasRoom(f, n) <==> exists a :: FitsAt(f, a, n)
  {
    hide HasRoom, Unbroken, Sorted;
    RoomIff(f, n);
    if i :| 0 <= i < |f| && n <= f[i].size {
      BlockUnbroken(f, i, n);
      assert FitsAt(f, f[i].addr, n);
    }
    if a :| FitsAt(f, a, n) {
      var i := UnbrokenInBlock(f, a, n + HEADER_SIZE);
    }
  }

  /** The list has a seam exactly when it has a touching pair. */
  lemma {:induction false} SeamlessIff(f: seq<Block>)
    ensures Pairs(f) == 0 <==> forall e :: !Seam(f, e)
    decreases |f|
  {
    if |f| >= 2 {
      SeamlessIff(f[1..]);
      SeamTail(f);
    }
  }

  lemma SeamTail(f: seq<Block>)
    requires |f| >= 2
    ensures (exists e :: Seam(f, e)) <==> Adjacent(f[0], f[1]) || exists e :: Seam(f[1..], e)
  {
    if Adjacent(f[0], f[0 + 1]) {
      assert Seam(f, f[0].End());
    }
    if e :| Seam(f[1..], e) {
      var j :| 0 <= j < |f[1..]| - 1 && Adjacent(f[1..][j], f[1..][j + 1]) && f[1..][j].End() == e;
      assert f[j + 1] == f[1..][j] && f[j + 1 + 1] == f[1..][j + 1];
      assert Seam(f, e);
    }
    if e :| Seam(f, e) {
      var j :| 0 <= j < |f| - 1 && Adjacent(f[j], f[j + 1]) && f[j].End() == e;
      if j > 0 {
        assert f[1..][j - 1] == f[j] && f[1..][j - 1 + 1] == f[j + 1];
        assert Seam(f[1..], e);
      }
    }
  }

  // ---------- what growth makes free ----------

  /** The free bytes are those of the heap's pages that no live block covers. */
  lemma FreeBytes(s: Store)
    requires Inv(s)
    ensures Cover(s.heap.free) == PageBytes(s.heap.pages) - Cover(s.heap.live)
  {
    hide Bytes, Cover, Span, PageBytes;
    ListsCoverApart(s.heap.free, s.heap.live);
  }

  lemma {:induction false} ListsCoverApart(free: seq<Block>, live: seq<Block>)
    requires ListsApart(free, live)
    ensures Cover(free) !! Cover(live)
  {
    hide Cover;
    forall a | a in Cover(free) ensures a !in Cover(live) {
      if a in Cover(live) {
        var i := CoverWitness(free, a);
        var j := CoverWitness(live, a);
        ApartPair(live[j], free, i);
        assert false;
      }
    }
  }

  lemma ApartPair(b: Block, bs: seq<Block>, i: nat)
    requires ApartFromAll(b, bs) && i < |bs|
    ensures Apart(b, bs[i])
  {
  }

  /** Growth gets its pages exactly when the pool has them. */
  lemma {:induction false} CanGrowIff(s: Store, k: nat)
    ensures CanGrow(s, k) <==> k <= |s.pool|
    decreases k
  {
    hide Coalesce, Insert;
    if k > 0 && s.pool != {} {
      CanGrowIff(AddPage(s), k - 1);
    }
  }

  /** It takes the lowest ones. */
  lemma {:induction false} GrowLowest(s: Store, k: nat)
    requires k <= |s.pool|
    ensures Grow(s, k).pool <= s.pool && |s.pool - Grow(s, k).pool| == k
    ensures forall q, r :: q in s.pool - Grow(s, k).pool && r in Grow(s, k).pool ==> q < r
    decreases k
  {
    hide Grow, CanGrow, Coalesce, Insert;
    GrowUnfold(s, k);
    if k > 0 {
      var t, g := AddPage(s), Grow(s, k).pool;
      GrowLowest(t, k - 1);
      assert s.pool - g == {Min(s.pool)} + (t.pool - g);
    } else {
      assert s.pool - s.pool == {};
    }
  }

  lemma TakeIff(s: Store, n: nat)
    ensures TryTake(s, n).ptr != 0 <==> HasRoom(s.heap.free, n)
  {
  }

  /** A large request that nothing on the list fits succeeds if and only if the pool
      has the pages it asks for and, with the lowest of them added, the heap's bytes
      outside live blocks contain an unbroken stretch for it. */
  lemma GrownMallocIff(s: Store, size: Word)
    requires Inv(s) && size != 0 && !HasRoom(s.heap.free, Rounded(size))
    ensures var n := Rounded(size);
      var g := Grow(s, PagesNeeded(n));
      && (Malloc(s, size).ptr != 0 <==>
            PagesNeeded(n) <= |s.pool| && exists a :: FitsAt(g.heap.free, a, n))
      && Cover(g.heap.free) == PageBytes(g.heap.pages) - Cover(s.heap.live) && Pairs(g.heap.free) <= 1
  {
    hide Grow, CanGrow, FitsAt, Cover, PageBytes, Pairs, Sorted, Malloc, TryTake, HasRoom;
    var n := Rounded(size);
    var k := PagesNeeded(n);
    MallocUnfold(s, size);
    TakeIff(s, n);
    TakeIff(Grow(s, k), n);
    CanGrowIff(s, k);
    GrowKeepsInv(s, k);
    GrowAccounts(s, k);
    SortedFree(Grow(s, k));
    FreeBytes(Grow(s, k));
    RoomIffUnbroken(Grow(s, k).heap.free, n);
  }

  // ---------- gaps ----------

  /** A page the heap does not have splits every stretch. */
  lemma HoleSplits(pages: set<nat>, live: set<int>, z: nat, a: int, len: nat)
    requires z !in pages && Stretch(PageBytes(pages) - live, a, len)
    ensures a + len <= z * PAGE_SIZE || (z + 1) * PAGE_SIZE <= a || len == 0
  {
    if z * PAGE_SIZE < a + len && a < (z + 1) * PAGE_SIZE && len > 0 {
      var b := if a <= z * PAGE_SIZE then z * PAGE_SIZE else a;
      StretchAt(PageBytes(pages) - live, a, len, b);
      assert false;
    }
  }

  lemma StretchAt(bytes: set<int>, a: int, len: nat, b: int)
    requires Stretch(bytes, a, len) && a <= b < a + len
    ensures b in bytes
  {
  }

  lemma {:induction false} RangeSize(p: nat, k: nat)
    ensures |PageRange(p, k)| == k
    decreases k
  {
    if k == 0 {
      assert PageRange(p, k) == {};
    } else {
      RangeStep(p, k);
      RangeSize(p + 1, k - 1);
      assert p !in PageRange(p + 1, k - 1);
    }
  }

  lemma SameSizeSubset(x: set<nat>, y: set<nat>)
    requires x <= y && |x| == |y|
    ensures x == y
  {
    if q :| q in y && q !in x {
      SubsetSize(x, y - {q});
    }
  }

  lemma {:induction false} SubsetSize(x: set<nat>, y: set<nat>)
    requires x <= y
    ensures |x| <= |y|
    decreases x
  {
    if q :| q in x {
      SubsetSize(x - {q}, y - {q});
    }
  }

  /** A stretch of more than `k - 1` pages lies on `k` consecutive ones. */
  lemma StretchPages(pages: set<nat>, a: int, len: nat, k: nat)
    requires k > 0 && len > (k - 1) * PAGE_SIZE && a >= 0 && Stretch(PageBytes(pages), a, len)
    ensures PageRange(PageOf(a), k) <= pages
  {
    forall q | q in PageRange(PageOf(a), k) ensures q in pages {
      assert InRange(q, PageOf(a), k);
      var b := if q == PageOf(a) then a else q * PAGE_SIZE;
      assert b in PageBytes(pages) && PageOf(b) == q;
    }
  }

  /** With nothing free on the list, a request of several pages succeeds if and only
      if the lowest free pages are consecutive: a gap among them makes it fail. */
  lemma EmptyListIff(s: Store, size: Word)
    requires Inv(s) && s.heap.free == [] && PAGE_SIZE - HEADER_SIZE < Rounded(size) <= MEM_SIZE
    requires PagesNeeded(Rounded(size)) <= |s.pool|
    ensures Malloc(s, size).ptr != 0 <==> exists p :: Consecutive(s.pool, p, PagesNeeded(Rounded(size)))
  {
    hide Inv, Grow, CanGrow, Malloc, FitsAt, Consecutive, Cover, PageBytes;
    var n := Rounded(size);
    var k := PagesNeeded(n);
    if p :| Consecutive(s.pool, p, k) {
      LargeMallocSucceedsIff(s, size, p);
    }
    if Malloc(s, size).ptr != 0 {
      GrownMallocIff(s, size);
      var a :| FitsAt(Grow(s, k).heap.free, a, n);
      GapFree(s, n, a);
    }
  }

  lemma GapFree(s: Store, n: Word, a: int)
    requires Inv(s) && s.heap.free == [] && PAGE_SIZE - HEADER_SIZE < n <= MEM_SIZE && PagesNeeded(n) <= |s.pool|
    requires FitsAt(Grow(s, PagesNeeded(n)).heap.free, a, n)
    ensures Consecutive(s.pool, PageOf(if a < 0 then 0 else a), PagesNeeded(n))
  {
    hide Grow, CanGrow, Cover;
    var k := PagesNeeded(n);
    var g := Grow(s, k);
    NewPagesFree(s, k, a, n + HEADER_SIZE);
    var t := s.pool - g.pool;
    assert a in PageBytes(t);
    PagesAsked(n);
    StretchPages(t, a, n + HEADER_SIZE, k);
    GrowLowest(s, k);
    RangeSize(PageOf(a), k);
    SameSizeSubset(PageRange(PageOf(a), k), t);
    forall q | q in s.pool ensures PageOf(a) <= q {
      assert InRange(PageOf(a), PageOf(a), k) && PageOf(a) in t;
      if q in t {
        assert InRange(q, PageOf(a), k);
      }
    }
  }

  lemma PagesAsked(n: Word)
    requires PAGE_SIZE - HEADER_SIZE < n <= MEM_SIZE
    ensures PagesNeeded(n) > 0 && n + HEADER_SIZE > (PagesNeeded(n) - 1) * PAGE_SIZE
  {
  }

  /** What growth adds to an empty list is the pages it took. */
  lemma NewPagesFree(s: Store, k: nat, a: int, len: nat)
    requires Inv(s) && s.heap.free == [] && Stretch(Cover(Grow(s, k).heap.free), a, len)
    ensures Stretch(PageBytes(s.pool - Grow(s, k).pool), a, len)
  {
    hide Grow, CanGrow, Bytes, Shaped;
    var g := Grow(s, k);
    GrowKeepsInv(s, k);
    GrowAccounts(s, k);
    FreeBytes(g);
    NoBlocks();
    hide Cover;
    forall b | a <= b < a + len ensures b in PageBytes(s.pool - g.pool) {
      assert b in Cover(g.heap.free) && b in PageBytes(g.heap.pages) && b !in PageBytes(s.heap.pages);
    }
  }
}
