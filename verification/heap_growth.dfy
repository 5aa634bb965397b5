/** Requests larger than a page: what growing by several consecutive pages leaves
    on the free list, and exactly when the retry then finds room. */
module HeapGrowth {
  import opened Machine
  import opened HeapBlocks
  import opened HeapSpec

  predicate InRange(q: nat, p: nat, k: nat) { p <= q < p + k }

  function PageRange(p: nat, k: nat): set<nat> {
    set q: nat | q < p + k && InRange(q, p, k)
  }

  /** The `k` lowest free pages are `p`, `p + 1` and so on. */
  ghost predicate Consecutive(pool: set<nat>, p: nat, k: nat) {
    PageRange(p, k) <= pool && forall q :: q in pool ==> p <= q
  }

  lemma ConsecutiveNext(pool: set<nat>, p: nat, k: nat)
    requires Consecutive(pool, p, k) && k > 0
    ensures pool != {} && Min(pool) == p && Consecutive(pool - {p}, p + 1, k - 1)
  {
    assert InRange(p, p, k) && p in PageRange(p, k);
    forall q | q in PageRange(p + 1, k - 1) ensures q in pool - {p} {
      assert InRange(q, p, k);
    }
  }

  // ---------- facts about one pass ----------

  lemma {:induction false} CoalesceNoPairs(f: seq<Block>)
    requires Pairs(f) == 0
    ensures Coalesce(f) == f
    decreases |f|
  {
    if |f| >= 2 {
      CoalesceNoPairs(f[1..]);
      assert f == [f[0]] + f[1..];
    }
  }

  /** The pass leaves the end of the list where it was. */
  lemma {:induction false} CoalesceLast(f: seq<Block>)
    requires f != []
    ensures Coalesce(f) != [] && Coalesce(f)[|Coalesce(f)| - 1].End() == f[|f| - 1].End()
    decreases |f|
  {
    if |f| >= 2 {
      if Adjacent(f[0], f[1]) {
        if |f| > 2 {
          CoalesceLast(f[2..]);
        }
      } else {
        CoalesceLast(f[1..]);
      }
    }
  }

  lemma CoalesceGap(u: seq<Block>, b: Block, c: Block)
    requires Touch(u, [b]) == 0 && c.addr == b.addr
    ensures Touch(Coalesce(u), [c]) == 0
  {
    if u != [] {
      CoalesceLast(u);
    }
  }

  /** A new page goes between the blocks below it and those above. */
  lemma InsertBetween(x: seq<Block>, y: seq<Block>, b: Block)
    requires Sorted(x + y) && (forall i :: 0 <= i < |x| ==> x[i].addr <= b.addr) && (y != [] ==> b.addr < y[0].addr)
    ensures Insert(x + y, b) == x + [b] + y
  {
    assert forall i :: 0 <= i < |x| ==> (x + y)[i] == x[i];
    assert y != [] ==> (x + y)[|x|] == y[0];
    RankUnique(x + y, b.addr, |x|);
  }

  /** Two touching blocks that no block touches from below are merged. */
  lemma CoalesceMerges(u: seq<Block>, b: Block, c: Block, v: seq<Block>)
    requires Touch(u, [b]) == 0 && Adjacent(b, c)
    ensures Coalesce(u + [b] + [c] + v) == Coalesce(u) + [Merge(b, c)] + Coalesce(v)
  {
    hide Coalesce;
    var w := [b, c] + v;
    assert u + [b] + [c] + v == u + w && w[0] == b;
    CoalesceAcrossGap(u, w);
    PassPair(b, c, v);
    assert Coalesce(u) + ([Merge(b, c)] + Coalesce(v)) == Coalesce(u) + [Merge(b, c)] + Coalesce(v);
  }

  lemma PassPair(b: Block, c: Block, v: seq<Block>)
    requires Adjacent(b, c)
    ensures Coalesce([b, c] + v) == [Merge(b, c)] + Coalesce(v)
  {
    assert ([b, c] + v)[2..] == v;
  }

  // ---------- growth that keeps up ----------

  /** The page extends the block it touches. */
  lemma AddPageMerges(s: Store, u: seq<Block>, b: Block, v: seq<Block>, p: nat)
    requires s.pool != {} && p == Min(s.pool) && s.heap.free == u + [b] + v && Sorted(s.heap.free)
    requires Touch(u, [b]) == 0 && b.End() == p * PAGE_SIZE && (v != [] ==> p * PAGE_SIZE < v[0].addr)
    ensures AddPage(s).heap.free == Coalesce(u) + [Merge(b, PageBlock(p))] + Coalesce(v)
    ensures AddPage(s).pool == s.pool - {p} && AddPage(s).heap.pages == s.heap.pages + {p}
    ensures Touch(Coalesce(u), [Merge(b, PageBlock(p))]) == 0
  {
    hide Coalesce, Sorted;
    BelowLast(u, b, v);
    InsertBetween(u + [b], v, PageBlock(p));
    CoalesceMerges(u, b, PageBlock(p), v);
    CoalesceGap(u, b, Merge(b, PageBlock(p)));
  }

  lemma BelowLast(u: seq<Block>, b: Block, v: seq<Block>)
    requires Sorted(u + [b] + v)
    ensures forall i :: 0 <= i < |u + [b]| ==> (u + [b])[i].addr <= b.addr
  {
    var f := u + [b] + v;
    forall i | 0 <= i < |u + [b]| ensures (u + [b])[i].addr <= b.addr {
      assert f[i] == (u + [b])[i] && f[|u|] == b;
    }
  }

  /** So `k` consecutive pages extend it `k` times. */
  lemma {:induction false} GrowMerges(s: Store, u: seq<Block>, b: Block, v: seq<Block>, p: nat, k: nat)
      returns (u': seq<Block>, v': seq<Block>)
    requires Inv(s) && s.heap.free == u + [b] + v && Touch(u, [b]) == 0 && b.End() == p * PAGE_SIZE
    requires Consecutive(s.pool, p, k) && (v != [] ==> (p + k) * PAGE_SIZE <= v[0].addr)
    ensures CanGrow(s, k)
    ensures Grow(s, k).heap.free == u' + [Block(b.addr, b.size + k * PAGE_SIZE)] + v'
    ensures (u == [] ==> u' == []) && (v == [] ==> v' == [])
    ensures Grow(s, k).heap.pages == s.heap.pages + PageRange(p, k) && Grow(s, k).pool == s.pool - PageRange(p, k)
    decreases k
  {
    hide Inv, Grow, CanGrow, Coalesce, AddPage, Touch;
    GrowUnfold(s, k);
    if k == 0 {
      u', v' := u, v;
      assert PageRange(p, k) == {};
    } else {
      ConsecutiveNext(s.pool, p, k);
      FreeSorted(s);
      AddPageMerges(s, u, b, v, p);
      AddPageKeepsInv(s);
      HeadKept(v);
      var c := Merge(b, PageBlock(p));
      u', v' := GrowMerges(AddPage(s), Coalesce(u), c, Coalesce(v), p + 1, k - 1);
      assert c.size + (k - 1) * PAGE_SIZE == b.size + k * PAGE_SIZE;
      RangeStep(p, k);
      EmptyPass();
    }
  }

  lemma RangeStep(p: nat, k: nat)
    requires k > 0
    ensures PageRange(p, k) == {p} + PageRange(p + 1, k - 1)
  {
    forall q ensures q in PageRange(p, k) <==> q in {p} + PageRange(p + 1, k - 1) {
      assert InRange(q, p, k) <==> q == p || InRange(q, p + 1, k - 1);
    }
  }

  lemma EmptyPass()
    ensures Coalesce([]) == []
  {
  }

  lemma HeadKept(v: seq<Block>)
    ensures v != [] ==> Coalesce(v) != [] && Coalesce(v)[0].addr == v[0].addr
    ensures v == [] ==> Coalesce(v) == []
  {
  }

  lemma FreeSorted(s: Store)
    requires Inv(s)
    ensures Sorted(s.heap.free) && AllWellFormed(s.heap.free) && Pairs(s.heap.free) <= 1
  {
  }

  /** Pages that touch no block below them start one of their own. */
  lemma GrowStarts(s: Store, x: seq<Block>, y: seq<Block>, p: nat, k: nat) returns (u: seq<Block>, v: seq<Block>)
    requires Inv(s) && s.heap.free == x + y && k > 1 && Consecutive(s.pool, p, k)
    requires forall i :: 0 <= i < |x| ==> x[i].End() < p * PAGE_SIZE
    requires y != [] ==> (p + k) * PAGE_SIZE <= y[0].addr
    ensures CanGrow(s, k) && Grow(s, k).heap.free == u + [Block(p * PAGE_SIZE, k * PAGE_SIZE - HEADER_SIZE)] + v
    ensures (x == [] ==> u == []) && (y == [] ==> v == [])
    ensures Grow(s, k).heap.pages == s.heap.pages + PageRange(p, k) && Grow(s, k).pool == s.pool - PageRange(p, k)
  {
    hide Inv, Grow, CanGrow, Coalesce, AddPage, Touch;
    GrowUnfold(s, k);
    ConsecutiveNext(s.pool, p, k);
    FreeSorted(s);
    AddPageStarts(s, x, y, p);
    AddPageKeepsInv(s);
    HeadKept(y);
    HeadKept(x);
    RangeStep(p, k);
    u, v := GrowMerges(AddPage(s), Coalesce(x), PageBlock(p), Coalesce(y), p + 1, k - 1);
  }

  lemma AddPageStarts(s: Store, x: seq<Block>, y: seq<Block>, p: nat)
    requires s.pool != {} && p == Min(s.pool) && s.heap.free == x + y && Sorted(s.heap.free)
    requires forall i :: 0 <= i < |x| ==> x[i].End() < p * PAGE_SIZE
    requires y != [] ==> (p + 1) * PAGE_SIZE < y[0].addr
    ensures AddPage(s).heap.free == Coalesce(x) + [PageBlock(p)] + Coalesce(y)
    ensures AddPage(s).pool == s.pool - {p} && AddPage(s).heap.pages == s.heap.pages + {p}
    ensures Touch(Coalesce(x), [PageBlock(p)]) == 0
  {
    hide Coalesce, Sorted;
    var b := PageBlock(p);
    InsertBetween(x, y, b);
    CoalesceAlone(x, b, y);
    CoalesceGap(x, b, b);
  }

  /** A block that touches neither neighbour is passed over. */
  lemma CoalesceAlone(x: seq<Block>, b: Block, y: seq<Block>)
    requires Touch(x, [b]) == 0 && Touch([b], y) == 0
    ensures Coalesce(x + [b] + y) == Coalesce(x) + [b] + Coalesce(y)
  {
    hide Coalesce;
    assert x + [b] + y == x + ([b] + y) && ([b] + y)[0] == b;
    CoalesceAcrossGap(x, [b] + y);
    CoalesceAcrossGap([b], y);
    OnePass(b);
  }

  lemma OnePass(b: Block)
    ensures Coalesce([b]) == [b]
  {
  }

  // ---------- growth that lags ----------

  /** With two touching blocks right below the page, the pass merges those two and
      leaves the page for the next one. */
  lemma AddPageLags(s: Store, u: seq<Block>, b: Block, c: Block, v: seq<Block>, p: nat)
    requires s.pool != {} && p == Min(s.pool) && s.heap.free == u + [b] + [c] + v && Sorted(s.heap.free)
    requires Touch(u, [b]) == 0 && Adjacent(b, c) && c.End() == p * PAGE_SIZE && Pairs(u) == 0
    requires v != [] ==> p * PAGE_SIZE < v[0].addr
    ensures AddPage(s).heap.free == u + [Merge(b, c)] + Coalesce([PageBlock(p)] + v)
    ensures AddPage(s).pool == s.pool - {p}
  {
    hide Coalesce, Sorted, Pairs, Insert, Touch;
    BelowLast(u + [b], c, v);
    InsertBetween(u + [b] + [c], v, PageBlock(p));
    LagPass(u, b, c, PageBlock(p), v);
  }

  lemma LagPass(u: seq<Block>, b: Block, c: Block, q: Block, v: seq<Block>)
    requires Touch(u, [b]) == 0 && Adjacent(b, c) && Pairs(u) == 0
    ensures Coalesce(u + [b] + [c] + [q] + v) == u + [Merge(b, c)] + Coalesce([q] + v)
  {
    hide Coalesce, Pairs, Touch;
    assert u + [b] + [c] + [q] + v == u + [b] + [c] + ([q] + v);
    CoalesceMerges(u, b, c, [q] + v);
    CoalesceNoPairs(u);
  }

  /** So after `k` pages the last one still stands alone. */
  lemma {:induction false} GrowLags(s: Store, u: seq<Block>, b: Block, c: Block, v: seq<Block>, p: nat, k: nat)
    requires Inv(s) && s.heap.free == u + [b] + [c] + v && k > 0 && Consecutive(s.pool, p, k)
    requires Touch(u, [b]) == 0 && Adjacent(b, c) && c.End() == p * PAGE_SIZE && Pairs(u) == 0 && Pairs(v) == 0
    requires v != [] ==> (p + k) * PAGE_SIZE <= v[0].addr
    ensures CanGrow(s, k)
    ensures Grow(s, k).heap.free ==
      u + [Block(b.addr, b.size + HEADER_SIZE + c.size + (k - 1) * PAGE_SIZE)] + Coalesce([PageBlock(p + k - 1)] + v)
    decreases k
  {
    hide Inv, Grow, CanGrow, Coalesce, AddPage, Pairs, Touch;
    GrowUnfold(s, k);
    ConsecutiveNext(s.pool, p, k);
    FreeSorted(s);
    AddPageLags(s, u, b, c, v, p);
    AddPageKeepsInv(s);
    var d, q, t := Merge(b, c), PageBlock(p), AddPage(s);
    GrowUnfold(t, k - 1);
    if k > 1 {
      LoneHead(q, v);
      assert t.heap.free == u + [d] + [q] + v;
      SameStart(u, b, d);
      GrowLags(t, u, d, q, v, p + 1, k - 1);
      assert d.size + HEADER_SIZE + q.size + (k - 2) * PAGE_SIZE == b.size + HEADER_SIZE + c.size + (k - 1) * PAGE_SIZE;
    }
  }

  lemma SameStart(u: seq<Block>, b: Block, d: Block)
    requires Touch(u, [b]) == 0 && d.addr == b.addr
    ensures Touch(u, [d]) == 0
  {
  }

  lemma LoneHead(q: Block, v: seq<Block>)
    requires Pairs(v) == 0 && (v != [] ==> q.End() < v[0].addr)
    ensures Coalesce([q] + v) == [q] + v
  {
    CoalesceNoPairs(v);
    assert ([q] + v)[1..] == v;
  }

  // ---------- room ----------

  predicate HasRoom(f: seq<Block>, n: nat) {
    FirstFit(f, n) < |f|
  }

  lemma RoomIff(f: seq<Block>, n: nat)
    ensures HasRoom(f, n) <==> exists i :: 0 <= i < |f| && n <= f[i].size
  {
  }

  lemma RoomConcat(x: seq<Block>, y: seq<Block>, n: nat)
    ensures HasRoom(x + y, n) <==> HasRoom(x, n) || HasRoom(y, n)
  {
    hide HasRoom;
    RoomIff(x, n);
    RoomIff(y, n);
    RoomIff(x + y, n);
    if i :| 0 <= i < |x| && n <= x[i].size {
      assert (x + y)[i] == x[i];
    }
    if i :| 0 <= i < |y| && n <= y[i].size {
      assert (x + y)[|x| + i] == y[i];
    }
  }

  lemma RoomOne(b: Block, n: nat)
    ensures HasRoom([b], n) <==> n <= b.size
  {
    hide HasRoom;
    RoomIff([b], n);
    assert [b][0] == b;
  }

  lemma RoomAround(u: seq<Block>, b: Block, v: seq<Block>, n: nat)
    ensures HasRoom(u + [b] + v, n) <==> HasRoom(u, n) || n <= b.size || HasRoom(v, n)
  {
    hide HasRoom;
    RoomConcat(u + [b], v, n);
    RoomConcat(u, [b], n);
    RoomOne(b, n);
  }

  /** The last page alone is too small; merged with the block above it may do. */
  lemma LastPageRoom(q: Block, v: seq<Block>, n: nat)
    requires Pairs(v) == 0 && !HasRoom(v, n) && q.size < n && (v != [] ==> q.End() <= v[0].addr)
    ensures HasRoom(Coalesce([q] + v), n) <==> v != [] && q.End() == v[0].addr && n <= q.size + HEADER_SIZE + v[0].size
  {
    hide HasRoom;
    if v != [] && q.End() == v[0].addr {
      var w, rest := [q] + v, v[1..];
      assert w[2..] == rest && v == [v[0]] + rest;
      CoalesceNoPairs(rest);
      assert Coalesce(w) == [Merge(q, v[0])] + rest;
      RoomConcat([v[0]], rest, n);
      RoomConcat([Merge(q, v[0])], rest, n);
      RoomOne(Merge(q, v[0]), n);
    } else {
      LoneHead(q, v);
      RoomConcat([q], v, n);
      RoomOne(q, n);
    }
  }

  // ---------- the free list around the new pages ----------

  lemma FreeOffPool(s: Store, i: nat, a: nat)
    requires Inv(s) && i < |s.heap.free| && Holds(s.heap.free[i], a)
    ensures PageOf(a) !in s.pool
  {
    hide Shaped;
    CoverMember(s.heap.free, i, a);
    assert a in PageBytes(s.heap.pages);
  }

  /** Every block ends before the new pages or starts after them. */
  lemma FreeAround(s: Store, p: nat, k: nat)
    requires Inv(s) && k > 0 && Consecutive(s.pool, p, k)
    ensures var f := s.heap.free;
      var r := Rank(f, p * PAGE_SIZE);
      && (forall i :: 0 <= i < r ==> f[i].End() <= p * PAGE_SIZE)
      && (r < |f| ==> (p + k) * PAGE_SIZE <= f[r].addr)
  {
    hide Inv;
    var f := s.heap.free;
    var r := Rank(f, p * PAGE_SIZE);
    ConsecutiveNext(s.pool, p, k);
    forall i | 0 <= i < r ensures f[i].End() <= p * PAGE_SIZE {
      if p * PAGE_SIZE < f[i].End() {
        FreeOffPool(s, i, p * PAGE_SIZE);
        assert false;
      }
    }
    if r < |f| && f[r].addr < (p + k) * PAGE_SIZE {
      RangePage(p, k, f[r].addr);
      FreeOffPool(s, r, f[r].addr);
      assert false;
    }
  }

  lemma RangePage(p: nat, k: nat, a: nat)
    requires p * PAGE_SIZE <= a < (p + k) * PAGE_SIZE
    ensures PageOf(a) in PageRange(p, k)
  {
    assert InRange(PageOf(a), p, k);
  }

  // ---------- exactly when a large request succeeds ----------

  /** Two touching free blocks end where page `p` begins. */
  predicate PairBelow(f: seq<Block>, p: nat) {
    var r := Rank(f, p * PAGE_SIZE);
    r >= 2 && Adjacent(f[r - 2], f[r - 1]) && f[r - 1].End() == p * PAGE_SIZE
  }

  /** Then one page too few joins them: is that enough, or the last page with the
      block above it? */
  predicate LaggingRoom(f: seq<Block>, p: nat, k: nat, n: nat)
    requires PairBelow(f, p) && k > 0
  {
    var r := Rank(f, p * PAGE_SIZE);
    || n <= f[r - 2].size + HEADER_SIZE + f[r - 1].size + (k - 1) * PAGE_SIZE
    || (r < |f| && f[r].addr == (p + k) * PAGE_SIZE && n <= PAGE_SIZE + f[r].size)
  }

  lemma PagesCover(n: Word)
    requires PAGE_SIZE - HEADER_SIZE < n <= MEM_SIZE
    ensures PagesNeeded(n) > 1 && n + HEADER_SIZE <= PagesNeeded(n) * PAGE_SIZE
  {
  }

  lemma SucceedsOnBlock(s: Store, u: seq<Block>, b: Block, v: seq<Block>, p: nat, k: nat, n: nat)
    requires Inv(s) && s.heap.free == u + [b] + v && Touch(u, [b]) == 0 && b.End() == p * PAGE_SIZE
    requires Consecutive(s.pool, p, k) && (v != [] ==> (p + k) * PAGE_SIZE <= v[0].addr) && n + HEADER_SIZE <= k * PAGE_SIZE
    ensures CanGrow(s, k) && HasRoom(Grow(s, k).heap.free, n)
  {
    hide Inv, Grow, CanGrow, HasRoom, Consecutive, Touch;
    var u', v' := GrowMerges(s, u, b, v, p, k);
    RoomAround(u', Block(b.addr, b.size + k * PAGE_SIZE), v', n);
  }

  lemma SucceedsAlone(s: Store, x: seq<Block>, y: seq<Block>, p: nat, k: nat, n: nat)
    requires Inv(s) && s.heap.free == x + y && k > 1 && Consecutive(s.pool, p, k) && n + HEADER_SIZE <= k * PAGE_SIZE
    requires forall i :: 0 <= i < |x| ==> x[i].End() < p * PAGE_SIZE
    requires y != [] ==> (p + k) * PAGE_SIZE <= y[0].addr
    ensures CanGrow(s, k) && HasRoom(Grow(s, k).heap.free, n)
  {
    hide Inv, Grow, CanGrow, HasRoom, Consecutive;
    var u, v := GrowStarts(s, x, y, p, k);
    RoomAround(u, Block(p * PAGE_SIZE, k * PAGE_SIZE - HEADER_SIZE), v, n);
  }

  /** Growth for a request that needs several pages, when they are consecutive and
      no pair lags. */
  lemma GrowSucceeds(s: Store, p: nat, k: nat, n: nat)
    requires Inv(s) && k > 1 && Consecutive(s.pool, p, k) && n + HEADER_SIZE <= k * PAGE_SIZE
    requires !PairBelow(s.heap.free, p)
    ensures CanGrow(s, k) && HasRoom(Grow(s, k).heap.free, n)
  {
    hide Inv, Grow, CanGrow, HasRoom, Sorted, Pairs, Rank, Consecutive, PairBelow, Touch;
    var f := s.heap.free;
    var r := Rank(f, p * PAGE_SIZE);
    FreeAround(s, p, k);
    FreeSorted(s);
    if r > 0 && f[r - 1].End() == p * PAGE_SIZE {
      CutAt(f, r - 1);
      NoPairNoTouch(f, p);
      SucceedsOnBlock(s, f[..r - 1], f[r - 1], f[r..], p, k, n);
    } else {
      AllBefore(f, r, p);
      assert f == f[..r] + f[r..];
      SucceedsAlone(s, f[..r], f[r..], p, k, n);
    }
  }

  lemma NoPairNoTouch(f: seq<Block>, p: nat)
    requires !PairBelow(f, p) && Rank(f, p * PAGE_SIZE) > 0 && f[Rank(f, p * PAGE_SIZE) - 1].End() == p * PAGE_SIZE
    ensures var r := Rank(f, p * PAGE_SIZE); Touch(f[..r - 1], [f[r - 1]]) == 0
  {
    hide Rank;
  }

  lemma CutAt(f: seq<Block>, i: nat)
    requires i < |f|
    ensures f == f[..i] + [f[i]] + f[i + 1..]
  {
  }

  lemma AllBefore(f: seq<Block>, r: nat, p: nat)
    requires Sorted(f) && r <= |f| && (forall i :: 0 <= i < r ==> f[i].End() <= p * PAGE_SIZE)
    requires r == 0 || f[r - 1].End() != p * PAGE_SIZE
    ensures forall i :: 0 <= i < r ==> f[..r][i].End() < p * PAGE_SIZE
  {
  }

  /** Growth when a pair lags. */
  lemma GrowLagging(s: Store, p: nat, k: nat, n: nat)
    requires Inv(s) && k > 1 && Consecutive(s.pool, p, k) && PAGE_SIZE - HEADER_SIZE < n
    requires PairBelow(s.heap.free, p) && !HasRoom(s.heap.free, n)
    ensures CanGrow(s, k) && (HasRoom(Grow(s, k).heap.free, n) <==> LaggingRoom(s.heap.free, p, k, n))
  {
    hide Inv, Grow, CanGrow, HasRoom, Sorted, Pairs, Rank;
    var f := s.heap.free;
    var r := Rank(f, p * PAGE_SIZE);
    FreeAround(s, p, k);
    assert f == f[..r - 2] + [f[r - 2]] + [f[r - 1]] + f[r..];
    GrowAroundPair(s, f[..r - 2], f[r - 2], f[r - 1], f[r..], p, k, n);
  }

  lemma GrowAroundPair(s: Store, u: seq<Block>, b: Block, c: Block, v: seq<Block>, p: nat, k: nat, n: nat)
    requires Inv(s) && s.heap.free == u + [b] + [c] + v && Adjacent(b, c) && c.End() == p * PAGE_SIZE
    requires k > 1 && Consecutive(s.pool, p, k) && (v != [] ==> (p + k) * PAGE_SIZE <= v[0].addr)
    requires PAGE_SIZE - HEADER_SIZE < n && !HasRoom(s.heap.free, n)
    ensures CanGrow(s, k)
    ensures HasRoom(Grow(s, k).heap.free, n) <==>
      || n <= b.size + HEADER_SIZE + c.size + (k - 1) * PAGE_SIZE
      || (v != [] && v[0].addr == (p + k) * PAGE_SIZE && n <= PAGE_SIZE + v[0].size)
  {
    hide Inv, Grow, CanGrow, HasRoom, Sorted, Pairs, Coalesce, Touch, Consecutive;
    FreeSorted(s);
    OnlyPair(u, b, c, v);
    GrowLags(s, u, b, c, v, p, k);
    NoRoomParts(u, b, c, v, n);
    var q := PageBlock(p + k - 1);
    LastPageRoom(q, v, n);
    RoomAround(u, Block(b.addr, b.size + HEADER_SIZE + c.size + (k - 1) * PAGE_SIZE), Coalesce([q] + v), n);
  }

  lemma NoRoomParts(u: seq<Block>, b: Block, c: Block, v: seq<Block>, n: nat)
    requires !HasRoom(u + [b] + [c] + v, n)
    ensures !HasRoom(u, n) && !HasRoom(v, n)
  {
    hide HasRoom;
    RoomConcat(u + [b] + [c], v, n);
    RoomConcat(u + [b], [c], n);
    RoomConcat(u, [b], n);
  }

  lemma OnlyPair(u: seq<Block>, b: Block, c: Block, v: seq<Block>)
    requires Pairs(u + [b] + [c] + v) <= 1 && Adjacent(b, c)
    ensures Pairs(u) == 0 && Touch(u, [b]) == 0 && Pairs(v) == 0
  {
    var w := [b] + [c];
    assert u + [b] + [c] + v == u + w + v && w[0] == b;
    PairsConcat(u + w, v);
    PairsConcat(u, w);
  }

  /** A request that needs several pages, for which nothing on the list is large
      enough and the lowest free pages are consecutive, succeeds if and only if no
      two touching free blocks end where the first page begins, or the pages that
      do get merged suffice. */
  lemma LargeMallocSucceedsIff(s: Store, size: Word, p: nat)
    requires Inv(s) && PAGE_SIZE - HEADER_SIZE < Rounded(size) <= MEM_SIZE && !HasRoom(s.heap.free, Rounded(size))
    requires Consecutive(s.pool, p, PagesNeeded(Rounded(size)))
    ensures var n := Rounded(size);
      var k := PagesNeeded(n);
      k > 1 && (Malloc(s, size).ptr != 0 <==> (PairBelow(s.heap.free, p) ==> LaggingRoom(s.heap.free, p, k, n)))
  {
    hide Inv, Grow, CanGrow, PairBelow, LaggingRoom, Consecutive;
    var n := Rounded(size);
    var k := PagesNeeded(n);
    PagesCover(n);
    if PairBelow(s.heap.free, p) {
      GrowLagging(s, p, k, n);
    } else {
      GrowSucceeds(s, p, k, n);
    }
  }

  /** A request larger than memory fails, however many pages there are. */
  lemma HugeMallocFails(s: Store, size: Word)
    requires Inv(s) && Rounded(size) >= MEM_SIZE
    ensures Malloc(s, size).ptr == 0
  {
    hide Grow, CanGrow, Tiled;
    GrowKeepsInv(s, PagesNeeded(Rounded(size)));
    var g := Grow(s, PagesNeeded(Rounded(size)));
    assert forall i :: 0 <= i < |s.heap.free| ==> WellFormed(s.heap.free[i]);
    assert forall i :: 0 <= i < |g.heap.free| ==> WellFormed(g.heap.free[i]);
  }
}
