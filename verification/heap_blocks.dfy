/** Free-list blocks of the kernel heap and the two list operations whose effect
    on the list's shape is not obvious: sorted insertion and the single
    coalescing pass. */
module HeapBlocks {
  import opened Machine

  const HEADER_SIZE := 16
  const MIN_ALLOC := 16

  /** A block: `addr` is its header's address, `size` its usable bytes. */
  datatype Block = Block(addr: nat, size: nat) {
    function End(): nat { addr + HEADER_SIZE + size }
  }

  predicate WellFormed(b: Block) {
    b.addr % 16 == 0 && b.size % 16 == 0 && MIN_ALLOC <= b.size && 0 < b.addr && b.End() <= MEM_SIZE
  }

  predicate AllWellFormed(bs: seq<Block>) {
    forall i :: 0 <= i < |bs| ==> WellFormed(bs[i])
  }

  predicate Adjacent(a: Block, b: Block) {
    a.End() == b.addr
  }

  predicate Apart(a: Block, b: Block) {
    a.End() <= b.addr || b.End() <= a.addr
  }

  /** Strictly address-sorted, without overlap. */
  predicate Sorted(f: seq<Block>) {
    forall i, j :: 0 <= i < j < |f| ==> f[i].End() <= f[j].addr
  }

  predicate ApartFromAll(b: Block, bs: seq<Block>) {
    forall i :: 0 <= i < |bs| ==> Apart(b, bs[i])
  }

  function Merge(a: Block, b: Block): Block {
    Block(a.addr, a.size + HEADER_SIZE + b.size)
  }

  // ---------- bytes covered ----------

  /** Header and payload bytes held by the blocks. */
  function Bytes(bs: seq<Block>): nat {
    if bs == [] then 0 else HEADER_SIZE + bs[0].size + Bytes(bs[1..])
  }

  function PayloadBytes(bs: seq<Block>): nat {
    if bs == [] then 0 else bs[0].size + PayloadBytes(bs[1..])
  }

  predicate Holds(b: Block, a: int) {
    b.addr <= a < b.End()
  }

  function Span(b: Block): set<int> {
    set a | b.addr <= a < b.End() && Holds(b, a)
  }

  /** The addresses covered by the blocks. */
  function Cover(bs: seq<Block>): set<int> {
    if bs == [] then {} else Span(bs[0]) + Cover(bs[1..])
  }

  lemma {:induction false} BytesConcat(x: seq<Block>, y: seq<Block>)
    ensures Bytes(x + y) == Bytes(x) + Bytes(y)
  {
    if x == [] {
      assert x + y == y;
    } else {
      assert (x + y)[1..] == x[1..] + y;
      BytesConcat(x[1..], y);
    }
  }

  lemma {:induction false} BytesSplit(bs: seq<Block>)
    ensures Bytes(bs) == PayloadBytes(bs) + HEADER_SIZE * |bs|
  {
    if bs != [] {
      BytesSplit(bs[1..]);
    }
  }

  lemma {:induction false} CoverConcat(x: seq<Block>, y: seq<Block>)
    ensures Cover(x + y) == Cover(x) + Cover(y)
  {
    if x == [] {
      assert x + y == y;
    } else {
      assert (x + y)[1..] == x[1..] + y;
      CoverConcat(x[1..], y);
    }
  }

  lemma {:induction false} CoverMember(bs: seq<Block>, i: nat, a: int)
    requires i < |bs| && Holds(bs[i], a)
    ensures a in Cover(bs)
  {
    if i > 0 {
      CoverMember(bs[1..], i - 1, a);
    }
  }

  lemma {:induction false} CoverWitness(bs: seq<Block>, a: int) returns (i: nat)
    requires a in Cover(bs)
    ensures i < |bs| && Holds(bs[i], a)
  {
    if a in Span(bs[0]) {
      i := 0;
    } else {
      var j := CoverWitness(bs[1..], a);
      i := j + 1;
    }
  }

  // ---------- physically adjacent neighbours ----------

  /** The number of consecutive list elements that touch. */
  function Pairs(f: seq<Block>): nat {
    if |f| < 2 then 0
    else (if Adjacent(f[0], f[1]) then 1 else 0) + Pairs(f[1..])
  }

  function Touch(x: seq<Block>, y: seq<Block>): nat {
    if x != [] && y != [] && Adjacent(x[|x| - 1], y[0]) then 1 else 0
  }

  lemma {:induction false} PairsConcat(x: seq<Block>, y: seq<Block>)
    ensures Pairs(x + y) == Pairs(x) + Touch(x, y) + Pairs(y)
  {
    if x == [] {
      assert x + y == y;
    } else {
      assert (x + y)[1..] == x[1..] + y;
      PairsConcat(x[1..], y);
    }
  }

  // ---------- sorted insertion ----------

  /** How many blocks of a sorted list lie below address `a`. */
  function Rank(f: seq<Block>, a: nat): (r: nat)
    ensures r <= |f|
    ensures forall i :: 0 <= i < r ==> f[i].addr <= a
    ensures r < |f| ==> a < f[r].addr
  {
    if f == [] || a < f[0].addr then 0 else 1 + Rank(f[1..], a)
  }

  function Insert(f: seq<Block>, b: Block): seq<Block> {
    var r := Rank(f, b.addr);
    f[..r] + [b] + f[r..]
  }

  lemma {:induction false} RankUnique(f: seq<Block>, a: nat, k: nat)
    requires Sorted(f) && k <= |f|
    requires forall i :: 0 <= i < k ==> f[i].addr <= a
    requires k < |f| ==> a < f[k].addr
    ensures Rank(f, a) == k
  {
    if f != [] && k > 0 {
      RankUnique(f[1..], a, k - 1);
    }
  }

  lemma InsertSorted(f: seq<Block>, b: Block)
    requires Sorted(f) && ApartFromAll(b, f) && AllWellFormed(f) && WellFormed(b)
    ensures Sorted(Insert(f, b)) && AllWellFormed(Insert(f, b))
  {
    var r := Rank(f, b.addr);
    var g := Insert(f, b);
    forall i, j | 0 <= i < j < |g|
      ensures g[i].End() <= g[j].addr
    {
      if i == r {
        assert Apart(b, f[j - 1]) && f[r].addr <= f[j - 1].addr;
      } else if j == r {
        assert Apart(b, f[i]);
      }
    }
  }

  lemma NoBlocks()
    ensures Bytes([]) == 0 && Cover([]) == {} && Pairs([]) == 0
  {
  }

  lemma OneBlock(b: Block)
    ensures Bytes([b]) == HEADER_SIZE + b.size && Cover([b]) == Span(b) && Pairs([b]) == 0
  {
    assert [b][1..] == [];
  }

  lemma BytesAround(x: seq<Block>, b: Block, y: seq<Block>)
    ensures Bytes(x + [b] + y) == Bytes(x + y) + HEADER_SIZE + b.size
  {
    hide Bytes;
    OneBlock(b);
    BytesConcat(x, y); BytesConcat(x, [b]); BytesConcat(x + [b], y);
  }

  lemma CoverAround(x: seq<Block>, b: Block, y: seq<Block>)
    ensures Cover(x + [b] + y) == Cover(x + y) + Span(b)
  {
    hide Cover, Span;
    OneBlock(b);
    CoverConcat(x, y); CoverConcat(x, [b]); CoverConcat(x + [b], y);
  }

  lemma InsertConserves(f: seq<Block>, b: Block)
    ensures Bytes(Insert(f, b)) == Bytes(f) + HEADER_SIZE + b.size
    ensures Cover(Insert(f, b)) == Cover(f) + Span(b)
    ensures Pairs(Insert(f, b)) <= Pairs(f) + 2
  {
    hide Bytes, Cover, Span, Pairs, Rank;
    var r := Rank(f, b.addr);
    var x, y := f[..r], f[r..];
    assert f == x + y;
    BytesAround(x, b, y);
    CoverAround(x, b, y);
    OneBlock(b);
    PairsConcat(x, y); PairsConcat(x, [b]); PairsConcat(x + [b], y);
  }

  lemma InsertApart(f: seq<Block>, b: Block, c: Block)
    requires ApartFromAll(c, f) && Apart(c, b)
    ensures ApartFromAll(c, Insert(f, b))
  {
  }

  // ---------- the coalescing pass ----------

  /** One walk down the list: each visited block absorbs at most its next
      neighbour, and the walk then moves past the result. */
  function Coalesce(f: seq<Block>): (g: seq<Block>)
    ensures f != [] ==> g != [] && g[0].addr == f[0].addr
    ensures f == [] ==> g == []
    decreases |f|
  {
    if |f| < 2 then f
    else if Adjacent(f[0], f[1]) then [Merge(f[0], f[1])] + Coalesce(f[2..])
    else [f[0]] + Coalesce(f[1..])
  }

  lemma SpanMerge(a: Block, b: Block)
    requires Adjacent(a, b)
    ensures Span(Merge(a, b)) == Span(a) + Span(b)
  {
    forall x
      ensures x in Span(Merge(a, b)) <==> x in Span(a) + Span(b)
    {
      assert Holds(Merge(a, b), x) <==> Holds(a, x) || Holds(b, x);
    }
  }

  lemma {:induction false} CoalesceConserves(f: seq<Block>)
    ensures Bytes(Coalesce(f)) == Bytes(f)
    ensures Cover(Coalesce(f)) == Cover(f)
    decreases |f|
  {
    if |f| >= 2 {
      if Adjacent(f[0], f[1]) {
        var m := Merge(f[0], f[1]);
        CoalesceConserves(f[2..]);
        assert f[1..][1..] == f[2..];
        assert Coalesce(f)[1..] == Coalesce(f[2..]);
        SpanMerge(f[0], f[1]);
      } else {
        CoalesceConserves(f[1..]);
        assert Coalesce(f)[1..] == Coalesce(f[1..]);
      }
    }
  }

  lemma SortedCons(b: Block, g: seq<Block>)
    requires Sorted(g) && AllWellFormed(g) && WellFormed(b) && (g != [] ==> b.End() <= g[0].addr)
    ensures Sorted([b] + g) && AllWellFormed([b] + g)
  {
    var f := [b] + g;
    forall i, j | 0 <= i < j < |f|
      ensures f[i].End() <= f[j].addr
    {
      assert f[j] == g[j - 1];
      if i > 0 {
        assert f[i] == g[i - 1];
      } else if j > 1 {
        assert g[0].End() <= g[j - 1].addr;
      }
    }
  }

  lemma SortedDrop(f: seq<Block>, k: nat)
    requires Sorted(f) && AllWellFormed(f) && k <= |f|
    ensures Sorted(f[k..]) && AllWellFormed(f[k..])
    ensures 0 < k < |f| ==> f[k - 1].End() <= f[k..][0].addr
  {
  }

  lemma {:induction false} CoalesceSorted(f: seq<Block>)
    requires Sorted(f) && AllWellFormed(f)
    ensures Sorted(Coalesce(f)) && AllWellFormed(Coalesce(f))
    decreases |f|
  {
    if |f| >= 2 {
      assert WellFormed(f[0]) && WellFormed(f[1]);
      hide Sorted, AllWellFormed;
      if Adjacent(f[0], f[1]) {
        SortedDrop(f, 2);
        CoalesceSorted(f[2..]);
        SortedCons(Merge(f[0], f[1]), Coalesce(f[2..]));
      } else {
        SortedDrop(f, 1);
        CoalesceSorted(f[1..]);
        SortedCons(f[0], Coalesce(f[1..]));
      }
    }
  }

  lemma {:induction false} CoalesceApart(f: seq<Block>, c: Block)
    requires ApartFromAll(c, f)
    ensures ApartFromAll(c, Coalesce(f))
    decreases |f|
  {
    if |f| >= 2 {
      if Adjacent(f[0], f[1]) {
        CoalesceApart(f[2..], c);
        assert Apart(c, f[0]) && Apart(c, f[1]);
      } else {
        CoalesceApart(f[1..], c);
      }
    }
  }

  /** The pass at least halves the number of touching neighbours. */
  lemma {:induction false} CoalesceHalvesPairs(f: seq<Block>)
    ensures 2 * Pairs(Coalesce(f)) <= Pairs(f)
    decreases |f|
  {
    if |f| >= 2 {
      if Adjacent(f[0], f[1]) {
        CoalesceHalvesPairs(f[2..]);
        assert f[1..][1..] == f[2..];
        assert Coalesce(f)[1..] == Coalesce(f[2..]);
      } else {
        CoalesceHalvesPairs(f[1..]);
        assert Coalesce(f)[1..] == Coalesce(f[1..]);
      }
    }
  }

  /** Three list elements in a row that touch. */
  ghost predicate HasTriple(f: seq<Block>) {
    exists i: nat :: TripleAt(f, i)
  }

  /** The pass leaves nothing to merge exactly when no three blocks in a row touched. */
  lemma {:induction false} CoalesceCompleteIff(f: seq<Block>)
    ensures Pairs(Coalesce(f)) == 0 <==> !HasTriple(f)
    decreases |f|
  {
    if |f| >= 2 {
      if Adjacent(f[0], f[1]) {
        CoalesceCompleteIff(f[2..]);
        assert Coalesce(f)[1..] == Coalesce(f[2..]);
        TripleTail(f);
        TripleTail(f[1..]);
        assert f[1..][1..] == f[2..];
      } else {
        CoalesceCompleteIff(f[1..]);
        assert Coalesce(f)[1..] == Coalesce(f[1..]);
        TripleTail(f);
      }
    }
  }

  predicate TripleAt(f: seq<Block>, i: nat) {
    i + 2 < |f| && Adjacent(f[i], f[i + 1]) && Adjacent(f[i + 1], f[i + 2])
  }

  lemma TripleTail(f: seq<Block>)
    requires f != []
    ensures HasTriple(f) <==>
      HasTriple(f[1..]) || (|f| >= 3 && Adjacent(f[0], f[1]) && Adjacent(f[1], f[2]))
  {
    hide TripleAt;
    TripleFirst(f);
    if i: nat :| TripleAt(f[1..], i) {
      TripleShift(f, i);
    }
    if i: nat :| TripleAt(f, i) {
      if i > 0 {
        TripleShift(f, i - 1);
      }
    }
  }

  lemma TripleShift(f: seq<Block>, i: nat)
    requires f != []
    ensures TripleAt(f, i + 1) <==> TripleAt(f[1..], i)
  {
  }

  lemma TripleFirst(f: seq<Block>)
    ensures TripleAt(f, 0) <==> |f| >= 3 && Adjacent(f[0], f[1]) && Adjacent(f[1], f[2])
  {
  }

  /** A run: every block touches the next. */
  predicate IsRun(f: seq<Block>) {
    forall i :: 0 <= i < |f| - 1 ==> Adjacent(f[i], f[i + 1])
  }

  /** One pass turns a run of k blocks into ceil(k / 2). */
  lemma {:induction false} CoalesceRun(f: seq<Block>)
    requires IsRun(f)
    ensures |Coalesce(f)| == (|f| + 1) / 2
    ensures IsRun(Coalesce(f))
    decreases |f|
  {
    if |f| >= 2 {
      assert Adjacent(f[0], f[1]);
      forall i | 0 <= i < |f[2..]| - 1
        ensures Adjacent(f[2..][i], f[2..][i + 1])
      {
        assert Adjacent(f[i + 2], f[i + 3]);
      }
      CoalesceRun(f[2..]);
      var g := Coalesce(f);
      forall i | 0 <= i < |g| - 1
        ensures Adjacent(g[i], g[i + 1])
      {
        if i == 0 {
          assert Adjacent(f[1], f[2]);
        } else {
          assert Adjacent(Coalesce(f[2..])[i - 1], Coalesce(f[2..])[i]);
        }
      }
    }
  }

  lemma CoalesceUnfold(f: seq<Block>)
    ensures |f| < 2 ==> Coalesce(f) == f
    ensures |f| >= 2 ==>
      Coalesce(f) == if Adjacent(f[0], f[1]) then [Merge(f[0], f[1])] + Coalesce(f[2..]) else [f[0]] + Coalesce(f[1..])
  {
  }

  lemma ConsConcat(c: Block, x: seq<Block>, y: seq<Block>)
    ensures [c] + (x + y) == [c] + x + y
  {
  }

  /** How many blocks the pass consumes first, and what it makes of them. */
  function HeadLength(f: seq<Block>): nat {
    if |f| >= 2 && Adjacent(f[0], f[1]) then 2 else 1
  }

  lemma GapStep(x: seq<Block>, y: seq<Block>)
    requires |x| >= 2
    ensures var d := HeadLength(x);
      exists c :: Coalesce(x) == [c] + Coalesce(x[d..]) && Coalesce(x + y) == [c] + Coalesce(x[d..] + y)
  {
    hide Coalesce;
    var d := HeadLength(x);
    var c := if d == 2 then Merge(x[0], x[1]) else x[0];
    CoalesceUnfold(x);
    CoalesceUnfold(x + y);
    assert (x + y)[d..] == x[d..] + y;
    assert Coalesce(x) == [c] + Coalesce(x[d..]) && Coalesce(x + y) == [c] + Coalesce(x[d..] + y);
  }

  lemma GapLast(x: seq<Block>, y: seq<Block>)
    requires |x| <= 1 && Touch(x, y) == 0
    ensures Coalesce(x + y) == Coalesce(x) + Coalesce(y)
  {
    hide Coalesce;
    CoalesceUnfold(x);
    CoalesceUnfold(x + y);
    if x == [] {
      assert x + y == y;
    } else if y == [] {
      CoalesceUnfold(y);
      assert x + y == x;
    } else {
      assert (x + y)[1..] == y;
    }
  }

  /** The pass treats each maximal run on its own. */
  lemma {:induction false} CoalesceAcrossGap(x: seq<Block>, y: seq<Block>)
    requires Touch(x, y) == 0
    ensures Coalesce(x + y) == Coalesce(x) + Coalesce(y)
    decreases |x|
  {
    hide Coalesce;
    if |x| <= 1 {
      GapLast(x, y);
    } else {
      var d := HeadLength(x);
      GapStep(x, y);
      var c :| Coalesce(x) == [c] + Coalesce(x[d..]) && Coalesce(x + y) == [c] + Coalesce(x[d..] + y);
      CoalesceAcrossGap(x[d..], y);
      ConsConcat(c, Coalesce(x[d..]), Coalesce(y));
    }
  }

  /** A block's room survives the pass inside a block at least as large. */
  lemma {:induction false} CoalesceKeepsRoom(f: seq<Block>, i: nat) returns (j: nat)
    requires i < |f|
    ensures j < |Coalesce(f)| && f[i].size <= Coalesce(f)[j].size
    decreases |f|
  {
    if |f| < 2 {
      j := i;
    } else if Adjacent(f[0], f[1]) {
      if i < 2 {
        j := 0;
      } else {
        var k := CoalesceKeepsRoom(f[2..], i - 2);
        j := k + 1;
      }
    } else {
      if i == 0 {
        j := 0;
      } else {
        var k := CoalesceKeepsRoom(f[1..], i - 1);
        j := k + 1;
      }
    }
  }
}
