/** The free list as it lies in memory: what the header words of the blocks say,
    and how relinking changes them. */
module HeapMemory {
  import opened Machine
  import opened HeapBlocks

  predicate InMemory(b: Block) {
    b.End() <= MEM_SIZE
  }

  /** No block sits at address zero, which stands for the end of the list. */
  predicate NonNull(f: seq<Block>) {
    forall i :: 0 <= i < |f| ==> 0 < f[i].addr
  }

  function First(f: seq<Block>): nat {
    if f == [] then 0 else f[0].addr
  }

  /** Following `next` from `from` visits the blocks of `f` in order and arrives
      at `to`.  Header layout: size, is_free, next, padding; one word each. */
  ghost predicate Segment(m: seq<Word>, from: int, f: seq<Block>, to: int)
    decreases |f|
  {
    && |m| == MEM_SIZE
    && if f == [] then from == to
       else
         && from == f[0].addr && InMemory(f[0])
         && m[from] == f[0].size && m[from + 4] == 1
         && Segment(m, m[from + 8], f[1..], to)
  }

  ghost predicate LiveHeaders(m: seq<Word>, live: seq<Block>) {
    && |m| == MEM_SIZE
    && forall i :: 0 <= i < |live| ==> InMemory(live[i]) && m[live[i].addr] == live[i].size && m[live[i].addr + 4] == 0
  }

  /** The memories differ at most at the addresses in `where`. */
  ghost predicate ChangedWithin(m: seq<Word>, n: seq<Word>, where: set<int>) {
    && |m| == |n| == MEM_SIZE
    && forall a :: 0 <= a < MEM_SIZE && a !in where ==> m[a] == n[a]
  }

  lemma ChangedTrans(m: seq<Word>, n: seq<Word>, k: seq<Word>, where: set<int>, where': set<int>)
    requires ChangedWithin(m, n, where) && ChangedWithin(n, k, where')
    ensures ChangedWithin(m, k, where + where')
  {
  }

  lemma HeaderInSpan(b: Block)
    ensures {b.addr, b.addr + 4, b.addr + 8} <= Span(b)
  {
    assert Holds(b, b.addr) && Holds(b, b.addr + 4) && Holds(b, b.addr + 8);
  }

  /** Blocks whose bytes did not change still have their headers. */
  lemma LiveHeadersFrame(m: seq<Word>, n: seq<Word>, where: set<int>, live: seq<Block>)
    requires LiveHeaders(m, live) && ChangedWithin(m, n, where)
    requires forall i :: 0 <= i < |live| ==> Span(live[i]) !! where
    ensures LiveHeaders(n, live)
  {
    forall i | 0 <= i < |live|
      ensures n[live[i].addr] == live[i].size && n[live[i].addr + 4] == 0
    {
      HeaderInSpan(live[i]);
    }
  }

  /** Blocks apart from each other share no byte. */
  lemma ApartSpans(b: Block, bs: seq<Block>)
    requires ApartFromAll(b, bs)
    ensures Span(b) !! Cover(bs)
  {
    forall a | a in Span(b)
      ensures a !in Cover(bs)
    {
      if a in Cover(bs) {
        var i := CoverWitness(bs, a);
        assert false;
      }
    }
  }

  lemma {:induction false} SegmentFrame(m: seq<Word>, n: seq<Word>, where: set<int>, from: int, f: seq<Block>, to: int)
    requires Segment(m, from, f, to) && ChangedWithin(m, n, where) && Cover(f) !! where
    ensures Segment(n, from, f, to)
    decreases |f|
  {
    if f != [] {
      HeaderInSpan(f[0]);
      SegmentFrame(m, n, where, m[from + 8], f[1..], to);
    }
  }

  lemma {:induction false} SegmentConcat(m: seq<Word>, from: int, x: seq<Block>, mid: int, y: seq<Block>, to: int)
    requires Segment(m, from, x, mid) && Segment(m, mid, y, to)
    ensures Segment(m, from, x + y, to)
    decreases |x|
  {
    if x == [] {
      assert x + y == y;
    } else {
      assert (x + y)[1..] == x[1..] + y;
      SegmentConcat(m, m[from + 8], x[1..], mid, y, to);
    }
  }

  /** Redirecting the last block's `next`. */
  lemma {:induction false} SegmentRetarget(m: seq<Word>, from: int, x: seq<Block>, to: int, to': Word)
    requires Segment(m, from, x, to) && x != [] && Sorted(x)
    ensures InMemory(x[|x| - 1])
    ensures Segment(m[x[|x| - 1].addr + 8 := to'], from, x, to')
    decreases |x|
  {
    if |x| > 1 {
      assert x[0].End() <= x[|x| - 1].addr;
      assert x[1..][|x| - 2] == x[|x| - 1];
      SegmentRetarget(m, m[from + 8], x[1..], to, to');
    } else {
      assert x[1..] == [];
    }
  }

  /** One word written inside a block leaves segments apart from it alone. */
  lemma WriteFrame(m: seq<Word>, b: Block, offset: nat, v: Word, from: int, f: seq<Block>, to: int)
    requires Segment(m, from, f, to) && InMemory(b) && ApartFromAll(b, f) && offset in {0, 4, 8}
    ensures Segment(m[b.addr + offset := v], from, f, to)
  {
    ApartSpans(b, f);
    HeaderInSpan(b);
    SegmentFrame(m, m[b.addr + offset := v], Span(b), from, f, to);
  }

  /** A block with a correct header goes in front of a segment. */
  lemma SegmentCons(m: seq<Word>, b: Block, f: seq<Block>, to: int)
    requires |m| == MEM_SIZE && InMemory(b) && m[b.addr] == b.size && m[b.addr + 4] == 1
    requires Segment(m, m[b.addr + 8], f, to)
    ensures Segment(m, b.addr, [b] + f, to)
  {
    assert ([b] + f)[1..] == f;
  }

  /** Pointing the last block of `x` at a segment that follows it. */
  lemma SegmentJoin(m: seq<Word>, head: int, x: seq<Block>, to: int, y: seq<Block>)
    requires x != [] && Segment(m, head, x, to) && Segment(m, First(y), y, 0)
    requires Sorted(x) && ApartFromAll(x[|x| - 1], y)
    ensures InMemory(x[|x| - 1]) && First(y) < 0x1_0000_0000
    ensures Segment(m[x[|x| - 1].addr + 8 := First(y)], head, x + y, 0)
  {
    var last := x[|x| - 1];
    SegmentRetarget(m, head, x, to, First(y));
    WriteFrame(m, last, 8, First(y), First(y), y, 0);
    SegmentConcat(m[last.addr + 8 := First(y)], head, x, First(y), y, 0);
  }

  lemma PartsApart(x: seq<Block>, y: seq<Block>, b: Block)
    requires Sorted(x + y) && ApartFromAll(b, x + y)
    ensures Sorted(x) && ApartFromAll(b, x) && ApartFromAll(b, y)
    ensures x != [] ==> ApartFromAll(x[|x| - 1], y) && Apart(x[|x| - 1], b)
  {
    var f := x + y;
    assert forall i :: 0 <= i < |x| ==> f[i] == x[i];
    assert forall i :: 0 <= i < |y| ==> f[|x| + i] == y[i];
  }

  /** Linking `b`, whose header is filled in but for `next`, in between `x` and `y`. */
  lemma LinkBetween(m: seq<Word>, head: int, x: seq<Block>, b: Block, y: seq<Block>)
    requires x != [] && Segment(m, head, x, First(y)) && Segment(m, First(y), y, 0) && Sorted(x)
    requires ApartFromAll(b, x) && ApartFromAll(b, y) && ApartFromAll(x[|x| - 1], [b] + y)
    requires InMemory(x[|x| - 1]) && First(y) < MEM_SIZE
    requires InMemory(b) && m[b.addr] == b.size && m[b.addr + 4] == 1
    ensures Segment(m[b.addr + 8 := First(y)][x[|x| - 1].addr + 8 := b.addr], head, x + ([b] + y), 0)
  {
    var m1 := m[b.addr + 8 := First(y)];
    WriteFrame(m, b, 8, First(y), head, x, First(y));
    WriteFrame(m, b, 8, First(y), First(y), y, 0);
    SegmentCons(m1, b, y, 0);
    SegmentJoin(m1, head, x, First(y), [b] + y);
  }

  lemma SegmentEmpty(m: seq<Word>, a: int)
    requires |m| == MEM_SIZE
    ensures Segment(m, a, [], a)
  {
  }

  /** A list is at its end exactly when the link is null. */
  lemma SegmentEnds(m: seq<Word>, from: int, y: seq<Block>)
    requires Segment(m, from, y, 0) && NonNull(y)
    ensures from == 0 <==> y == []
  {
  }

  lemma NothingChanged(m: seq<Word>, where: set<int>)
    requires |m| == MEM_SIZE
    ensures ChangedWithin(m, m, where)
  {
  }

  /** The block at the head of a segment, and the segment it points to. */
  lemma SegmentHead(m: seq<Word>, from: int, y: seq<Block>)
    requires Segment(m, from, y, 0) && y != []
    ensures from == y[0].addr && InMemory(y[0]) && m[from] == y[0].size && m[from + 4] == 1
    ensures m[from + 8] == First(y[1..]) && Segment(m, First(y[1..]), y[1..], 0)
    ensures Segment(m, from, [y[0]], First(y[1..]))
  {
    assert [y[0]][1..] == [];
  }

  /** The list from a block on, after `coalesce_forward` of that block. */
  function Forward(y: seq<Block>): seq<Block>
    requires y != []
  {
    if |y| >= 2 && Adjacent(y[0], y[1]) then [Merge(y[0], y[1])] + y[2..] else y
  }

  /** The two writes of `coalesce_forward` absorb the next block. */
  lemma ForwardLinked(m: seq<Word>, from: int, y: seq<Block>, size: Word, after: Word)
    requires Segment(m, from, y, 0) && Sorted(y) && |y| >= 2 && Adjacent(y[0], y[1])
    requires size == y[0].size + HEADER_SIZE + y[1].size && InMemory(y[1]) && after == m[y[1].addr + 8]
    ensures from + 8 < MEM_SIZE
    ensures Segment(m[from := size][from + 8 := after], from, Forward(y), 0)
    ensures ChangedWithin(m, m[from := size][from + 8 := after], Span(y[0]))
  {
    SegmentHead(m, from, y);
    SegmentHead(m, y[1].addr, y[1..]);
    HeaderInSpan(y[0]);
    var z, b := y[2..], Merge(y[0], y[1]);
    assert y[1..][1..] == z;
    WriteFrame(m, b, 0, size, First(z), z, 0);
    WriteFrame(m[from := size], b, 8, after, First(z), z, 0);
    SegmentCons(m[from := size][from + 8 := after], b, z, 0);
  }
}
