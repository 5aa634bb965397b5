/** The physical page allocator: one bit per 4 KB page, 1 = used. */
module PageAllocator {
  import opened Machine

  const BITMAP_BYTES := 512

  function Mask(bit: nat): bv8
    requires bit < 8
  {
    1 << bit
  }

  predicate BitSet(b: bv8, bit: nat)
    requires bit < 8
  {
    b & Mask(bit) != 0
  }

  predicate Used(bits: seq<bv8>, page: nat)
    requires |bits| == BITMAP_BYTES && page < TOTAL_PAGES
  {
    BitSet(bits[page / 8], page % 8)
  }

  /** The abstraction of the bitmap: the set of free page numbers. */
  ghost function FreeOf(bits: seq<bv8>): set<nat>
    requires |bits| == BITMAP_BYTES
  {
    set p: nat | p < TOTAL_PAGES && !Used(bits, p)
  }

  lemma SetBit(b: bv8, i: nat, j: nat)
    requires i < 8 && j < 8
    ensures BitSet(b | Mask(i), j) <==> i == j || BitSet(b, j)
  {
    MaskValue(i);
    MaskValue(j);
  }

  lemma ClearBit(b: bv8, i: nat, j: nat)
    requires i < 8 && j < 8
    ensures BitSet(b & !Mask(i), j) <==> i != j && BitSet(b, j)
  {
    MaskValue(i);
    MaskValue(j);
  }

  lemma MaskValue(i: nat)
    requires i < 8
    ensures Mask(i) == [1, 2, 4, 8, 16, 32, 64, 128][i]
  {
  }

  lemma FullByte(b: bv8)
    ensures b == 0xFF <==> forall i: nat :: i < 8 ==> BitSet(b, i)
  {
    if forall i: nat :: i < 8 ==> BitSet(b, i) {
      assert BitSet(b, 0) && BitSet(b, 1) && BitSet(b, 2) && BitSet(b, 3);
      assert BitSet(b, 4) && BitSet(b, 5) && BitSet(b, 6) && BitSet(b, 7);
      assert b & 1 != 0 && b & 2 != 0 && b & 4 != 0 && b & 8 != 0;
    }
  }

  lemma UsedAfterSet(bits: seq<bv8>, i: nat, bit: nat)
    requires |bits| == BITMAP_BYTES && i < BITMAP_BYTES && bit < 8
    ensures FreeOf(bits[i := bits[i] | Mask(bit)]) == FreeOf(bits) - {i * 8 + bit}
  {
    var bits' := bits[i := bits[i] | Mask(bit)];
    forall p: nat | p < TOTAL_PAGES
      ensures Used(bits', p) <==> p == i * 8 + bit || Used(bits, p)
    {
      SetBit(bits[i], bit, p % 8);
    }
  }

  lemma FullByteUsed(bits: seq<bv8>, i: nat)
    requires |bits| == BITMAP_BYTES && i < BITMAP_BYTES
    requires bits[i] == 0xFF || forall k: nat :: k < 8 ==> BitSet(bits[i], k)
    ensures forall p: nat :: i * 8 <= p < i * 8 + 8 ==> Used(bits, p)
  {
    FullByte(bits[i]);
    forall p: nat | i * 8 <= p < i * 8 + 8
      ensures Used(bits, p)
    {
      assert p / 8 == i;
    }
  }

  /** Setting the first clear bit takes the least free page. */
  lemma TakeLeast(bits: seq<bv8>, i: nat, bit: nat)
    requires |bits| == BITMAP_BYTES && i < BITMAP_BYTES && bit < 8
    requires forall p: nat :: p < i * 8 ==> Used(bits, p)
    requires forall k: nat :: k < bit ==> BitSet(bits[i], k)
    requires !BitSet(bits[i], bit)
    ensures FreeOf(bits) != {} && Min(FreeOf(bits)) == i * 8 + bit
    ensures FreeOf(bits[i := bits[i] | Mask(bit)]) == FreeOf(bits) - {i * 8 + bit}
  {
    UsedAfterSet(bits, i, bit);
    var q := i * 8 + bit;
    assert q / 8 == i && q % 8 == bit;
    assert q in FreeOf(bits);
    forall p: nat | p < q
      ensures Used(bits, p)
    {
      if i * 8 <= p {
        assert p / 8 == i && p % 8 < bit;
      }
    }
  }

  lemma FreeAfterClear(bits: seq<bv8>, p: nat)
    requires |bits| == BITMAP_BYTES && p < TOTAL_PAGES
    ensures FreeOf(bits[p / 8 := bits[p / 8] & !Mask(p % 8)]) == FreeOf(bits) + {p}
  {
    var bits' := bits[p / 8 := bits[p / 8] & !Mask(p % 8)];
    forall q: nat | q < TOTAL_PAGES
      ensures Used(bits', q) <==> p != q && Used(bits, q)
    {
      ClearBit(bits[p / 8], p % 8, q % 8);
    }
  }

  /** The pages `pmm_init` releases: above the kernel image and below the kernel
      stack except for the BIOS/VGA/ROM hole, and everything from 3 MB up. */
  ghost function InitiallyFree(kendPage: nat): set<nat> {
    set p: nat | p < TOTAL_PAGES && (LowPage(kendPage, p) || 0x300 <= p)
  }

  predicate LowPage(kendPage: nat, p: nat) {
    kendPage <= p < 0x1F0 && !(0xA0 <= p <= 0xFF)
  }

  class Pmm {
    const bitmap: array<bv8>

    ghost predicate Valid()
      reads bitmap
    {
      bitmap.Length == BITMAP_BYTES && 0 !in Free()
    }

    ghost function Free(): set<nat>
      requires bitmap.Length == BITMAP_BYTES
      reads bitmap
    {
      FreeOf(bitmap[..])
    }

    method Clear(p: nat)
      requires bitmap.Length == BITMAP_BYTES && p < TOTAL_PAGES
      modifies bitmap
      ensures Free() == old(Free()) + {p}
    {
      FreeAfterClear(bitmap[..], p);
      bitmap[p / 8] := bitmap[p / 8] & !Mask(p % 8);
      assert bitmap[..] == old(bitmap[..])[p / 8 := bitmap[p / 8]];
    }

    /** `pmm_init`.  `kernelEnd` is the linker's `_kernel_end`. */
    constructor (kernelEnd: Word)
      requires 0 < kernelEnd <= 0xFFFF_F000
      ensures Valid() && fresh(bitmap)
      ensures Free() == InitiallyFree((kernelEnd + PAGE_SIZE - 1) / PAGE_SIZE)
    {
      bitmap := new bv8[BITMAP_BYTES];
      new;
      var i := 0;
      while i < BITMAP_BYTES
        invariant 0 <= i <= BITMAP_BYTES
        invariant forall k :: 0 <= k < i ==> bitmap[k] == 0xFF
      {
        bitmap[i] := 0xFF;
        i := i + 1;
      }
      forall q: nat | q < TOTAL_PAGES
        ensures Used(bitmap[..], q)
      {
        FullByteUsed(bitmap[..], q / 8);
      }
      var kendPage: nat := (kernelEnd + PAGE_SIZE - 1) / PAGE_SIZE;
      var p: nat := kendPage;
      while p < 0x1F0
        invariant kendPage <= p
        invariant Free() == set q: nat | q < p && LowPage(kendPage, q)
      {
        if !(0xA0 <= p <= 0xFF) {
          Clear(p);
        }
        p := p + 1;
      }
      p := 0x300;
      while p < TOTAL_PAGES
        invariant 0x300 <= p <= TOTAL_PAGES
        invariant Free() == set q: nat | q < TOTAL_PAGES && (LowPage(kendPage, q) || 0x300 <= q < p)
      {
        Clear(p);
        p := p + 1;
      }
    }

    /** `pmm_alloc`: removes and returns the least free page; zero exactly when
        no page is free. */
    method Alloc() returns (addr: Word)
      requires Valid()
      modifies bitmap
      ensures Valid()
      ensures addr == 0 <==> old(Free()) == {}
      ensures addr == 0 ==> Free() == old(Free())
      ensures addr != 0 ==> addr == Min(old(Free())) * PAGE_SIZE && Free() == old(Free()) - {Min(old(Free()))}
    {
      hide FreeOf, Used;
      ghost var bits := bitmap[..];
      var i := 0;
      while i < BITMAP_BYTES
        invariant 0 <= i <= BITMAP_BYTES
        invariant bitmap[..] == bits
        invariant forall p: nat :: p < i * 8 ==> Used(bits, p)
      {
        if bitmap[i] != 0xFF {
          var bit := 0;
          while bit < 8
            invariant 0 <= bit <= 8
            invariant bitmap[..] == bits
            invariant forall k: nat :: k < bit ==> BitSet(bits[i], k)
          {
            if bitmap[i] & Mask(bit) == 0 {
              TakeLeast(bits, i, bit);
              bitmap[i] := bitmap[i] | Mask(bit);
              assert bitmap[..] == bits[i := bits[i] | Mask(bit)];
              return (i * 8 + bit) * PAGE_SIZE;
            }
            bit := bit + 1;
          }
        }
        FullByteUsed(bits, i);
        i := i + 1;
      }
      AllUsed(bits);
      return 0;
    }

    /** `pmm_free`: page 0 and addresses past the end of memory are ignored. */
    method Release(addr: Word)
      requires Valid()
      modifies bitmap
      ensures Valid()
      ensures Free() == old(Free()) + (if 0 < PageOf(addr) < TOTAL_PAGES then {PageOf(addr)} else {})
    {
      var page := addr / PAGE_SIZE;
      if page > 0 && page < TOTAL_PAGES {
        Clear(page);
      }
    }

    /** `pmm_get_free_count`. */
    method FreeCount() returns (count: nat)
      requires Valid()
      ensures count == |Free()|
    {
      hide FreeBelow, Used, BitSet;
      ghost var bits := bitmap[..];
      count := 0;
      var i := 0;
      NoneBelow(bits);
      while i < BITMAP_BYTES
        invariant 0 <= i <= BITMAP_BYTES && count == |FreeBelow(bits, i * 8)|
      {
        var b := bitmap[i];
        var bit := 0;
        while bit < 8
          invariant 0 <= bit <= 8 && count == |FreeBelow(bits, i * 8 + bit)|
        {
          BitOfPage(bits, i, bit);
          OneMoreBelow(bits, i * 8 + bit);
          if b & Mask(bit) == 0 {
            count := count + 1;
          }
          bit := bit + 1;
        }
        i := i + 1;
      }
      AllBelow(bits);
    }
  }

  /** The free pages below number `n`. */
  ghost function FreeBelow(bits: seq<bv8>, n: nat): set<nat>
    requires |bits| == BITMAP_BYTES
  {
    set p: nat | p < n && p in FreeOf(bits)
  }

  lemma NoneBelow(bits: seq<bv8>)
    requires |bits| == BITMAP_BYTES
    ensures FreeBelow(bits, 0) == {}
  {
  }

  lemma AllBelow(bits: seq<bv8>)
    requires |bits| == BITMAP_BYTES
    ensures FreeBelow(bits, BITMAP_BYTES * 8) == FreeOf(bits)
  {
  }

  lemma OneMoreBelow(bits: seq<bv8>, n: nat)
    requires |bits| == BITMAP_BYTES && n < TOTAL_PAGES
    ensures |FreeBelow(bits, n + 1)| == |FreeBelow(bits, n)| + if Used(bits, n) then 0 else 1
  {
    hide Used;
    assert FreeBelow(bits, n + 1) == FreeBelow(bits, n) + if Used(bits, n) then {} else {n};
  }

  lemma BitOfPage(bits: seq<bv8>, i: nat, bit: nat)
    requires |bits| == BITMAP_BYTES && i < BITMAP_BYTES && bit < 8
    ensures i * 8 + bit < TOTAL_PAGES && (Used(bits, i * 8 + bit) <==> bits[i] & Mask(bit) != 0)
  {
  }

  lemma AllUsed(bits: seq<bv8>)
    requires |bits| == BITMAP_BYTES && forall p: nat :: p < BITMAP_BYTES * 8 ==> Used(bits, p)
    ensures FreeOf(bits) == {}
  {
  }
}
