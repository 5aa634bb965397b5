/** Whole runs of `pmm_alloc` and `pmm_free` after `pmm_init`: which addresses are
    never handed out. */
module PageRuns {
  import opened Machine
  import opened PageAllocator

  datatype Call = Alloc | Free(addr: Word)

  /** What `pmm_alloc` returns when `pool` are the free pages. */
  ghost function Returned(pool: set<nat>): nat {
    if pool == {} then 0 else Min(pool) * PAGE_SIZE
  }

  ghost function After(pool: set<nat>, call: Call): set<nat> {
    match call
    case Alloc => if pool == {} then pool else pool - {Min(pool)}
    case Free(addr) => if 0 < PageOf(addr) < TOTAL_PAGES then pool + {PageOf(addr)} else pool
  }

  ghost function Run(pool: set<nat>, calls: seq<Call>): set<nat> {
    if calls == [] then pool else After(Run(pool, calls[..|calls| - 1]), calls[|calls| - 1])
  }

  /** The addresses that the calls of a run return, with 0 for a release. */
  ghost function Log(pool: set<nat>, calls: seq<Call>): seq<nat> {
    if calls == [] then []
    else
      var before := calls[..|calls| - 1];
      Log(pool, before) + [if calls[|calls| - 1] == Alloc then Returned(Run(pool, before)) else 0]
  }

  /** The bitmap serves any run of calls as the pool of free pages says. */
  method Serve(pmm: Pmm, calls: seq<Call>) returns (log: seq<nat>)
    requires pmm.Valid()
    modifies pmm.bitmap
    ensures pmm.Valid() && pmm.Free() == Run(old(pmm.Free()), calls) && log == Log(old(pmm.Free()), calls)
  {
    hide FreeOf;
    ghost var pool := pmm.Free();
    log := [];
    var i := 0;
    while i < |calls|
      invariant 0 <= i <= |calls| && pmm.Valid()
      invariant pmm.Free() == Run(pool, calls[..i]) && log == Log(pool, calls[..i])
    {
      assert calls[..i + 1][..i] == calls[..i];
      match calls[i] {
        case Alloc =>
          var addr := pmm.Alloc();
          log := log + [addr];
        case Free(addr) =>
          pmm.Release(addr);
          log := log + [0];
      }
      i := i + 1;
    }
    assert calls[..|calls|] == calls;
  }

  // ---------- what pmm_init keeps back ----------

  /** Below 3 MB: the kernel image, the BIOS, VGA and ROM area, and everything from the
      kernel stack's top up. */
  predicate Reserved(kernelEnd: Word, a: nat) {
    a < 0x30_0000 && (a < kernelEnd || 0xA_0000 <= a <= 0xF_FFFF || 0x1F_0000 <= a)
  }

  ghost function AtBoot(kernelEnd: Word): set<nat>
    requires 0 < kernelEnd <= 0xFFFF_F000
  {
    InitiallyFree((kernelEnd + PAGE_SIZE - 1) / PAGE_SIZE)
  }

  predicate OnPage(p: nat, a: nat) {
    p * 4096 <= a < p * 4096 + 4096
  }

  /** A page is free after `pmm_init` if and only if none of its addresses is reserved. */
  lemma FreeAtBootIff(kernelEnd: Word, p: nat)
    requires 0 < kernelEnd <= 0xFFFF_F000
    ensures p in AtBoot(kernelEnd) <==> p < 4096 && forall a: nat :: OnPage(p, a) ==> !Reserved(kernelEnd, a)
  {
    var kend := (kernelEnd + PAGE_SIZE - 1) / PAGE_SIZE;
    assert kend <= p <==> kernelEnd <= p * 4096;
    assert OnPage(p, p * 4096);
    if p in AtBoot(kernelEnd) {
      forall a: nat | OnPage(p, a)
        ensures !Reserved(kernelEnd, a)
      {
        assert PageOf(a) == p;
      }
    }
  }

  /** The run releases no address of page `p`. */
  predicate NoneFrees(calls: seq<Call>, p: nat) {
    forall i :: 0 <= i < |calls| && calls[i].Free? ==> PageOf(calls[i].addr) != p
  }

  /** A page that is not free stays so until it is released. */
  lemma {:induction false} OutStaysOut(pool: set<nat>, calls: seq<Call>, p: nat)
    requires p !in pool && NoneFrees(calls, p)
    ensures p !in Run(pool, calls)
  {
    if calls != [] {
      OutStaysOut(pool, calls[..|calls| - 1], p);
    }
  }

  lemma ReturnedIsFree(pool: set<nat>, a: nat)
    requires Returned(pool) != 0 && Returned(pool) <= a < Returned(pool) + 4096
    ensures PageOf(a) in pool
  {
    assert PageOf(a) == Min(pool);
  }

  /** After any run from boot, what `pmm_alloc` returns contains no reserved address
      whose page has not been released. */
  lemma ReservedNeverReturned(kernelEnd: Word, calls: seq<Call>, a: nat)
    requires 0 < kernelEnd <= 0xFFFF_F000 && Reserved(kernelEnd, a) && NoneFrees(calls, PageOf(a))
    ensures var r := Returned(Run(AtBoot(kernelEnd), calls)); r == 0 || !(r <= a < r + 4096)
  {
    hide AtBoot, Run, Returned, Reserved;
    var pool := AtBoot(kernelEnd);
    FreeAtBootIff(kernelEnd, PageOf(a));
    assert OnPage(PageOf(a), a);
    OutStaysOut(pool, calls, PageOf(a));
    var r := Returned(Run(pool, calls));
    if r != 0 && r <= a < r + 4096 {
      ReturnedIsFree(Run(pool, calls), a);
      assert false;
    }
  }

  /** Nor is a page returned twice without having been released in between. */
  lemma NeverTwice(pool: set<nat>, calls: seq<Call>)
    requires pool != {} && NoneFrees(calls, Min(pool))
    ensures var r := Returned(Run(After(pool, Alloc), calls)); r == 0 || r != Returned(pool)
  {
    hide Run;
    var later := Run(After(pool, Alloc), calls);
    OutStaysOut(After(pool, Alloc), calls, Min(pool));
    assert later != {} ==> Min(later) != Min(pool);
  }

  /** The user stack page at 0x300000 is in the pool after `pmm_init`: it is handed out
      as soon as, and only when, it is free and no lower page is. */
  lemma StackPageReturnedIff(kernelEnd: Word, pool: set<nat>)
    requires 0 < kernelEnd <= 0xFFFF_F000
    ensures 0x300 in AtBoot(kernelEnd)
    ensures Returned(pool) == 0x30_0000 <==> 0x300 in pool && forall q :: q in pool ==> 0x300 <= q
  {
  }
}
