/** Address translation as a flat map from virtual pages, and what every run of
    map and unmap requests does to it. */
module PagingSpec {
  import opened Machine

  const VIRTUAL_PAGES := 0x10_0000
  const ENTRIES := 1024
  const PRESENT := 1
  const WRITABLE := 2
  const USER := 4

  datatype Mapping = Mapping(frame: nat, flags: nat)

  /** `flat` maps virtual page numbers to frames and flags; `dirs` holds the
      directory slots that have a page table, with their user bit; `pool` is the
      set of free physical pages. */
  datatype Space = Space(flat: map<nat, Mapping>, dirs: map<nat, bool>, pool: set<nat>)

  datatype Op = Map(virt: Word, phys: Word, flags: Word) | Unmap(virt: Word)

  function PdOf(v: nat): nat { v / ENTRIES }

  function PtOf(v: nat): nat { v % ENTRIES }

  predicate HasUser(flags: nat) { flags / USER % 2 == 1 }

  /** `flags | PAGE_PRESENT`. */
  function WithPresent(flags: nat): nat {
    if flags % 2 == 1 then flags else flags + PRESENT
  }

  function MappingFor(phys: Word, flags: Word): Mapping {
    Mapping(phys / PAGE_SIZE, WithPresent(flags % PAGE_SIZE))
  }

  /** A table for the page exists or can be had. */
  ghost predicate CanMap(s: Space, virt: Word) {
    PdOf(PageOf(virt)) in s.dirs || s.pool != {}
  }

  ghost function MapPage(s: Space, virt: Word, phys: Word, flags: Word): Space {
    var v := PageOf(virt);
    var d := PdOf(v);
    if !CanMap(s, virt) then s
    else
      Space(s.flat[v := MappingFor(phys, flags)],
            s.dirs[d := (d in s.dirs && s.dirs[d]) || HasUser(flags)],
            if d in s.dirs then s.pool else s.pool - {Min(s.pool)})
  }

  function UnmapPage(s: Space, virt: Word): Space {
    s.(flat := s.flat - {PageOf(virt)})
  }

  ghost function Step(s: Space, op: Op): Space {
    match op
    case Map(virt, phys, flags) => MapPage(s, virt, phys, flags)
    case Unmap(virt) => UnmapPage(s, virt)
  }

  ghost function Run(s: Space, ops: seq<Op>): Space
    decreases |ops|
  {
    if ops == [] then s else Run(Step(s, ops[0]), ops[1..])
  }

  // ---------- what the processor sees ----------

  /** The address the walk of section 4.3 of the Intel SDM volume 3A yields, or 0. */
  function Translate(s: Space, virt: Word): nat {
    var v := PageOf(virt);
    if PdOf(v) in s.dirs && v in s.flat then s.flat[v].frame * PAGE_SIZE + virt % PAGE_SIZE else 0
  }

  /** Section 4.6: user mode reaches a page only if both levels allow it. */
  predicate UserAccessible(s: Space, v: nat) {
    PdOf(v) in s.dirs && s.dirs[PdOf(v)] && v in s.flat && HasUser(s.flat[v].flags)
  }

  /** Bit `k` of a word, bit 0 being the lowest. */
  predicate Bit(w: nat, k: nat) {
    if k == 0 then w % 2 == 1 else Bit(w / 2, k - 1)
  }

  /** A mapped page's entry carries flag bit `k`. */
  predicate PageHas(s: Space, v: nat, k: nat) {
    PdOf(v) in s.dirs && v in s.flat && Bit(s.flat[v].flags, k)
  }

  /** Directory entries always allow writing, so a page is writable when its own entry
      has bit 1. */
  predicate Writable(s: Space, v: nat) {
    PageHas(s, v, 1)
  }

  // ---------- the invariant ----------

  ghost predicate Consistent(s: Space, v: nat)
    requires v in s.flat
  {
    && v < VIRTUAL_PAGES && PdOf(v) in s.dirs
    && s.flat[v].frame < VIRTUAL_PAGES && s.flat[v].flags < PAGE_SIZE && s.flat[v].flags % 2 == 1
    && (HasUser(s.flat[v].flags) ==> s.dirs[PdOf(v)])
  }

  ghost predicate Inv(s: Space) {
    && (forall v :: v in s.flat ==> Consistent(s, v))
    && (forall d :: d in s.dirs ==> d < ENTRIES)
  }

  lemma UserInLowBits(q: nat, low: nat)
    requires low < PAGE_SIZE
    ensures HasUser(q * PAGE_SIZE + low) <==> HasUser(low)
  {
    assert (q * PAGE_SIZE + low) / USER == 2 * (q * 512) + low / USER;
  }

  lemma PresentKeepsUser(flags: nat)
    ensures HasUser(WithPresent(flags % PAGE_SIZE)) <==> HasUser(flags)
    ensures WithPresent(flags % PAGE_SIZE) < PAGE_SIZE && WithPresent(flags % PAGE_SIZE) % 2 == 1
  {
    var low := flags % PAGE_SIZE;
    UserInLowBits(flags / PAGE_SIZE, low);
    assert flags == flags / PAGE_SIZE * PAGE_SIZE + low;
    hide HasUser;
    SetPresent(low);
  }

  lemma SetPresent(low: nat)
    requires low < PAGE_SIZE
    ensures HasUser(WithPresent(low)) <==> HasUser(low)
    ensures WithPresent(low) < PAGE_SIZE && WithPresent(low) % 2 == 1
  {
  }

  /** `q` shifted left by `n` bits. */
  function High(q: nat, n: nat): nat {
    if n == 0 then q else 2 * High(q, n - 1)
  }

  lemma {:induction false} BitOfLow(q: nat, n: nat, low: nat, k: nat)
    requires k < n
    ensures Bit(High(q, n) + low, k) <==> Bit(low, k)
    decreases k
  {
    if k > 0 {
      assert (High(q, n) + low) / 2 == High(q, n - 1) + low / 2;
      BitOfLow(q, n - 1, low / 2, k - 1);
    }
  }

  /** The twelve low bits of an entry are its flags. */
  lemma EntryBit(frame: nat, flags: nat, k: nat)
    requires k < 12
    ensures Bit(frame * PAGE_SIZE + flags, k) <==> Bit(flags, k)
  {
    hide Bit;
    HighIs(frame);
    BitOfLow(frame, 12, flags, k);
  }

  lemma {:induction false} HighTimes(q: nat, n: nat)
    ensures High(q, n) == q * High(1, n)
  {
    if n > 0 {
      HighTimes(q, n - 1);
    }
  }

  lemma HighIs(q: nat)
    ensures High(q, 12) == q * PAGE_SIZE
  {
    HighTimes(q, 12);
    assert High(1, 12) == PAGE_SIZE;
  }

  /** A mapping keeps every flag bit from 1 to 11 that the request had, has no other,
      and is present. */
  lemma FlagBits(phys: Word, flags: Word, k: nat)
    requires 1 <= k < 12
    ensures Bit(MappingFor(phys, flags).flags, k) <==> Bit(flags, k)
    ensures Bit(MappingFor(phys, flags).flags, 0)
  {
    var low := flags % PAGE_SIZE;
    EntryBit(flags / PAGE_SIZE, low, k);
    assert flags == flags / PAGE_SIZE * PAGE_SIZE + low;
    assert WithPresent(low) / 2 == low / 2;
  }

  lemma MapKeepsInv(s: Space, virt: Word, phys: Word, flags: Word)
    requires Inv(s)
    ensures Inv(MapPage(s, virt, phys, flags))
  {
    var t, v := MapPage(s, virt, phys, flags), PageOf(virt);
    PresentKeepsUser(flags);
    forall w | w in t.flat
      ensures Consistent(t, w)
    {
      if w != v || !CanMap(s, virt) {
        assert Consistent(s, w);
      }
    }
  }

  lemma StepKeepsInv(s: Space, op: Op)
    requires Inv(s)
    ensures Inv(Step(s, op))
  {
    match op
    case Map(virt, phys, flags) => MapKeepsInv(s, virt, phys, flags);
    case Unmap(virt) =>
      forall w | w in UnmapPage(s, virt).flat
        ensures Consistent(UnmapPage(s, virt), w)
      {
        assert Consistent(s, w);
      }
  }

  lemma {:induction false} RunKeepsInv(s: Space, ops: seq<Op>)
    requires Inv(s)
    ensures Inv(Run(s, ops))
    decreases |ops|
  {
    if ops != [] {
      StepKeepsInv(s, ops[0]);
      RunKeepsInv(Step(s, ops[0]), ops[1..]);
    }
  }

  // ---------- one request ----------

  /** A completed map makes its page translate to the frame it was given, at the
      same offset; a map that cannot get a table changes nothing. */
  lemma MapTranslates(s: Space, virt: Word, phys: Word, flags: Word, offset: nat)
    requires offset < PAGE_SIZE
    ensures var t := MapPage(s, virt, phys, flags);
      var a := PageOf(virt) * PAGE_SIZE + offset;
      if CanMap(s, virt) then Translate(t, a) == phys / PAGE_SIZE * PAGE_SIZE + offset else t == s
  {
    var a := PageOf(virt) * PAGE_SIZE + offset;
    assert PageOf(a) == PageOf(virt) && a % PAGE_SIZE == offset;
  }

  /** Every other page keeps its translation and its accessibility. */
  lemma StepIsLocal(s: Space, op: Op, a: Word)
    requires Inv(s) && PageOf(a) != PageOf(op.virt)
    ensures Translate(Step(s, op), a) == Translate(s, a)
    ensures UserAccessible(Step(s, op), PageOf(a)) <==> UserAccessible(s, PageOf(a))
  {
    assert PageOf(a) in s.flat ==> Consistent(s, PageOf(a));
  }

  lemma UnmapUntranslates(s: Space, virt: Word)
    ensures Translate(UnmapPage(s, virt), virt) == 0 && !UserAccessible(UnmapPage(s, virt), PageOf(virt))
  {
  }

  // ---------- whole runs, against the history ----------

  /** The requests of a run that took effect. */
  ghost function Effective(s: Space, ops: seq<Op>): seq<Op>
    decreases |ops|
  {
    if ops == [] then []
    else
      (if ops[0].Unmap? || CanMap(s, ops[0].virt) then [ops[0]] else []) + Effective(Step(s, ops[0]), ops[1..])
  }

  /** The last request of a log that concerns virtual page `v`. */
  function LastFor(log: seq<Op>, v: nat): Option<Op> {
    if log == [] then None
    else if PageOf(log[|log| - 1].virt) == v then Some(log[|log| - 1])
    else LastFor(log[..|log| - 1], v)
  }

  /** What the flat map should say of `v` after the requests in `log`. */
  function Expected(before: map<nat, Mapping>, log: seq<Op>, v: nat): Option<Mapping> {
    match LastFor(log, v)
    case None => if v in before then Some(before[v]) else None
    case Some(Map(_, phys, flags)) => Some(MappingFor(phys, flags))
    case Some(Unmap(_)) => None
  }

  lemma {:induction false} LastForCons(op: Op, log: seq<Op>, v: nat)
    ensures LastFor([op] + log, v) ==
      if LastFor(log, v).Some? then LastFor(log, v) else if PageOf(op.virt) == v then Some(op) else None
  {
    var all := [op] + log;
    if log == [] {
      assert all[..0] == [];
    } else {
      assert all[..|all| - 1] == [op] + log[..|log| - 1];
      LastForCons(op, log[..|log| - 1], v);
    }
  }

  /** After any run, each page is mapped as the last request about it that took
      effect said, and as before if there was none. */
  lemma {:induction false} RunFollowsHistory(s: Space, ops: seq<Op>, v: nat)
    ensures v in Run(s, ops).flat <==> Expected(s.flat, Effective(s, ops), v).Some?
    ensures v in Run(s, ops).flat ==> Expected(s.flat, Effective(s, ops), v) == Some(Run(s, ops).flat[v])
    decreases |ops|
  {
    if ops != [] {
      var op := ops[0];
      var t := Step(s, op);
      var rest := Effective(t, ops[1..]);
      RunFollowsHistory(t, ops[1..], v);
      if op.Unmap? || CanMap(s, op.virt) {
        LastForCons(op, rest, v);
      } else {
        assert Effective(s, ops) == rest;
      }
    }
  }

  /** A page is open to user mode exactly when the request that last took effect
      on it carried the user flag. */
  lemma UserIffLastMapUser(s: Space, ops: seq<Op>, v: nat)
    requires Inv(s)
    ensures UserAccessible(Run(s, ops), v) <==>
      match LastFor(Effective(s, ops), v)
      case None => UserAccessible(s, v)
      case Some(Map(_, _, flags)) => HasUser(flags)
      case Some(Unmap(_)) => false
  {
    RunKeepsInv(s, ops);
    RunFollowsHistory(s, ops, v);
    var t := Run(s, ops);
    assert v in t.flat ==> Consistent(t, v);
    assert v in s.flat ==> Consistent(s, v);
    match LastFor(Effective(s, ops), v)
    case Some(Map(_, _, flags)) => PresentKeepsUser(flags);
    case _ =>
  }

  /** What the last effective request for a page leaves of flag bit `k`. */
  predicate LeavesFlag(last: Option<Op>, k: nat, before: bool) {
    match last
    case None => before
    case Some(Map(_, _, flags)) => Bit(flags, k)
    case Some(Unmap(_)) => false
  }

  /** The same for every flag bit from 1 to 11, the writable bit among them: a page's
      entry has it exactly when the last effective request for the page did. */
  lemma FlagIffLastMapFlag(s: Space, ops: seq<Op>, v: nat, k: nat)
    requires Inv(s) && 1 <= k < 12
    ensures PageHas(Run(s, ops), v, k) <==> LeavesFlag(LastFor(Effective(s, ops), v), k, PageHas(s, v, k))
  {
    hide Bit;
    RunKeepsInv(s, ops);
    RunFollowsHistory(s, ops, v);
    var t, last := Run(s, ops), LastFor(Effective(s, ops), v);
    assert v in t.flat ==> Consistent(t, v);
    assert v in s.flat ==> Consistent(s, v);
    if last.Some? && last.value.Map? {
      FlagBits(last.value.phys, last.value.flags, k);
    }
  }

  lemma WritableIffLastMapWritable(s: Space, ops: seq<Op>, v: nat)
    requires Inv(s)
    ensures Writable(Run(s, ops), v) <==>
      match LastFor(Effective(s, ops), v)
      case None => Writable(s, v)
      case Some(Map(_, _, flags)) => flags / WRITABLE % 2 == 1
      case Some(Unmap(_)) => false
  {
    FlagIffLastMapFlag(s, ops, v, 1);
    var last := LastFor(Effective(s, ops), v);
    if last.Some? && last.value.Map? {
      assert Bit(last.value.flags, 1) <==> Bit(last.value.flags / 2, 0);
    }
  }

  // ---------- the kernel's address space ----------

  /** The identity map of the first 16 MB that `paging_init` builds. */
  function Identity(pool: set<nat>): Space {
    Space(map v: nat | v < 4096 && PdOf(v) < 4 :: Mapping(v, PRESENT + WRITABLE),
          map[0 := false, 1 := false, 2 := false, 3 := false], pool)
  }

  /** `elf_load_and_exec` opens pages `lo` up to `hi` to user programs. */
  ghost function OpenPages(s: Space, lo: nat, hi: nat): Space
    requires hi <= VIRTUAL_PAGES
    decreases hi - lo
  {
    if hi <= lo then s
    else OpenPages(MapPage(s, lo * PAGE_SIZE, lo * PAGE_SIZE, PRESENT + WRITABLE + USER), lo + 1, hi)
  }

  /** One exec: the program region and the user stack page. */
  ghost function ExecMap(s: Space): Space {
    OpenPages(s, 0x200, 0x301)
  }

  ghost function ExecMaps(s: Space, count: nat): Space
    decreases count
  {
    if count == 0 then s else ExecMaps(ExecMap(s), count - 1)
  }

  /** The kernel's space with the pages from `lo` below `hi` open to user mode. */
  ghost predicate KernelSpace(s: Space, lo: nat, hi: nat) {
    && s.dirs.Keys == {0, 1, 2, 3}
    && (forall v: nat :: v in s.flat <==> v < 4096)
    && (forall v: nat :: v < 4096 ==> v in s.flat && s.flat[v].frame == v)
    && (forall v: nat :: v < 4096 ==> v in s.flat && (HasUser(s.flat[v].flags) <==> lo <= v < hi))
    && (forall v: nat :: v < 4096 ==> v in s.flat && s.flat[v].flags / WRITABLE % 2 == 1)
    && (lo < hi ==> s.dirs[0])
  }

  lemma OpenOnePage(s: Space, lo: nat, k: nat, hi: nat)
    requires KernelSpace(s, lo, hi) && lo <= k <= hi && k < 1024
    ensures var t := MapPage(s, k * PAGE_SIZE, k * PAGE_SIZE, PRESENT + WRITABLE + USER);
      KernelSpace(t, lo, if k < hi then hi else k + 1) && t.pool == s.pool
  {
    var t := MapPage(s, k * PAGE_SIZE, k * PAGE_SIZE, PRESENT + WRITABLE + USER);
    assert PageOf(k * PAGE_SIZE) == k && PdOf(k) == 0;
    assert MappingFor(k * PAGE_SIZE, 7) == Mapping(k, 7);
  }

  lemma {:induction false} OpenPagesKernel(s: Space, lo: nat, k: nat, reached: nat, hi: nat)
    requires KernelSpace(s, lo, reached) && lo <= k <= reached <= hi <= 1024
    ensures KernelSpace(OpenPages(s, k, hi), lo, hi) && OpenPages(s, k, hi).pool == s.pool
    decreases hi - k
  {
    if k < hi {
      OpenOnePage(s, lo, k, reached);
      OpenPagesKernel(MapPage(s, k * PAGE_SIZE, k * PAGE_SIZE, PRESENT + WRITABLE + USER),
                      lo, k + 1, if k < reached then reached else k + 1, hi);
    } else {
      assert reached == hi;
    }
  }

  lemma ExecMapKernel(s: Space, hi: nat, lo: nat, end: nat)
    requires KernelSpace(s, lo, hi) && lo == 0x200 <= hi <= end == 0x301
    ensures KernelSpace(ExecMap(s), lo, end) && ExecMap(s).pool == s.pool
  {
    hide KernelSpace, OpenPages;
    OpenPagesKernel(s, lo, lo, hi, end);
  }

  lemma {:induction false} ExecMapsKernel(s: Space, hi: nat, count: nat)
    requires KernelSpace(s, 0x200, hi) && 0x200 <= hi <= 0x301
    ensures KernelSpace(ExecMaps(s, count), 0x200, if count == 0 then hi else 0x301)
    ensures ExecMaps(s, count).pool == s.pool
    decreases count
  {
    hide KernelSpace, ExecMap;
    if count > 0 {
      ExecMapKernel(s, hi, 0x200, 0x301);
      ExecMapsKernel(ExecMap(s), 0x301, count - 1);
    }
  }

  /** However many programs have been started since boot, every address of the
      first 16 MB translates to itself and is writable, nothing else is mapped, exactly
      0x200000-0x300FFF is open to user programs and no page was used up. */
  lemma ExecOpensExactly(pool: set<nat>, count: nat, a: Word)
    requires count > 0
    ensures var s := ExecMaps(Identity(pool), count);
      && Translate(s, a) == (if a < MEM_SIZE then a else 0)
      && (UserAccessible(s, PageOf(a)) <==> 0x20_0000 <= a < 0x30_1000)
      && (Writable(s, PageOf(a)) <==> a < 0x100_0000)
      && s.pool == pool
  {
    hide ExecMaps;
    var s := Identity(pool);
    assert s.dirs.Keys == {0, 1, 2, 3};
    assert KernelSpace(s, 0x200, 0x200);
    ExecMapsKernel(s, 0x200, count);
    var t, v := ExecMaps(s, count), PageOf(a);
    assert a == v * PAGE_SIZE + a % PAGE_SIZE;
    assert v in t.flat <==> v < 4096;
    if v < 4096 {
      assert Bit(t.flat[v].flags, 1) <==> Bit(t.flat[v].flags / 2, 0);
    }
  }

  // ---------- the tables' own pages ----------

  /** Once paging is on the kernel reaches physical page `t` through the virtual page
      of the same number. */
  predicate IdentityMapped(s: Space, t: nat) {
    t in s.flat && s.flat[t].frame == t
  }

  predicate Reaches(s: Space, t: nat, offset: nat)
    requires t < VIRTUAL_PAGES && offset < PAGE_SIZE
  {
    Translate(s, t * PAGE_SIZE + offset) == t * PAGE_SIZE + offset
  }

  /** A physical page can be read and written at its own address if and only if it is
      mapped to itself. */
  lemma ReachesIff(s: Space, t: nat)
    requires Inv(s) && 0 < t < VIRTUAL_PAGES
    ensures (forall offset: nat :: offset < PAGE_SIZE ==> Reaches(s, t, offset)) <==> IdentityMapped(s, t)
  {
    assert t in s.flat ==> Consistent(s, t);
    forall offset: nat | offset < PAGE_SIZE ensures Reaches(s, t, offset) <==> IdentityMapped(s, t) {
      var a := t * PAGE_SIZE + offset;
      assert PageOf(a) == t && a % PAGE_SIZE == offset;
    }
    if forall offset: nat :: offset < PAGE_SIZE ==> Reaches(s, t, offset) {
      assert Reaches(s, t, 0);
    }
  }

  /** What the last effective request for page `t` leaves of its identity mapping. */
  predicate LeavesIdentity(last: Option<Op>, t: nat) {
    match last
    case None => true
    case Some(Map(_, phys, _)) => PageOf(phys) == t
    case Some(Unmap(_)) => false
  }

  /** After any run from the kernel's identity map the pages that hold the tables can
      still be reached if and only if the last effective request for each of them, if
      there was one, mapped it to itself. */
  lemma TablesReachableIff(pool: set<nat>, ops: seq<Op>, tables: set<nat>)
    requires forall t :: t in tables ==> 0 < t < TOTAL_PAGES
    ensures (forall t :: t in tables ==> IdentityMapped(Run(Identity(pool), ops), t)) <==>
            (forall t :: t in tables ==> LeavesIdentity(LastFor(Effective(Identity(pool), ops), t), t))
  {
    forall t | t in tables
      ensures IdentityMapped(Run(Identity(pool), ops), t) <==> LeavesIdentity(LastFor(Effective(Identity(pool), ops), t), t)
    {
      RunFollowsHistory(Identity(pool), ops, t);
    }
  }

  /** One request is enough to lose a table: it stays reachable if and only if the
      request is for another page, fails, or maps the page to itself. */
  lemma StepReachableIff(s: Space, op: Op, t: nat)
    requires IdentityMapped(s, t)
    ensures IdentityMapped(Step(s, op), t) <==>
            PageOf(op.virt) != t || (op.Map? && (CanMap(s, op.virt) ==> PageOf(op.phys) == t))
  {
  }
}
