/** Two-level page tables in physical memory, refining the flat map of
    `PagingSpec`.  Physical memory is addressed directly: the kernel reaches its
    tables through the identity map. */
module Paging {
  import opened Machine
  import opened PageAllocator
  import opened PagingSpec

  const IDENTITY_MAP_ENTRIES := 4

  // ---------- pages of memory as tables of 1024 words ----------

  ghost function Table(m: seq<Word>, p: nat): (t: seq<Word>)
    requires |m| == MEM_SIZE && p < TOTAL_PAGES
    ensures |t| == ENTRIES
  {
    seq(ENTRIES, j requires 0 <= j < ENTRIES => m[p * PAGE_SIZE + 4 * j])
  }

  lemma WriteEntry(m: seq<Word>, p: nat, j: nat, w: Word)
    requires |m| == MEM_SIZE && p < TOTAL_PAGES && j < ENTRIES
    ensures var n := m[p * PAGE_SIZE + 4 * j := w];
      && Table(n, p) == Table(m, p)[j := w]
      && (forall q: nat :: q < TOTAL_PAGES && q != p ==> Table(n, q) == Table(m, q))
      && DifferOnlyOn(m, n, {p})
  {
    var n := m[p * PAGE_SIZE + 4 * j := w];
    forall q: nat | q < TOTAL_PAGES && q != p
      ensures Table(n, q) == Table(m, q)
    {
      assert forall i :: 0 <= i < ENTRIES ==> Table(n, q)[i] == Table(m, q)[i];
    }
    assert PageOf(p * PAGE_SIZE + 4 * j) == p;
  }

  /** Tables on pages that did not change. */
  lemma TableFrame(m: seq<Word>, n: seq<Word>, pages: set<nat>, q: nat)
    requires DifferOnlyOn(m, n, pages) && q < TOTAL_PAGES && q !in pages
    ensures Table(n, q) == Table(m, q)
  {
    forall i | 0 <= i < ENTRIES
      ensures Table(n, q)[i] == Table(m, q)[i]
    {
      assert PageOf(q * PAGE_SIZE + 4 * i) == q;
    }
  }

  // ---------- what the tables say ----------

  function PteFor(flat: map<nat, Mapping>, v: nat): nat {
    if v in flat then flat[v].frame * PAGE_SIZE + flat[v].flags else 0
  }

  function PdeFor(tables: map<nat, nat>, dirs: map<nat, bool>, d: nat): nat {
    if d in tables && d in dirs then
      tables[d] * PAGE_SIZE + PRESENT + WRITABLE + (if dirs[d] then USER else 0)
    else 0
  }

  ghost predicate DirOk(dir: seq<Word>, tables: map<nat, nat>, dirs: map<nat, bool>) {
    && |dir| == ENTRIES && tables.Keys == dirs.Keys
    && forall d :: 0 <= d < ENTRIES ==> dir[d] == PdeFor(tables, dirs, d)
  }

  ghost predicate TableOk(tab: seq<Word>, flat: map<nat, Mapping>, d: nat) {
    && |tab| == ENTRIES
    && forall j :: 0 <= j < ENTRIES ==> tab[j] == PteFor(flat, d * ENTRIES + j)
  }

  ghost predicate TablesOk(m: seq<Word>, tables: map<nat, nat>, flat: map<nat, Mapping>)
    requires |m| == MEM_SIZE
  {
    forall d :: d in tables ==> tables[d] < TOTAL_PAGES && TableOk(Table(m, tables[d]), flat, d)
  }

  /** The directory and the tables are distinct pages that are not free. */
  ghost predicate Separate(dirPage: nat, tables: map<nat, nat>, free: set<nat>) {
    && 0 < dirPage < TOTAL_PAGES && dirPage !in free
    && (forall d :: d in tables ==> d < ENTRIES && 0 < tables[d] < TOTAL_PAGES && tables[d] != dirPage && tables[d] !in free)
    && (forall d, e :: d in tables && e in tables && d != e ==> tables[d] != tables[e])
  }

  // ---------- effects of the three kinds of write ----------

  /** A zeroed page entered in the directory is an empty table. */
  lemma AddTable(m: seq<Word>, n: seq<Word>, p: nat, tables: map<nat, nat>, flat: map<nat, Mapping>,
                 dirs: map<nat, bool>, d: nat, t: nat)
    requires |m| == |n| == MEM_SIZE && p < TOTAL_PAGES && 0 < t < TOTAL_PAGES && t != p && d < ENTRIES
    requires DirOk(Table(m, p), tables, dirs) && TablesOk(m, tables, flat) && d !in tables
    requires forall e :: e in tables ==> tables[e] != t && tables[e] != p
    requires forall v :: v in flat ==> PdOf(v) in tables
    requires forall j :: 0 <= j < ENTRIES ==> Table(n, t)[j] == 0
    requires Table(n, p) == Table(m, p)[d := t * PAGE_SIZE + PRESENT + WRITABLE]
    requires forall q: nat :: q < TOTAL_PAGES && q != p && q != t ==> Table(n, q) == Table(m, q)
    ensures DirOk(Table(n, p), tables[d := t], dirs[d := false]) && TablesOk(n, tables[d := t], flat)
  {
    forall j | 0 <= j < ENTRIES
      ensures Table(n, t)[j] == PteFor(flat, d * ENTRIES + j)
    {
      assert PdOf(d * ENTRIES + j) == d;
    }
    AddFilledTable(m, n, p, tables, flat, dirs, d, t, flat);
  }

  /** A filled page entered in the directory maps its 4 MB. */
  lemma AddFilledTable(m: seq<Word>, n: seq<Word>, p: nat, tables: map<nat, nat>, flat: map<nat, Mapping>,
                       dirs: map<nat, bool>, d: nat, t: nat, flat': map<nat, Mapping>)
    requires |m| == |n| == MEM_SIZE && p < TOTAL_PAGES && 0 < t < TOTAL_PAGES && t != p && d < ENTRIES
    requires DirOk(Table(m, p), tables, dirs) && TablesOk(m, tables, flat) && d !in tables
    requires forall e :: e in tables ==> tables[e] != t && tables[e] != p
    requires forall v :: PdOf(v) != d ==> PteFor(flat', v) == PteFor(flat, v)
    requires TableOk(Table(n, t), flat', d)
    requires Table(n, p) == Table(m, p)[d := t * PAGE_SIZE + PRESENT + WRITABLE]
    requires forall q: nat :: q < TOTAL_PAGES && q != p && q != t ==> Table(n, q) == Table(m, q)
    ensures DirOk(Table(n, p), tables[d := t], dirs[d := false]) && TablesOk(n, tables[d := t], flat')
  {
    var tables' := tables[d := t];
    forall e | e in tables'
      ensures TableOk(Table(n, tables'[e]), flat', e)
    {
      if e != d {
        assert TableOk(Table(m, tables[e]), flat, e);
        forall j | 0 <= j < ENTRIES
          ensures Table(n, tables[e])[j] == PteFor(flat', e * ENTRIES + j)
        {
          assert PdOf(e * ENTRIES + j) == e;
        }
      }
    }
  }

  /** Setting the user bit of a directory entry. */
  lemma OpenDirectory(dir: seq<Word>, tables: map<nat, nat>, dirs: map<nat, bool>, d: nat, w: Word)
    requires DirOk(dir, tables, dirs) && d in tables && d < ENTRIES
    requires w == PdeFor(tables, dirs[d := true], d)
    ensures DirOk(dir[d := w], tables, dirs[d := true])
  {
  }

  /** Writing the entry of virtual page `v`. */
  lemma SetEntry(m: seq<Word>, n: seq<Word>, tables: map<nat, nat>, flat: map<nat, Mapping>,
                 flat': map<nat, Mapping>, v: nat)
    requires |m| == |n| == MEM_SIZE && TablesOk(m, tables, flat) && PdOf(v) in tables
    requires forall d, e :: d in tables && e in tables && d != e ==> tables[d] != tables[e]
    requires forall u :: u != v ==> PteFor(flat', u) == PteFor(flat, u)
    requires PteFor(flat', v) < 0x1_0000_0000
    requires Table(n, tables[PdOf(v)]) == Table(m, tables[PdOf(v)])[PtOf(v) := PteFor(flat', v)]
    requires forall q: nat :: q < TOTAL_PAGES && q != tables[PdOf(v)] ==> Table(n, q) == Table(m, q)
    ensures TablesOk(n, tables, flat')
  {
    assert PdOf(v) * ENTRIES + PtOf(v) == v;
    forall e | e in tables
      ensures TableOk(Table(n, tables[e]), flat', e)
    {
      forall j | 0 <= j < ENTRIES
        ensures Table(n, tables[e])[j] == PteFor(flat', e * ENTRIES + j)
      {
        var u := e * ENTRIES + j;
        assert PdOf(u) == e && PtOf(u) == j;
        assert TableOk(Table(m, tables[e]), flat, e);
      }
    }
  }

  /** The indices the processor and the kernel extract from an address. */
  lemma Indices(virt: Word)
    ensures virt / 0x40_0000 == PdOf(PageOf(virt)) < ENTRIES && virt / PAGE_SIZE % ENTRIES == PtOf(PageOf(virt))
    ensures PageOf(virt) < VIRTUAL_PAGES
  {
  }

  /** The frame, present bit and user bit of a directory or table entry. */
  lemma EntryBits(frame: nat, flags: nat)
    requires flags < PAGE_SIZE
    ensures var w := frame * PAGE_SIZE + flags;
      w / PAGE_SIZE == frame && w % 2 == flags % 2 && (HasUser(w) <==> HasUser(flags))
  {
    hide HasUser;
    UserInLowBits(frame, flags);
    FrameOf(frame, flags);
    SameParity(frame * 2048, flags);
    assert frame * PAGE_SIZE + flags == 2 * (frame * 2048) + flags;
  }

  lemma FrameOf(frame: nat, flags: nat)
    requires flags < PAGE_SIZE
    ensures (frame * PAGE_SIZE + flags) / PAGE_SIZE == frame
  {
  }

  lemma SameParity(half: nat, flags: nat)
    ensures (2 * half + flags) % 2 == flags % 2
  {
  }

  lemma ReadPde(m: seq<Word>, p: nat, tables: map<nat, nat>, dirs: map<nat, bool>, d: nat)
    requires |m| == MEM_SIZE && p < TOTAL_PAGES && d < ENTRIES && DirOk(Table(m, p), tables, dirs)
    ensures var w := m[p * PAGE_SIZE + 4 * d];
      && (w % 2 == 1 <==> d in tables) && (d in tables <==> d in dirs)
      && (d in tables ==> w / PAGE_SIZE == tables[d] && (HasUser(w) <==> dirs[d]) && w == PdeFor(tables, dirs, d))
  {
    assert m[p * PAGE_SIZE + 4 * d] == Table(m, p)[d];
    assert d in tables.Keys <==> d in dirs.Keys;
    if d in tables {
      EntryBits(tables[d], if dirs[d] then 7 else 3);
    }
  }

  lemma ReadPte(m: seq<Word>, tables: map<nat, nat>, s: Space, v: nat)
    requires |m| == MEM_SIZE && TablesOk(m, tables, s.flat) && Inv(s) && PdOf(v) in tables
    ensures tables[PdOf(v)] < TOTAL_PAGES
    ensures var w := m[tables[PdOf(v)] * PAGE_SIZE + 4 * PtOf(v)];
      && (w % 2 == 1 <==> v in s.flat)
      && (v in s.flat ==> w / PAGE_SIZE == s.flat[v].frame < VIRTUAL_PAGES)
  {
    var d: nat, j: nat := PdOf(v), PtOf(v);
    assert TableOk(Table(m, tables[d]), s.flat, d);
    assert m[tables[d] * PAGE_SIZE + 4 * j] == Table(m, tables[d])[j];
    assert d * ENTRIES + j == v;
    if v in s.flat {
      assert Consistent(s, v);
      EntryBits(s.flat[v].frame, s.flat[v].flags);
    }
  }

  class Pager {
    const mem: array<Word>
    const pmm: Pmm

    constructor (mem: array<Word>, pmm: Pmm)
      ensures this.mem == mem && this.pmm == pmm
    {
      this.mem, this.pmm := mem, pmm;
      directory, flat, dirs, tables := 0, map[], map[], map[];
    }

    var directory: Word
    ghost var flat: map<nat, Mapping>
    ghost var dirs: map<nat, bool>
    ghost var tables: map<nat, nat>

    ghost function Content(): Space
      requires pmm.bitmap.Length == BITMAP_BYTES
      reads this, pmm.bitmap
    {
      Space(flat, dirs, pmm.Free())
    }

    /** The pages the directory and the tables occupy. */
    ghost function Pages(): set<nat>
      reads this
    {
      {PageOf(directory)} + tables.Values
    }

    /** Memory holds the tables for `flat` and `dirs`. */
    ghost predicate Represents()
      reads this, mem
    {
      && mem.Length == MEM_SIZE && directory % PAGE_SIZE == 0 && directory < MEM_SIZE
      && DirOk(Table(mem[..], PageOf(directory)), tables, dirs)
      && TablesOk(mem[..], tables, flat)
    }

    ghost predicate Valid()
      reads this, mem, pmm.bitmap
    {
      && pmm.Valid() && Inv(Content()) && Represents()
      && Separate(PageOf(directory), tables, pmm.Free())
    }

    /** `paging_get_phys`. */
    method GetPhys(virt: Word) returns (phys: Word)
      requires Valid()
      ensures phys == Translate(Content(), virt)
    {
      hide DirOk, TablesOk, Table, Inv;
      var pd, pt := virt / 0x40_0000, virt / PAGE_SIZE % ENTRIES;
      ghost var v := PageOf(virt);
      Indices(virt);
      ReadPde(mem[..], PageOf(directory), tables, dirs, pd);
      var pde := mem[directory + 4 * pd];
      if pde % 2 == 0 {
        return 0;
      }
      var table := pde / PAGE_SIZE * PAGE_SIZE;
      ReadPte(mem[..], tables, Content(), v);
      var pte := mem[table + 4 * pt];
      if pte % 2 == 0 {
        return 0;
      }
      return pte / PAGE_SIZE * PAGE_SIZE + virt % PAGE_SIZE;
    }

    /** Writes the table entry for virtual page `v`, which has a table. */
    method SetPte(v: nat, entry: Word, ghost flat': map<nat, Mapping>)
      requires Represents() && Separate(PageOf(directory), tables, {}) && PdOf(v) in tables
      requires entry == PteFor(flat', v) && forall u :: u != v ==> PteFor(flat', u) == PteFor(flat, u)
      modifies mem, this`flat
      ensures Represents() && flat == flat'
      ensures DifferOnlyOn(old(mem[..]), mem[..], tables.Values)
    {
      hide DirOk, TablesOk, Table;
      var pd, pt := PdOf(v), PtOf(v);
      ghost var m: seq<Word> := mem[..];
      ReadPde(m, PageOf(directory), tables, dirs, pd);
      ghost var t := tables[pd];
      var table := mem[directory + 4 * pd] / PAGE_SIZE * PAGE_SIZE;
      WriteEntry(m, t, pt, entry);
      mem[table + 4 * pt] := entry;
      assert mem[..] == m[t * PAGE_SIZE + 4 * pt := entry];
      SetEntry(m, mem[..], tables, flat, flat', v);
      flat := flat';
      assert t in tables.Values;
    }

    /** `paging_unmap`. */
    method Unmap(virt: Word)
      requires Valid()
      modifies mem, this`flat
      ensures Valid() && Content() == UnmapPage(old(Content()), virt)
      ensures DifferOnlyOn(old(mem[..]), mem[..], Pages())
    {
      hide DirOk, TablesOk, Table;
      ghost var s := Content();
      StepKeepsInv(s, PagingSpec.Op.Unmap(virt));
      var pd := virt / 0x40_0000;
      Indices(virt);
      ReadPde(mem[..], PageOf(directory), tables, dirs, pd);
      if mem[directory + 4 * pd] % 2 == 0 {
        assert PageOf(virt) in flat ==> Consistent(s, PageOf(virt));
        assert flat - {PageOf(virt)} == flat;
        return;
      }
      SetPte(PageOf(virt), 0, flat - {PageOf(virt)});
    }

    /** `zero_page`. */
    method ZeroPage(page: nat)
      requires mem.Length == MEM_SIZE && page < TOTAL_PAGES
      modifies mem
      ensures forall j :: 0 <= j < ENTRIES ==> Table(mem[..], page)[j] == 0
      ensures DifferOnlyOn(old(mem[..]), mem[..], {page})
    {
      var i := 0;
      while i < ENTRIES
        invariant 0 <= i <= ENTRIES
        invariant forall j :: 0 <= j < i ==> mem[page * PAGE_SIZE + 4 * j] == 0
        invariant DifferOnlyOn(old(mem[..]), mem[..], {page})
      {
        assert PageOf(page * PAGE_SIZE + 4 * i) == page;
        mem[page * PAGE_SIZE + 4 * i] := 0;
        i := i + 1;
      }
    }

    /** Gives directory slot `pd` a table if it has none; fails when no page is left. */
    method EnsureTable(pd: nat) returns (ok: bool)
      requires Valid() && pd < ENTRIES
      modifies mem, this`tables, this`dirs, pmm.bitmap
      ensures Valid() && ok == (pd in old(dirs) || old(pmm.Free()) != {})
      ensures ok ==> dirs == old(dirs)[pd := pd in old(dirs) && old(dirs)[pd]]
      ensures !ok ==> dirs == old(dirs)
      ensures pmm.Free() == if pd in old(dirs) || !ok then old(pmm.Free()) else old(pmm.Free()) - {Min(old(pmm.Free()))}
      ensures old(tables.Values) <= tables.Values <= old(tables.Values + pmm.Free())
      ensures DifferOnlyOn(old(mem[..]), mem[..], Pages())
    {
      hide DirOk, TablesOk, Table, Inv, Consistent, DifferOnlyOn, Separate;
      ghost var s, m: seq<Word>, p := Content(), mem[..], PageOf(directory);
      ReadPde(m, p, tables, dirs, pd);
      SameMemory(m, Pages());
      if mem[directory + 4 * pd] % 2 == 1 {
        assert dirs == dirs[pd := dirs[pd]];
        return true;
      }
      var page := pmm.Alloc();
      if page == 0 {
        return false;
      }
      ghost var t := Min(s.pool);
      ZeroPage(page / PAGE_SIZE);
      ghost var m1: seq<Word> := mem[..];
      WriteEntry(m1, p, pd, page + PRESENT + WRITABLE);
      mem[directory + 4 * pd] := page + PRESENT + WRITABLE;
      assert mem[..] == m1[p * PAGE_SIZE + 4 * pd := page + PRESENT + WRITABLE];
      NewTable(m, m1, mem[..], s, p, tables, pd, t);
      tables, dirs := tables[pd := t], dirs[pd := false];
      WiderDifferences(m, mem[..], {p, t}, Pages());
      return true;
    }

    /** `kernel_page_directory[pd] |= PAGE_USER`. */
    method MarkUser(pd: nat)
      requires Represents() && pd < ENTRIES && pd in tables && Separate(PageOf(directory), tables, {})
      modifies mem, this`dirs
      ensures Represents() && dirs == old(dirs)[pd := true]
      ensures DifferOnlyOn(old(mem[..]), mem[..], {PageOf(directory)})
    {
      hide TablesOk, Table, DirOk;
      ghost var m: seq<Word>, p := mem[..], PageOf(directory);
      ReadPde(m, p, tables, dirs, pd);
      var pde := mem[directory + 4 * pd];
      var entry := if HasUser(pde) then pde else pde + USER;
      WriteEntry(m, p, pd, entry);
      mem[directory + 4 * pd] := entry;
      assert mem[..] == m[p * PAGE_SIZE + 4 * pd := entry];
      OpenDirectory(Table(m, p), tables, dirs, pd, entry);
      TablesUntouched(m, mem[..], p, tables, flat);
      dirs := dirs[pd := true];
    }

    /** `paging_map`. */
    method Map(virt: Word, phys: Word, flags: Word)
      requires Valid()
      modifies mem, this`tables, this`dirs, this`flat, pmm.bitmap
      ensures Valid() && Content() == MapPage(old(Content()), virt, phys, flags)
      ensures old(tables.Values) <= tables.Values <= old(tables.Values + pmm.Free())
      ensures DifferOnlyOn(old(mem[..]), mem[..], Pages())
    {
      hide Represents, Inv, HasUser, MappingFor, PdOf, Separate, DifferOnlyOn, MapPage;
      ghost var s, v, m: seq<Word> := Content(), PageOf(virt), mem[..];
      MapKeepsInv(s, virt, phys, flags);
      var entry := EntryFor(phys, flags);
      var pd := virt / 0x40_0000;
      Indices(virt);
      TablesMatch();
      var ok := EnsureTable(pd);
      MapAssembles(s, dirs, pmm.Free(), virt, phys, flags);
      if !ok {
        return;
      }
      TablesMatch();
      SeparateFrom(PageOf(directory), tables, pmm.Free());
      ghost var m1: seq<Word> := mem[..];
      MarkIfUser(pd, flags);
      ghost var m2: seq<Word> := mem[..];
      SetPte(virt / PAGE_SIZE, entry, flat[v := MappingFor(phys, flags)]);
      Differences(m, m1, m2, mem[..], PageOf(directory), tables.Values);
    }

    /** The directory entry is opened to user mode when the flags ask for it. */
    method MarkIfUser(pd: nat, flags: Word)
      requires Represents() && pd < ENTRIES && pd in tables && pd in dirs && Separate(PageOf(directory), tables, {})
      modifies mem, this`dirs
      ensures Represents() && dirs == old(dirs)[pd := old(dirs)[pd] || HasUser(flags)]
      ensures DifferOnlyOn(old(mem[..]), mem[..], {PageOf(directory)})
    {
      hide DirOk, TablesOk, Table, HasUser, Separate, DifferOnlyOn;
      if HasUser(flags) {
        MarkUser(pd);
      } else {
        SameMemory(mem[..], {PageOf(directory)});
        assert dirs == dirs[pd := dirs[pd]];
      }
    }

    /** The word `paging_map` writes: frame, low flag bits and the present bit. */
    static method EntryFor(phys: Word, flags: Word) returns (entry: Word)
      ensures var f := MappingFor(phys, flags); entry == f.frame * PAGE_SIZE + f.flags
    {
      PresentKeepsUser(flags);
      entry := phys / PAGE_SIZE * PAGE_SIZE + WithPresent(flags % PAGE_SIZE);
    }

    lemma TablesMatch()
      requires Represents()
      ensures tables.Keys == dirs.Keys && mem.Length == MEM_SIZE
    {
    }

    /** The loop of `elf_load_and_exec` that opens the program region and the
        user stack page to user programs. */
    method MapUserPages()
      requires Valid()
      modifies mem, this`tables, this`dirs, this`flat, pmm.bitmap
      ensures Valid() && Content() == ExecMap(old(Content()))
      ensures DifferOnlyOn(old(mem[..]), mem[..], Pages())
    {
      hide Represents, Inv, OpenPages, DifferOnlyOn, Separate, FreeOf;
      ghost var s, m, first, last := Content(), old(mem[..]), 0x200, 0x301;
      TablesMatch();
      SameMemory(m, Pages());
      var addr := 0x20_0000;
      while addr < 0x30_0000
        invariant 0x20_0000 <= addr <= 0x30_0000 && addr % PAGE_SIZE == 0 && Valid()
        invariant first == 0x200 && last == 0x301
        invariant OpenPages(s, first, last) == OpenPages(Content(), addr / PAGE_SIZE, last)
        invariant DifferOnlyOn(m, mem[..], Pages())
        decreases 0x30_0000 - addr
      {
        OpenPage(addr, m, last);
        addr := addr + PAGE_SIZE;
      }
      OpenPage(0x30_0000, m, last);
      OpenUnfold(Content(), 0x301, last);
    }

    /** One round of that loop. */
    method OpenPage(addr: Word, ghost m: seq<Word>, ghost last: nat)
      requires Valid() && addr % PAGE_SIZE == 0 && addr / PAGE_SIZE < last <= VIRTUAL_PAGES && DifferOnlyOn(m, mem[..], Pages())
      modifies mem, this`tables, this`dirs, this`flat, pmm.bitmap
      ensures Valid() && DifferOnlyOn(m, mem[..], Pages())
      ensures OpenPages(Content(), addr / PAGE_SIZE + 1, last) == OpenPages(old(Content()), addr / PAGE_SIZE, last)
    {
      hide Represents, Inv, OpenPages, DifferOnlyOn, Separate, FreeOf, MapPage;
      ghost var m1: seq<Word>, before := mem[..], Pages();
      OpenUnfold(Content(), addr / PAGE_SIZE, last);
      Map(addr, addr, PRESENT + WRITABLE + USER);
      MoreDifferences(m, m1, mem[..], before, Pages(), Pages());
    }

    /** Fills a page table with the identity map of the 4 MB at slot `d`. */
    method FillIdentity(page: nat, d: nat)
      requires mem.Length == MEM_SIZE && page < TOTAL_PAGES && d < IDENTITY_MAP_ENTRIES
      modifies mem
      ensures TableOk(Table(mem[..], page), IdentityFlat(d + 1), d)
      ensures DifferOnlyOn(old(mem[..]), mem[..], {page})
    {
      var j := 0;
      while j < ENTRIES
        invariant 0 <= j <= ENTRIES
        invariant forall k :: 0 <= k < j ==> mem[page * PAGE_SIZE + 4 * k] == (d * ENTRIES + k) * PAGE_SIZE + 3
        invariant DifferOnlyOn(old(mem[..]), mem[..], {page})
      {
        assert PageOf(page * PAGE_SIZE + 4 * j) == page;
        var phys := (d * ENTRIES + j) * PAGE_SIZE;
        mem[page * PAGE_SIZE + 4 * j] := phys + PRESENT + WRITABLE;
        j := j + 1;
      }
      IdentityEntries(Table(mem[..], page), d);
    }

    /** One round of the loop of `paging_init`. */
    method AddIdentityTable(d: nat)
      requires Valid() && d < IDENTITY_MAP_ENTRIES && pmm.Free() != {}
      requires flat == IdentityFlat(d) && dirs == IdentityDirs(d)
      modifies mem, this`tables, this`dirs, this`flat, pmm.bitmap
      ensures Valid() && flat == IdentityFlat(d + 1) && dirs == IdentityDirs(d + 1)
      ensures var t := Min(old(pmm.Free())); tables == old(tables)[d := t] && pmm.Free() == old(pmm.Free()) - {t}
      ensures tables.Values == old(tables.Values) + {Min(old(pmm.Free()))}
      ensures DifferOnlyOn(old(mem[..]), mem[..], {PageOf(directory), Min(old(pmm.Free()))})
    {
      hide DirOk, TablesOk, Table, TableOk, IdentityFlat, IdentityDirs, Inv, Separate;
      ghost var s, m: seq<Word>, p := Content(), mem[..], PageOf(directory);
      TablesMatch();
      NotYet(d);
      var pt := pmm.Alloc();
      ghost var t := Min(s.pool);
      ZeroPage(pt / PAGE_SIZE);
      FillIdentity(pt / PAGE_SIZE, d);
      ghost var m1: seq<Word> := mem[..];
      WriteEntry(m1, p, d, pt + PRESENT + WRITABLE);
      mem[directory + 4 * d] := pt + PRESENT + WRITABLE;
      assert mem[..] == m1[p * PAGE_SIZE + 4 * d := pt + PRESENT + WRITABLE];
      IdentityTable(m, m1, mem[..], s, p, tables, d, t);
      MoreDifferences(m, m1, mem[..], {t}, {p}, {p, t});
      SeparateAdd(p, tables, s.pool, d, t);
      NextDirs(d);
      IdentityInv(d + 1, pmm.Free());
      ValuesAdd(tables, d, t);
      tables, dirs, flat := tables[d := t], dirs[d := false], IdentityFlat(d + 1);
    }

    /** Allocates and clears the directory. */
    method InitDirectory()
      requires mem.Length == MEM_SIZE && pmm.Valid() && pmm.Free() != {}
      modifies this, mem, pmm.bitmap
      ensures Valid() && flat == IdentityFlat(0) && dirs == IdentityDirs(0) && tables == map[]
      ensures PageOf(directory) == Min(old(pmm.Free())) && pmm.Free() == old(pmm.Free()) - {Min(old(pmm.Free()))}
      ensures DifferOnlyOn(old(mem[..]), mem[..], {PageOf(directory)})
    {
      hide Table, TablesOk, DirOk, Inv, IdentityFlat, IdentityDirs, Separate;
      directory := pmm.Alloc();
      ZeroPage(directory / PAGE_SIZE);
      flat, dirs, tables := map[], map[], map[];
      EmptyDirectory(mem[..], PageOf(directory), pmm.Free());
    }

    /** The state of `paging_init` after `i` rounds, from memory `m` and free pages `free`. */
    ghost predicate Initialized(m: seq<Word>, free: set<nat>, i: nat)
      reads this, mem, pmm.bitmap
    {
      && Valid() && flat == IdentityFlat(i) && dirs == IdentityDirs(i)
      && Pages() <= free && pmm.Free() == free - Pages() && |pmm.Free()| + i >= IDENTITY_MAP_ENTRIES
      && DifferOnlyOn(m, mem[..], Pages())
    }

    method InitRound(i: nat, ghost m0: seq<Word>, ghost free: set<nat>)
      requires i < IDENTITY_MAP_ENTRIES && Initialized(m0, free, i)
      modifies mem, this`tables, this`dirs, this`flat, pmm.bitmap
      ensures Initialized(m0, free, i + 1)
    {
      hide Represents, Inv, IdentityFlat, IdentityDirs, DifferOnlyOn, Separate, FreeOf, PageOf;
      ghost var m: seq<Word>, pages, cur := mem[..], Pages(), pmm.Free();
      AddIdentityTable(i);
      ghost var t := Min(cur);
      assert Pages() == pages + {t};
      PageTaken(free, pages, cur, t);
      MoreDifferences(m0, m, mem[..], pages, {PageOf(directory), t}, pages + {t});
    }

    /** `paging_init`.  The kernel does not check that its five pages are there. */
    method Init()
      requires mem.Length == MEM_SIZE && pmm.Valid() && |pmm.Free()| >= 1 + IDENTITY_MAP_ENTRIES
      modifies this, mem, pmm.bitmap
      ensures Valid() && Content() == Identity(pmm.Free())
      ensures Pages() <= old(pmm.Free()) && pmm.Free() == old(pmm.Free()) - Pages()
      ensures DifferOnlyOn(old(mem[..]), mem[..], Pages())
    {
      hide Initialized, Inv, Represents, Separate, FreeOf, DifferOnlyOn;
      ghost var m0: seq<Word>, free := mem[..], pmm.Free();
      StartInit();
      for i := 0 to IDENTITY_MAP_ENTRIES
        invariant Initialized(m0, free, i)
      {
        InitRound(i, m0, free);
      }
      InitDone(m0, free);
    }

    method StartInit()
      requires mem.Length == MEM_SIZE && pmm.Valid() && |pmm.Free()| >= 1 + IDENTITY_MAP_ENTRIES
      modifies this, mem, pmm.bitmap
      ensures Initialized(old(mem[..]), old(pmm.Free()), 0)
    {
      hide Represents, Inv, IdentityFlat, IdentityDirs, DifferOnlyOn, Separate, FreeOf, PageOf;
      ghost var free := pmm.Free();
      PageTaken(free, {}, free, Min(free));
      InitDirectory();
      assert Pages() == {} + {Min(free)};
    }

    lemma InitDone(m0: seq<Word>, free: set<nat>)
      requires Initialized(m0, free, IDENTITY_MAP_ENTRIES)
      ensures Valid() && Content() == Identity(pmm.Free())
      ensures Pages() <= free && pmm.Free() == free - Pages() && DifferOnlyOn(m0, mem[..], Pages())
    {
      hide Represents, Inv, IdentityFlat, IdentityDirs, DifferOnlyOn, Separate, FreeOf, PageOf;
      IdentityDone(pmm.Free());
    }
  }

  lemma PageTaken(free: set<nat>, pages: set<nat>, cur: set<nat>, t: nat)
    requires pages <= free && cur == free - pages && t in cur
    ensures pages + {t} <= free && cur - {t} == free - (pages + {t}) && |cur - {t}| == |cur| - 1
  {
  }

  function IdentityFlat(n: nat): map<nat, Mapping> {
    map v: nat | v < n * ENTRIES && PdOf(v) < n :: Mapping(v, PRESENT + WRITABLE)
  }

  function IdentityDirs(n: nat): map<nat, bool> {
    if n == 0 then map[] else IdentityDirs(n - 1)[n - 1 := false]
  }

  lemma {:induction false} NotYet(d: nat)
    ensures forall e :: e in IdentityDirs(d) <==> 0 <= e < d
  {
    if d > 0 {
      NotYet(d - 1);
    }
  }

  lemma IdentityDone(free: set<nat>)
    ensures Space(IdentityFlat(4), IdentityDirs(4), free) == Identity(free)
  {
    assert IdentityDirs(4) == map[0 := false, 1 := false, 2 := false, 3 := false];
    assert IdentityFlat(4) == Identity(free).flat;
  }

  lemma IdentityEntries(tab: seq<Word>, d: nat)
    requires |tab| == ENTRIES && d < IDENTITY_MAP_ENTRIES
    requires forall k :: 0 <= k < ENTRIES ==> tab[k] == (d * ENTRIES + k) * PAGE_SIZE + 3
    ensures TableOk(tab, IdentityFlat(d + 1), d)
  {
    forall j | 0 <= j < ENTRIES
      ensures tab[j] == PteFor(IdentityFlat(d + 1), d * ENTRIES + j)
    {
      assert PdOf(d * ENTRIES + j) == d;
    }
  }

  lemma EmptyDirectory(m: seq<Word>, p: nat, free: set<nat>)
    requires |m| == MEM_SIZE && p < TOTAL_PAGES && forall j :: 0 <= j < ENTRIES ==> Table(m, p)[j] == 0
    ensures DirOk(Table(m, p), map[], map[]) && TablesOk(m, map[], map[])
    ensures IdentityFlat(0) == map[] && IdentityDirs(0) == map[] && Inv(Space(map[], map[], free))
    ensures 0 < p && p !in free ==> Separate(p, map[], free)
  {
  }

  lemma IdentityTable(m: seq<Word>, m1: seq<Word>, n: seq<Word>, s: Space, p: nat, tables: map<nat, nat>, d: nat, t: nat)
    requires |m| == |m1| == |n| == MEM_SIZE && Separate(p, tables, s.pool) && t in s.pool && 0 < t < TOTAL_PAGES
    requires s.flat == IdentityFlat(d) && s.dirs == IdentityDirs(d) && d < IDENTITY_MAP_ENTRIES
    requires DirOk(Table(m, p), tables, s.dirs) && TablesOk(m, tables, s.flat)
    requires DifferOnlyOn(m, m1, {t}) && TableOk(Table(m1, t), IdentityFlat(d + 1), d)
    requires Table(n, p) == Table(m1, p)[d := t * PAGE_SIZE + PRESENT + WRITABLE]
    requires forall q: nat :: q < TOTAL_PAGES && q != p ==> Table(n, q) == Table(m1, q)
    ensures DirOk(Table(n, p), tables[d := t], s.dirs[d := false]) && TablesOk(n, tables[d := t], IdentityFlat(d + 1))
  {
    hide DirOk, TablesOk, Table, TableOk, IdentityFlat, IdentityDirs, Inv;
    NotYet(d);
    KeysMatch(Table(m, p), tables, s.dirs);
    IdentityGrows(d);
    forall q: nat | q < TOTAL_PAGES && q != t
      ensures Table(m1, q) == Table(m, q)
    {
      TableFrame(m, m1, {t}, q);
    }
    AddFilledTable(m, n, p, tables, s.flat, s.dirs, d, t, IdentityFlat(d + 1));
  }

  lemma SeparateAdd(p: nat, tables: map<nat, nat>, free: set<nat>, d: nat, t: nat)
    requires Separate(p, tables, free) && t in free && 0 < t < TOTAL_PAGES && d < ENTRIES && d !in tables
    ensures Separate(p, tables[d := t], free - {t})
  {
  }

  lemma NextDirs(d: nat)
    ensures IdentityDirs(d + 1) == IdentityDirs(d)[d := false]
  {
  }

  lemma IdentityGrows(d: nat)
    ensures forall v :: PdOf(v) != d ==> PteFor(IdentityFlat(d + 1), v) == PteFor(IdentityFlat(d), v)
  {
    forall v: nat | PdOf(v) != d
      ensures PteFor(IdentityFlat(d + 1), v) == PteFor(IdentityFlat(d), v)
    {
      assert v in IdentityFlat(d + 1) <==> v in IdentityFlat(d);
    }
  }

  lemma IdentityInv(n: nat, free: set<nat>)
    requires n <= IDENTITY_MAP_ENTRIES
    ensures Inv(Space(IdentityFlat(n), IdentityDirs(n), free))
  {
    NotYet(n);
    assert !HasUser(3);
    var s := Space(IdentityFlat(n), IdentityDirs(n), free);
    forall v | v in s.flat
      ensures Consistent(s, v)
    {
    }
  }

  lemma ValuesAdd(tables: map<nat, nat>, d: nat, t: nat)
    requires d !in tables
    ensures tables[d := t].Values == tables.Values + {t}
  {
    var tables' := tables[d := t];
    assert tables'[d] == t;
    forall x | x in tables.Values
      ensures x in tables'.Values
    {
      var e :| e in tables && tables[e] == x;
      assert tables'[e] == x;
    }
  }

  /** What `Map` does after a table was found, made or refused is `MapPage`. */
  lemma MapAssembles(s: Space, dirs: map<nat, bool>, free: set<nat>, virt: Word, phys: Word, flags: Word)
    requires var d := PdOf(PageOf(virt));
             && (CanMap(s, virt) ==> dirs == s.dirs[d := d in s.dirs && s.dirs[d]])
             && free == if d in s.dirs || !CanMap(s, virt) then s.pool else s.pool - {Min(s.pool)}
    ensures var d := PdOf(PageOf(virt));
            MapPage(s, virt, phys, flags) ==
            if CanMap(s, virt) then
              Space(s.flat[PageOf(virt) := MappingFor(phys, flags)], dirs[d := dirs[d] || HasUser(flags)], free)
            else s
  {
    hide HasUser, MappingFor, PdOf;
  }

  lemma SeparateFrom(p: nat, tables: map<nat, nat>, free: set<nat>)
    requires Separate(p, tables, free)
    ensures Separate(p, tables, {})
  {
  }

  lemma SameMemory(m: seq<Word>, pages: set<nat>)
    requires |m| == MEM_SIZE
    ensures DifferOnlyOn(m, m, pages)
  {
  }

  lemma Differences(m: seq<Word>, m1: seq<Word>, m2: seq<Word>, n: seq<Word>, p: nat, tables: set<nat>)
    requires DifferOnlyOn(m, m1, {p} + tables) && DifferOnlyOn(m1, m2, {p}) && DifferOnlyOn(m2, n, tables)
    ensures DifferOnlyOn(m, n, {p} + tables)
  {
  }

  lemma WiderDifferences(m: seq<Word>, n: seq<Word>, pages: set<nat>, all: set<nat>)
    requires DifferOnlyOn(m, n, pages) && pages <= all
    ensures DifferOnlyOn(m, n, all)
  {
  }

  lemma MoreDifferences(m: seq<Word>, m1: seq<Word>, n: seq<Word>, pages: set<nat>, some: set<nat>, all: set<nat>)
    requires DifferOnlyOn(m, m1, pages) && DifferOnlyOn(m1, n, some) && pages + some <= all
    ensures DifferOnlyOn(m, n, all)
  {
  }

  lemma OpenUnfold(s: Space, lo: nat, hi: nat)
    requires hi <= VIRTUAL_PAGES
    ensures lo < hi ==>
      var t := MapPage(s, lo * PAGE_SIZE, lo * PAGE_SIZE, PRESENT + WRITABLE + USER);
      OpenPages(s, lo, hi) == OpenPages(t, lo + 1, hi)
    ensures hi <= lo ==> OpenPages(s, lo, hi) == s
  {
  }

  lemma TablesUntouched(m: seq<Word>, n: seq<Word>, p: nat, tables: map<nat, nat>, flat: map<nat, Mapping>)
    requires |m| == |n| == MEM_SIZE && TablesOk(m, tables, flat) && forall d :: d in tables ==> tables[d] != p
    requires forall q: nat :: q < TOTAL_PAGES && q != p ==> Table(n, q) == Table(m, q)
    ensures TablesOk(n, tables, flat)
  {
  }

  /** The state after a fresh zeroed page has become the table of slot `d`. */
  lemma NewTable(m: seq<Word>, m1: seq<Word>, n: seq<Word>, s: Space, p: nat, tables: map<nat, nat>, d: nat, t: nat)
    requires |m| == |m1| == |n| == MEM_SIZE && Inv(s) && Separate(p, tables, s.pool) && t in s.pool && 0 < t < TOTAL_PAGES
    requires DirOk(Table(m, p), tables, s.dirs) && TablesOk(m, tables, s.flat) && d !in tables && d < ENTRIES
    requires DifferOnlyOn(m, m1, {t}) && forall j :: 0 <= j < ENTRIES ==> Table(m1, t)[j] == 0
    requires Table(n, p) == Table(m1, p)[d := t * PAGE_SIZE + PRESENT + WRITABLE]
    requires forall q: nat :: q < TOTAL_PAGES && q != p ==> Table(n, q) == Table(m1, q)
    requires DifferOnlyOn(m1, n, {p})
    ensures var tables', dirs' := tables[d := t], s.dirs[d := false];
      && DirOk(Table(n, p), tables', dirs') && TablesOk(n, tables', s.flat)
      && Separate(p, tables', s.pool - {t}) && Inv(Space(s.flat, dirs', s.pool - {t}))
      && tables.Values <= tables'.Values && t in tables'.Values
      && DifferOnlyOn(m, n, {p, t})
  {
    hide DirOk, TablesOk, Table;
    forall q: nat | q < TOTAL_PAGES && q != t
      ensures Table(m1, q) == Table(m, q)
    {
      TableFrame(m, m1, {t}, q);
    }
    forall v | v in s.flat
      ensures PdOf(v) in tables && Consistent(Space(s.flat, s.dirs[d := false], s.pool - {t}), v)
    {
      assert Consistent(s, v);
      KeysMatch(Table(m, p), tables, s.dirs);
    }
    AddTable(m, n, p, tables, s.flat, s.dirs, d, t);
    ValuesAdd(tables, d, t);
  }

  lemma KeysMatch(dir: seq<Word>, tables: map<nat, nat>, dirs: map<nat, bool>)
    requires DirOk(dir, tables, dirs)
    ensures tables.Keys == dirs.Keys
  {
  }
}
