/** What the processor finds in memory: the two-level walk of section 4.3 of the Intel
    SDM volume 3A and the access rights of section 4.6, read off the words of the
    directory and the tables, agree with the flat map. */
module PagingWalk {
  import opened Machine
  import opened PagingSpec
  import opened Paging

  /** The directory entry for an address, which its top ten bits select. */
  function DirectoryEntry(m: seq<Word>, directory: nat, virt: Word): nat {
    var at := directory + 4 * (virt / 0x40_0000);
    if at < |m| then m[at] else 0
  }

  /** The entry of the table it points to, which the next ten bits select. */
  function TableEntry(m: seq<Word>, directory: nat, virt: Word): nat {
    var at := DirectoryEntry(m, directory, virt) / 4096 * 4096 + 4 * (virt / 4096 % 1024);
    if at < |m| then m[at] else 0
  }

  /** Both entries have bit 0. */
  predicate Present(m: seq<Word>, directory: nat, virt: Word) {
    Bit(DirectoryEntry(m, directory, virt), 0) && Bit(TableEntry(m, directory, virt), 0)
  }

  /** Both are present and have bit `k`: 1 allows writing, 2 user mode. */
  predicate Allows(m: seq<Word>, directory: nat, virt: Word, k: nat) {
    && Present(m, directory, virt)
    && Bit(DirectoryEntry(m, directory, virt), k) && Bit(TableEntry(m, directory, virt), k)
  }

  lemma LowBits(w: nat)
    ensures Bit(w, 0) <==> w % 2 == 1
    ensures Bit(w, 1) <==> w / 2 % 2 == 1
    ensures Bit(w, 2) <==> HasUser(w)
  {
    assert Bit(w, 1) <==> Bit(w / 2, 0);
    assert Bit(w, 2) <==> Bit(w / 2, 1);
    assert Bit(w / 2, 1) <==> Bit(w / 2 / 2, 0);
    assert w / 2 / 2 == w / 4;
  }

  /** A directory entry is present exactly for a slot with a table, always allows
      writing, and allows user mode as recorded. */
  lemma DirectoryBits(m: seq<Word>, p: nat, tables: map<nat, nat>, dirs: map<nat, bool>, d: nat)
    requires |m| == MEM_SIZE && p < TOTAL_PAGES && d < ENTRIES && DirOk(Table(m, p), tables, dirs)
    ensures var w := m[p * PAGE_SIZE + 4 * d];
      && (Bit(w, 0) <==> d in dirs) && (d in dirs <==> d in tables)
      && (d in dirs ==> w / PAGE_SIZE == tables[d] && Bit(w, 1) && (Bit(w, 2) <==> dirs[d]))
  {
    hide Bit, HasUser, Table;
    var w := m[p * PAGE_SIZE + 4 * d];
    ReadPde(m, p, tables, dirs, d);
    LowBits(w);
    if d in tables {
      EntryBit(tables[d], if dirs[d] then 7 else 3, 1);
      assert Bit(3, 1) && Bit(7, 1) by { LowBits(3); LowBits(7); }
    }
  }

  /** A table entry is the mapping it stands for: its frame and its twelve flag bits. */
  lemma TableBits(m: seq<Word>, tables: map<nat, nat>, s: Space, v: nat, k: nat)
    requires |m| == MEM_SIZE && TablesOk(m, tables, s.flat) && Inv(s) && PdOf(v) in tables && k < 12
    ensures tables[PdOf(v)] < TOTAL_PAGES
    ensures var w := m[tables[PdOf(v)] * PAGE_SIZE + 4 * PtOf(v)];
      && (Bit(w, 0) <==> v in s.flat)
      && (v in s.flat ==> w / PAGE_SIZE == s.flat[v].frame && (Bit(w, k) <==> Bit(s.flat[v].flags, k)))
  {
    hide Bit, Table;
    var d: nat, j: nat := PdOf(v), PtOf(v);
    ReadPte(m, tables, s, v);
    var w := m[tables[d] * PAGE_SIZE + 4 * j];
    LowBits(w);
    if v in s.flat {
      assert TableOk(Table(m, tables[d]), s.flat, d);
      TableAt(m, tables[d], j);
      assert d * ENTRIES + j == v;
      EntryBit(s.flat[v].frame, s.flat[v].flags, k);
    }
  }

  lemma TableAt(m: seq<Word>, p: nat, j: nat)
    requires |m| == MEM_SIZE && p < TOTAL_PAGES && j < ENTRIES
    ensures Table(m, p)[j] == m[p * PAGE_SIZE + 4 * j]
  {
  }

  /** The walk of the tables in memory gives the flat map's translation, its flag bits
      and its access rights. */
  lemma WalkAgrees(pager: Pager, virt: Word, k: nat)
    requires pager.Valid() && 1 <= k < 12
    ensures var m, d, s, v := pager.mem[..], pager.directory, pager.Content(), PageOf(virt);
      && (Present(m, d, virt) <==> v in s.flat)
      && Translate(s, virt) == (if Present(m, d, virt) then TableEntry(m, d, virt) / 4096 * 4096 + virt % 4096 else 0)
      && (Present(m, d, virt) ==> (Bit(TableEntry(m, d, virt), k) <==> PageHas(s, v, k)))
      && (Allows(m, d, virt, 1) <==> Writable(s, v))
      && (Allows(m, d, virt, 2) <==> UserAccessible(s, v))
  {
    hide Bit, HasUser, DirOk, TablesOk, Table, Inv;
    var m, s, v := pager.mem[..], pager.Content(), PageOf(virt);
    Indices(virt);
    MappedHasTable(s, v);
    DirectoryBits(m, PageOf(pager.directory), pager.tables, s.dirs, PdOf(v));
    assert DirectoryEntry(m, pager.directory, virt) == m[PageOf(pager.directory) * PAGE_SIZE + 4 * PdOf(v)];
    if PdOf(v) in s.dirs {
      TableBits(m, pager.tables, s, v, k);
      TableBits(m, pager.tables, s, v, 1);
      TableBits(m, pager.tables, s, v, 2);
      assert TableEntry(m, pager.directory, virt) == m[pager.tables[PdOf(v)] * PAGE_SIZE + 4 * PtOf(v)];
      if v in s.flat {
        LowBits(s.flat[v].flags);
      }
    }
  }

  lemma MappedHasTable(s: Space, v: nat)
    requires Inv(s)
    ensures v in s.flat ==> PdOf(v) in s.dirs
  {
    assert v in s.flat ==> Consistent(s, v);
  }

  /** After `paging_map` has taken effect, the entry in memory for the page is the frame
      asked for with bit 0 and exactly the flag bits 1 to 11 of the request. */
  lemma MappedEntry(pager: Pager, s: Space, virt: Word, phys: Word, flags: Word, k: nat)
    requires pager.Valid() && CanMap(s, virt) && pager.Content() == MapPage(s, virt, phys, flags) && 1 <= k < 12
    ensures var w := TableEntry(pager.mem[..], pager.directory, virt);
      && Present(pager.mem[..], pager.directory, virt)
      && w / 4096 == phys / 4096 && (Bit(w, k) <==> Bit(flags, k))
  {
    hide Bit, HasUser, Pager.Represents, Inv, TableEntry;
    WalkAgrees(pager, virt, k);
    FlagBits(phys, flags, k);
    MapTranslates(s, virt, phys, flags, virt % PAGE_SIZE);
    assert PageOf(virt) * PAGE_SIZE + virt % PAGE_SIZE == virt;
  }

  /** Once a program has been started the processor finds, whatever the number of
      programs: the first 16 MB mapped to itself and writable, nothing else mapped, and
      exactly 0x200000-0x300FFF open to user mode. */
  lemma ExecWalk(pager: Pager, pool: set<nat>, count: nat, virt: Word)
    requires pager.Valid() && count > 0 && pager.Content() == ExecMaps(Identity(pool), count)
    ensures var m, d := pager.mem[..], pager.directory;
      && (Present(m, d, virt) <==> virt < 0x100_0000)
      && (Present(m, d, virt) ==> TableEntry(m, d, virt) / 4096 == virt / 4096)
      && (Allows(m, d, virt, 1) <==> virt < 0x100_0000)
      && (Allows(m, d, virt, 2) <==> 0x20_0000 <= virt < 0x30_1000)
  {
    hide Bit, HasUser, Pager.Represents, Inv, TableEntry, ExecMaps, Identity, DirectoryEntry;
    var second := virt / 4096 * 4096 + 1;
    assert PageOf(second) == PageOf(virt) && second % 4096 == 1;
    WalkAgrees(pager, virt, 1);
    WalkAgrees(pager, second, 1);
    ExecOpensExactly(pool, count, virt);
    ExecOpensExactly(pool, count, second);
  }
}
