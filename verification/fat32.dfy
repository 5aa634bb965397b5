/** The FAT32 driver: sector reads that may fail, chain walking, file reads,
    directory listing and lookup. */
module Fat32Driver {
  import opened Machine
  import opened FatNames
  import opened Fat32Spec
  import opened Fat32Bytes

  function Rem(p: nat, m: nat): nat
    requires m > 0
  {
    p % m
  }

  /** A position's remainder is its offset in its cluster. */
  lemma OffsetMod(v: Volume, k: nat, o: nat)
    requires o < v.ClusterSize()
    ensures Rem(Offset(v, k) + o, v.ClusterSize()) == o
  {
    OffsetIsMultiple(v, k);
    ModUnique(Offset(v, k) + o, v.ClusterSize(), k, o);
  }

  // ---------- the handle ----------

  class File {
    var first: Word
    var current: Word
    var size: Word
    var position: nat
    var attr: Byte
    var valid: bool

    constructor ()
      ensures !valid
    {
      first, current, size, position, attr, valid := 0, 0, 0, 0, 0, false;
    }
  }

  function Least(a: int, b: int): int { if a < b then a else b }

  /** How much of a file its chain provides. */
  function Limit(v: Volume, size: Word, chain: seq<Word>): nat {
    Least(size, Offset(v, |chain|))
  }

  /** `position` lies in cluster number `k` of the chain, at offset `o`. */
  predicate At(v: Volume, chain: seq<Word>, position: nat, k: nat, o: nat) {
    k < |chain| && o < v.ClusterSize() && position == Offset(v, k) + o
  }

  /** The remembered cluster is the one the position lies in, or the end mark. */
  ghost predicate Follows(v: Volume, chain: seq<Word>, current: Word, position: nat) {
    current >= CLUSTER_EOC || exists k: nat, o: nat :: At(v, chain, position, k, o) && current == chain[k]
  }

  /** The end mark is there only because the chain has ended. */
  predicate Connected(v: Volume, chain: seq<Word>, current: Word, position: nat) {
    current >= CLUSTER_EOC ==> position >= Offset(v, |chain|)
  }

  /** No sector read from number `lo` up to `hi` failed. */
  ghost predicate AllGood(fails: nat -> bool, lo: nat, hi: nat) {
    forall n :: lo <= n < hi ==> !fails(n)
  }

  /** The file's size, or what its clusters hold if that is less. */
  lemma LimitIs(v: Volume, size: Word, chain: seq<Word>)
    ensures Limit(v, size, chain) ==
      if size < v.perCluster * 512 * |chain| then size else v.perCluster * 512 * |chain|
  {
    hide Offset;
    OffsetIsMultiple(v, |chain|);
  }

  lemma LimitFits(v: Volume, size: Word, chain: seq<Word>)
    ensures Limit(v, size, chain) <= |ChainData(v, chain)| && Limit(v, size, chain) <= size
  {
    hide ChainData, Offset;
  }

  /** When the loop ends with the handle in step, it has delivered what there is. */
  lemma ReadToEnd(v: Volume, chain: seq<Word>, filesize: Word, size: Word, current: Word, p: nat, done: nat, left: nat)
    requires p + done <= Limit(v, filesize, chain) && p <= filesize
    requires done + left == (if p + size > filesize then filesize - p else size)
    requires left == 0 || current >= CLUSTER_EOC
    ensures Connected(v, chain, current, p + done) ==> done == Least(size, Limit(v, filesize, chain) - p)
  {
    hide Offset;
  }

  class Fat32 {
    var vol: Volume
    /** Whether the n-th sector read since boot fails. */
    const fails: nat -> bool
    const buffer: array<Byte>
    var initialized: bool
    var readCount: nat

    constructor (vol: Volume, fails: nat -> bool)
      ensures this.vol == vol && fresh(buffer) && buffer.Length == SECTOR_SIZE && !initialized
    {
      this.vol, this.fails := vol, fails;
      buffer := new Byte[SECTOR_SIZE](_ => 0);
      initialized, readCount := false, 0;
    }

    /** Reads one sector into the buffer. */
    method ReadSector(lba: nat) returns (ok: bool)
      requires buffer.Length == SECTOR_SIZE
      modifies this`readCount, buffer
      ensures readCount == old(readCount) + 1 && ok == !fails(old(readCount))
      ensures ok ==> buffer[..] == vol.SectorAt(lba)
    {
      ok := !fails(readCount);
      readCount := readCount + 1;
      if ok {
        var s := vol.SectorAt(lba);
        forall i | 0 <= i < SECTOR_SIZE {
          buffer[i] := s[i];
        }
      }
    }

    /** `fat32_init`: takes the geometry from the boot sector of a FAT32 volume with
        512-byte sectors, and refuses any other. */
    method Init() returns (r: int)
      requires buffer.Length == SECTOR_SIZE
      modifies this`vol, this`initialized, this`readCount, buffer
      ensures vol.disk == old(vol.disk) && readCount == old(readCount) + 1
      ensures var b := vol.disk(0);
        && r == (if !fails(old(readCount)) && b[11] == 0 && b[12] == 2 && b[22] == 0 && b[23] == 0 then 0 else -1)
        && initialized == (r == 0)
        && (initialized ==>
              && vol.perCluster == b[13] && vol.fatStart == Number(b[14], b[15], 0, 0)
              && vol.dataStart == Wrap(vol.fatStart + b[16] * Number(b[36], b[37], b[38], b[39]))
              && vol.root == Number(b[44], b[45], b[46], b[47]))
    {
      initialized := false;
      var ok := ReadSector(0);
      if !ok {
        return -1;
      }
      vol := vol.(perCluster := buffer[13]);
      if Le16(buffer[..], 11) != 512 {
        return -1;
      }
      if Le16(buffer[..], 22) != 0 {
        return -1;
      }
      var reserved := Le16(buffer[..], 14);
      vol := vol.(fatStart := reserved, dataStart := Wrap(reserved + buffer[16] * Le32(buffer[..], 36)),
                  root := Le32(buffer[..], 44));
      initialized := true;
      return 0;
    }

    /** `fat32_get_next_cluster`: a failed read looks like the end of the chain. */
    method GetNextCluster(cluster: Word) returns (next: Word)
      requires buffer.Length == SECTOR_SIZE
      modifies this`readCount, buffer
      ensures old(readCount) <= readCount
      ensures next == Next(vol, cluster) == Successor(vol, cluster)
              || (next == 0x0FFF_FFF8 && !AllGood(fails, old(readCount), readCount))
    {
      NextIsSuccessor(vol, cluster);
      hide Successor;
      if cluster < 2 || cluster >= CLUSTER_RESERVED {
        return CLUSTER_EOC;
      }
      var fatOffset := cluster * 4;
      var fatSector := vol.fatStart + fatOffset / SECTOR_SIZE;
      var entryOffset := fatOffset % SECTOR_SIZE / 4;
      var ok := ReadSector(fatSector);
      if !ok {
        return CLUSTER_EOC;
      }
      next := Le32(buffer[..], entryOffset * 4) % (CLUSTER_MASK + 1);
      if next >= CLUSTER_EOC {
        return CLUSTER_EOC;
      }
    }

    /** `memcpy` from the sector buffer. */
    method CopyOut(dest: array<Byte>, at: nat, from: nat, n: nat)
      requires dest != buffer && at + n <= dest.Length && from + n <= buffer.Length
      modifies dest
      ensures dest[..at] == old(dest[..at]) && dest[at..at + n] == buffer[from..from + n]
      ensures dest[at + n..] == old(dest[at + n..])
    {
      var i := 0;
      while i < n
        invariant 0 <= i <= n
        invariant dest[..at] == old(dest[..at]) && dest[at..at + i] == buffer[from..from + i]
        invariant dest[at + i..] == old(dest[at + i..])
      {
        dest[at + i] := buffer[from + i];
        i := i + 1;
      }
    }

    /** The handle's state agrees with the chain. */
    ghost predicate Tracks(file: File, chain: seq<Word>)
      reads file, this`vol
    {
      && IsChain(vol, file.first, chain) && file.position <= Limit(vol, file.size, chain)
      && Follows(vol, chain, file.current, file.position)
    }

    /** One round of the loop of `fat32_read`: at most the rest of one sector.
        Zero bytes mean that the sector could not be read. */
    method ReadPiece(file: File, dest: array<Byte>, at: nat, want: nat, ghost chain: seq<Word>) returns (n: nat)
      requires buffer.Length == SECTOR_SIZE && dest != buffer && at + want <= dest.Length && want > 0
      requires Tracks(file, chain) && file.current < CLUSTER_EOC && file.position + want <= file.size
      modifies this`readCount, buffer, dest, file`position, file`current
      ensures n <= want && old(readCount) <= readCount && file.position == old(file.position) + n
      ensures n == 0 ==> !AllGood(fails, old(readCount), readCount) && file.current == old(file.current)
      ensures Tracks(file, chain)
      ensures AllGood(fails, old(readCount), readCount) ==> Connected(vol, chain, file.current, file.position)
      ensures old(file.position) + n <= Offset(vol, |chain|)
      ensures dest[..at] == old(dest[..at]) && dest[at + n..] == old(dest[at + n..])
      ensures dest[at..at + n] == ChainData(vol, chain)[old(file.position)..old(file.position) + n]
      ensures Delivered(vol, chain, old(file.position), dest[at..at + n])
    {
      hide ChainData, Offset, IsChain, Volume.ClusterSize, Delivered;
      ghost var k: nat, o: nat :| At(vol, chain, file.position, k, o) && file.current == chain[k];
      n := FetchPiece(file, dest, at, want, chain, k, o);
      if n > 0 {
        var mid := readCount;
        MoveOn(file, n, chain, k, o);
        GoodParts(fails, old(readCount), mid, readCount);
      } else {
        assert dest[at..at + n] == [];
      }
      SliceDelivered(vol, chain, old(file.position), file.position);
    }

    /** Reads the sector at the position and copies out what is wanted of it. */
    method FetchPiece(file: File, dest: array<Byte>, at: nat, want: nat, ghost chain: seq<Word>, ghost k: nat, ghost o: nat)
      returns (n: nat)
      requires buffer.Length == SECTOR_SIZE && dest != buffer && at + want <= dest.Length && want > 0
      requires At(vol, chain, file.position, k, o) && file.current == chain[k]
      modifies this`readCount, buffer, dest
      ensures n <= want && o + n <= vol.ClusterSize() && readCount == old(readCount) + 1 && (n == 0 <==> fails(old(readCount)))
      ensures dest[..at] == old(dest[..at]) && dest[at + n..] == old(dest[at + n..])
      ensures n > 0 ==>
        && Offset(vol, k) + o + n <= Offset(vol, |chain|)
        && dest[at..at + n] == ChainData(vol, chain)[file.position..file.position + n]
    {
      hide ChainData, Offset, FirstSector, Rem;
      OffsetMod(vol, k, o);
      var clusterSize := vol.ClusterSize();
      var offsetInCluster := Rem(file.position, clusterSize);
      var bytesInCluster := clusterSize - offsetInCluster;
      if bytesInCluster > want {
        bytesInCluster := want;
      }
      var sector := FirstSector(vol, file.current) + offsetInCluster / SECTOR_SIZE;
      var offsetInSector := offsetInCluster % SECTOR_SIZE;
      var ok := ReadSector(sector);
      if !ok {
        return 0;
      }
      n := SECTOR_SIZE - offsetInSector;
      if n > bytesInCluster {
        n := bytesInCluster;
      }
      SectorOf(vol, o);
      PieceOf(vol, chain, k, o / SECTOR_SIZE, offsetInSector, n);
      CopyOut(dest, at, offsetInSector, n);
      SameSlice(buffer[..], vol.SectorAt(sector), offsetInSector, n);
    }

    /** Moves the position, and the remembered cluster at a cluster's end. */
    method MoveOn(file: File, n: nat, ghost chain: seq<Word>, ghost k: nat, ghost o: nat)
      requires buffer.Length == SECTOR_SIZE && IsChain(vol, file.first, chain) && 0 < n && o + n <= vol.ClusterSize()
      requires At(vol, chain, file.position, k, o) && file.current == chain[k]
      modifies this`readCount, buffer, file`position, file`current
      ensures file.position == old(file.position) + n && old(readCount) <= readCount
      ensures Follows(vol, chain, file.current, file.position)
      ensures AllGood(fails, old(readCount), readCount) ==> Connected(vol, chain, file.current, file.position)
    {
      hide Offset, IsChain, Volume.ClusterSize, AllGood, Next, Rem;
      Advance(vol, chain, k, o, n);
      ChainStep(vol, file.first, chain, k);
      var clusterSize := vol.ClusterSize();
      file.position := file.position + n;
      if Rem(file.position, clusterSize) == 0 {
        var next := GetNextCluster(file.current);
        file.current := next;
        if k + 1 < |chain| && next == chain[k + 1] {
          StartOf(vol, chain, k + 1);
        }
      } else {
        assert At(vol, chain, file.position, k, o + n);
      }
    }

    /** `fat32_read`: delivers the next bytes of the chain, stopping early only at
        the file's end, the chain's end or a failed read. */
    method Read(file: File, dest: array<Byte>, size: Word, ghost chain: seq<Word>) returns (r: int)
      requires buffer.Length == SECTOR_SIZE && dest != buffer && size <= dest.Length
      requires file.valid && initialized ==> Tracks(file, chain) && file.position + size < 0x1_0000_0000
      modifies this`readCount, buffer, dest, file`position, file`current
      ensures old(readCount) <= readCount
      ensures !(file.valid && initialized) ==> r == -1 && file.position == old(file.position) && dest[..] == old(dest[..])
      ensures file.valid && initialized ==>
        && 0 <= r <= size && file.position == old(file.position) + r && Tracks(file, chain)
        && file.position <= Limit(vol, file.size, chain) <= |ChainData(vol, chain)|
        && dest[..r] == ChainData(vol, chain)[old(file.position)..file.position] && dest[r..] == old(dest[r..])
        && Delivered(vol, chain, old(file.position), dest[..r])
      ensures file.valid && initialized && AllGood(fails, old(readCount), readCount)
              && Connected(vol, chain, old(file.current), old(file.position)) ==>
        && r == Least(size, Limit(vol, file.size, chain) - old(file.position))
        && Connected(vol, chain, file.current, file.position)
    {
      hide ChainData, Offset, IsChain, Volume.ClusterSize, Follows, Connected, AllGood, Limit, Delivered;
      if !file.valid || !initialized {
        return -1;
      }
      ghost var p := file.position;
      var done, toRead := 0, size;
      if file.position + toRead > file.size {
        toRead := file.size - file.position;
      }
      ghost var goal := toRead;
      LimitFits(vol, file.size, chain);
      while toRead > 0 && file.current < CLUSTER_EOC
        invariant 0 <= toRead && done + toRead == goal && file.position == p + done
        invariant file.position + toRead <= file.size && Tracks(file, chain) && old(readCount) <= readCount
        invariant dest[..done] == ChainData(vol, chain)[p..p + done] && dest[done..] == old(dest[done..])
        invariant AllGood(fails, old(readCount), readCount) && Connected(vol, chain, old(file.current), p) ==>
          Connected(vol, chain, file.current, file.position)
        decreases toRead
      {
        ghost var before, mid := dest[..], readCount;
        var n := ReadPiece(file, dest, done, toRead, chain);
        GoodParts(fails, old(readCount), mid, readCount);
        Append(before, dest[..], ChainData(vol, chain), p, done, n);
        if n == 0 {
          SliceDelivered(vol, chain, p, p + done);
          return done;
        }
        done := done + n;
        toRead := toRead - n;
      }
      ReadToEnd(vol, chain, file.size, size, file.current, p, done, toRead);
      SliceDelivered(vol, chain, p, p + done);
      return done;
    }

    /** Any sequence of reads on one handle, as a program makes them. */
    method ReadMany(file: File, sizes: seq<Word>, ghost chain: seq<Word>) returns (out: seq<Byte>)
      requires buffer.Length == SECTOR_SIZE && initialized && file.valid && Tracks(file, chain)
      requires forall i :: 0 <= i < |sizes| ==>
        Least(file.position + Sum(sizes[..i]), file.size) + sizes[i] < 0x1_0000_0000
      modifies this`readCount, buffer, file`position, file`current
      ensures Tracks(file, chain) && old(readCount) <= readCount
      ensures old(file.position) <= file.position <= Limit(vol, file.size, chain) <= |ChainData(vol, chain)|
      ensures out == ChainData(vol, chain)[old(file.position)..file.position]
      ensures Delivered(vol, chain, old(file.position), out)
      ensures AllGood(fails, old(readCount), readCount) && Connected(vol, chain, old(file.current), old(file.position)) ==>
        file.position == Least(old(file.position) + Sum(sizes), Limit(vol, file.size, chain))
    {
      hide ChainData, Offset, IsChain, Follows, Connected, AllGood, Limit, Sum, Delivered;
      ghost var p, data, limit := file.position, ChainData(vol, chain), Limit(vol, file.size, chain);
      out := [];
      var i := 0;
      assert sizes[..0] == [];
      SumNone();
      LimitFits(vol, file.size, chain);
      while i < |sizes|
        invariant 0 <= i <= |sizes| && old(readCount) <= readCount && p <= file.position
        invariant Tracks(file, chain) && file.position <= limit <= |data| && file.position <= p + Sum(sizes[..i])
        invariant out == data[p..file.position]
        invariant AllGood(fails, old(readCount), readCount) && Connected(vol, chain, old(file.current), p) ==>
          file.position == Least(p + Sum(sizes[..i]), limit) && Connected(vol, chain, file.current, file.position)
      {
        ghost var mid, q := readCount, file.position;
        var dest := new Byte[sizes[i]](_ => 0);
        var r := Read(file, dest, sizes[i], chain);
        GoodParts(fails, old(readCount), mid, readCount);
        SumSnoc(sizes, i);
        Joined(data, p, q, file.position);
        out := out + dest[..r];
        i := i + 1;
      }
      assert sizes[..|sizes|] == sizes;
      SliceDelivered(vol, chain, p, file.position);
    }

    // ---------- directories ----------

    /** The entries of the sector in the buffer, added to a listing. */
    method ScanSector(max: nat, before: seq<Info>, ghost all: seq<Entry>, ghost more: seq<Entry>)
      returns (infos: seq<Info>, ended: bool)
      requires buffer.Length == SECTOR_SIZE && Listing(all, SectorEntries(buffer[..]) + more, before, max)
      ensures if ended then infos == VisibleInfos(all) && |infos| < max else Listing(all, more, infos, max)
    {
      hide Listing, SectorEntries, VisibleInfos, ParseEntry;
      infos, ended := before, false;
      ghost var es := SectorEntries(buffer[..]);
      var j := 0;
      assert es[0..] == es;
      while j < 16 && |infos| < max
        invariant 0 <= j <= 16 && Listing(all, es[j..] + more, infos, max)
      {
        var e := EntryAt(j);
        assert es[j..] + more == [e] + (es[j + 1..] + more);
        ListStep(all, e, es[j + 1..] + more, infos, max);
        if e.name[0] == 0x00 {
          return infos, true;
        }
        if e.name[0] == 0xE5 || e.attr == ATTR_LONG_NAME || HasBit(e.attr, ATTR_VOLUME_ID) {
          j := j + 1;
          continue;
        }
        var name := new Byte[13](_ => 0);
        var length := NameToString(e.name, name);
        infos := infos + [Info(name[..length], e.size, HasBit(e.attr, ATTR_DIRECTORY))];
        j := j + 1;
      }
      ListDone(all, es[j..], more, infos, max);
    }

    /** The directory entry at index `j` of the buffer. */
    method EntryAt(j: nat) returns (e: Entry)
      requires buffer.Length == SECTOR_SIZE && j < 16
      ensures e == SectorEntries(buffer[..])[j]
    {
      e := ParseEntry(buffer[ENTRY_SIZE * j..ENTRY_SIZE * j + ENTRY_SIZE]);
      SliceOfSlice(buffer[..], 0, SECTOR_SIZE, ENTRY_SIZE * j, ENTRY_SIZE);
    }

    /** All sectors of one cluster of a directory. */
    method ScanCluster(cluster: Word, max: nat, before: seq<Info>, ghost all: seq<Entry>, ghost more: seq<Entry>)
      returns (infos: seq<Info>, outcome: Outcome)
      requires buffer.Length == SECTOR_SIZE && Listing(all, ClusterEntries(vol, cluster) + more, before, max)
      modifies this`readCount, buffer
      ensures old(readCount) <= readCount && (outcome == Failed ==> !AllGood(fails, old(readCount), readCount))
      ensures outcome == Ended ==> infos == VisibleInfos(all) && |infos| < max
      ensures outcome == Continue ==> Listing(all, more, infos, max)
    {
      hide Listing, SectorEntries, VisibleInfos, FirstSector, RunEntries;
      infos := before;
      var sector := FirstSector(vol, cluster);
      var i := 0;
      while i < vol.perCluster
        invariant 0 <= i <= vol.perCluster && old(readCount) <= readCount
        invariant Listing(all, RunEntries(vol, sector + i, vol.perCluster - i) + more, infos, max)
      {
        RunUnfold(vol, sector + i, vol.perCluster - i, more);
        var ok := ReadSector(sector + i);
        if !ok {
          return infos, Failed;
        }
        var ended;
        infos, ended := ScanSector(max, infos, all, RunEntries(vol, sector + i + 1, vol.perCluster - i - 1) + more);
        if ended {
          return infos, Ended;
        }
        i := i + 1;
      }
      RunUnfold(vol, sector + i, 0, more);
      return infos, Continue;
    }

    /** `fat32_list_dir`: with no failed read, exactly the first `max` of the entries
        `js` that the directory's bytes make visible; a failed data read gives -1, and
        a failed FAT read at worst a shorter prefix. */
    method ListDir(max: int, ghost chain: seq<Word>) returns (count: int, infos: seq<Info>, ghost js: seq<nat>)
      requires buffer.Length == SECTOR_SIZE && IsChain(vol, vol.root, chain)
      modifies this`readCount, buffer
      ensures AllShown(vol, chain, js)
      ensures !initialized || max <= 0 ==> count == -1
      ensures initialized && max > 0 && count == -1 ==> !AllGood(fails, old(readCount), readCount)
      ensures count != -1 ==> count == |infos| <= max && |infos| <= |js|
      ensures count != -1 ==> forall k :: 0 <= k < |infos| ==> ShownAs(vol, chain, js[k], infos[k])
      ensures initialized && max > 0 && AllGood(fails, old(readCount), readCount) ==> |infos| == Least(max, |js|)
    {
      hide VisibleInfos, Entries, IsChain, AllGood, AllShown, ShownAs;
      count, infos := ScanDir(max, chain);
      js := ListingOnDisk(vol, chain);
      if count != -1 {
        PrefixShown(vol, chain, js, infos);
      }
    }

    /** The scan, against the list of parsed entries. */
    method ScanDir(max: int, ghost chain: seq<Word>) returns (count: int, infos: seq<Info>)
      requires buffer.Length == SECTOR_SIZE && IsChain(vol, vol.root, chain)
      modifies this`readCount, buffer
      ensures !initialized || max <= 0 ==> count == -1
      ensures initialized && max > 0 && count == -1 ==> !AllGood(fails, old(readCount), readCount)
      ensures count != -1 ==> count == |infos| <= max && infos <= VisibleInfos(Entries(vol, chain))
      ensures initialized && max > 0 && AllGood(fails, old(readCount), readCount) ==>
        var all := VisibleInfos(Entries(vol, chain)); infos == all[..Least(max, |all|)]
    {
      hide Listing, VisibleInfos, Entries, ClusterEntries, IsChain, Next;
      infos := [];
      if !initialized || max <= 0 {
        return -1, infos;
      }
      ghost var all, k := Entries(vol, chain), 0;
      var cluster := vol.root;
      ListBegin(all, max);
      ChainBegin(vol, vol.root, chain);
      assert chain[0..] == chain;
      while cluster < CLUSTER_EOC && |infos| < max
        invariant 0 <= k <= |chain| && old(readCount) <= readCount
        invariant cluster < CLUSTER_EOC ==> k < |chain| && cluster == chain[k]
        invariant AllGood(fails, old(readCount), readCount) && cluster >= CLUSTER_EOC ==> k == |chain|
        invariant Listing(all, Entries(vol, chain[k..]), infos, max)
        decreases |chain| - k
      {
        ghost var mid := readCount;
        EntriesUnfold(vol, chain, k);
        var outcome;
        infos, outcome := ScanCluster(cluster, max, infos, all, Entries(vol, chain[k + 1..]));
        GoodParts(fails, old(readCount), mid, readCount);
        if outcome == Failed {
          return -1, [];
        }
        if outcome == Ended {
          ListComplete(all, infos, max);
          return |infos|, infos;
        }
        ChainStep(vol, vol.root, chain, k);
        mid := readCount;
        cluster := GetNextCluster(cluster);
        GoodParts(fails, old(readCount), mid, readCount);
        k := k + 1;
      }
      ListEnd(all, Entries(vol, chain[k..]), infos, max);
      if k == |chain| {
        EntriesEmpty(vol, chain);
      }
      return |infos|, infos;
    }

    /** Looks for a name among the entries in the buffer. */
    method SearchSector(name: Name, ghost more: seq<Entry>) returns (hit: Option<Entry>, ended: bool)
      requires buffer.Length == SECTOR_SIZE
      ensures var rest := SectorEntries(buffer[..]) + more;
        && (hit.Some? ==> Lookup(rest, name) == hit)
        && (ended ==> hit == None && Lookup(rest, name) == None)
        && (hit == None && !ended ==> Lookup(rest, name) == Lookup(more, name))
    {
      hide SectorEntries, ParseEntry, Lookup, Strncmp;
      hit, ended := None, false;
      ghost var es := SectorEntries(buffer[..]);
      assert es[0..] == es;
      var j := 0;
      while j < 16
        invariant 0 <= j <= 16 && Lookup(es + more, name) == Lookup(es[j..] + more, name)
      {
        var e := EntryAt(j);
        assert es[j..] + more == [e] + (es[j + 1..] + more);
        LookupStep(e, es[j + 1..] + more, name);
        if e.name[0] == 0x00 {
          return None, true;
        }
        if e.name[0] == 0xE5 || e.attr == ATTR_LONG_NAME {
          j := j + 1;
          continue;
        }
        var c := CompareNames(e.name, name, 11);
        if c == 0 {
          return Some(e), false;
        }
        j := j + 1;
      }
      assert es[j..] + more == more;
    }

    method SearchCluster(cluster: Word, name: Name, ghost more: seq<Entry>) returns (hit: Option<Entry>, outcome: Outcome)
      requires buffer.Length == SECTOR_SIZE
      modifies this`readCount, buffer
      ensures old(readCount) <= readCount && (outcome == Failed ==> hit == None && !AllGood(fails, old(readCount), readCount))
      ensures var rest := ClusterEntries(vol, cluster) + more;
        && (hit.Some? ==> Lookup(rest, name) == hit)
        && (outcome == Ended ==> hit == None && Lookup(rest, name) == None)
        && (hit == None && outcome == Continue ==> Lookup(rest, name) == Lookup(more, name))
    {
      hide SectorEntries, Lookup, FirstSector, RunEntries;
      hit := None;
      var sector := FirstSector(vol, cluster);
      var i := 0;
      while i < vol.perCluster
        invariant 0 <= i <= vol.perCluster && old(readCount) <= readCount && hit == None
        invariant Lookup(ClusterEntries(vol, cluster) + more, name)
               == Lookup(RunEntries(vol, sector + i, vol.perCluster - i) + more, name)
      {
        RunUnfold(vol, sector + i, vol.perCluster - i, more);
        var ok := ReadSector(sector + i);
        if !ok {
          return None, Failed;
        }
        var ended;
        hit, ended := SearchSector(name, RunEntries(vol, sector + i + 1, vol.perCluster - i - 1) + more);
        if hit.Some? {
          return hit, Continue;
        }
        if ended {
          return None, Ended;
        }
        i := i + 1;
      }
      RunUnfold(vol, sector + i, 0, more);
      return None, Continue;
    }

    /** `fat32_open`: what it finds is entry `j`, the first one in use whose bytes are
        the converted name; it misses an entry only after a failed read. */
    method Open(file: File, filename: seq<Byte>, ghost text: seq<Byte>, ghost chain: seq<Word>)
      returns (found: bool, ghost j: nat)
      requires buffer.Length == SECTOR_SIZE && vol.perCluster > 0
      requires IsChain(vol, vol.root, chain) && CString(filename, text, 0)
      modifies this`readCount, buffer, file
      ensures !initialized ==> !found
      ensures found ==> FirstNamedAt(vol, chain, j, FromString(text))
      ensures found ==>
        && file.valid && file.position == 0 && file.first == file.current == FirstClusterOf(vol, chain, j)
        && file.size == SizeOf(vol, chain, j) && file.attr == EntryByte(vol, chain, j, 11)
      ensures !found && initialized && AllGood(fails, old(readCount), readCount) ==>
        forall i: nat :: !NamedAt(vol, chain, i, FromString(text))
      ensures !found ==> unchanged(file)
      ensures found ==> forall chain' :: IsChain(vol, file.first, chain') ==>
        Tracks(file, chain') && Connected(vol, chain', file.current, 0)
    {
      hide Lookup, Entries, IsChain, FromString, AllGood, EntryByte, FirstNamedAt, NamedAt, Tracks, Connected;
      found := FindEntry(file, filename, text, chain);
      j := LookupOnDisk(vol, chain, text);
    }

    /** The search, against the list of parsed entries. */
    method FindEntry(file: File, filename: seq<Byte>, ghost text: seq<Byte>, ghost chain: seq<Word>) returns (found: bool)
      requires buffer.Length == SECTOR_SIZE && vol.perCluster > 0
      requires IsChain(vol, vol.root, chain) && CString(filename, text, 0)
      modifies this`readCount, buffer, file
      ensures !initialized ==> !found
      ensures var hit := Lookup(Entries(vol, chain), FromString(text));
        && (found ==>
              && hit.Some? && file.valid && file.size == hit.value.size && file.attr == hit.value.attr
              && file.first == file.current == hit.value.firstCluster && file.position == 0)
        && (!found && initialized ==> hit == None || !AllGood(fails, old(readCount), readCount))
      ensures !found ==> unchanged(file)
      ensures found ==> forall chain' :: IsChain(vol, file.first, chain') ==>
        Tracks(file, chain') && Connected(vol, chain', file.current, 0)
    {
      hide Lookup, Entries, ClusterEntries, IsChain, Next, CString, FromString;
      if !initialized {
        return false;
      }
      var name := StringToName(filename, text);
      ghost var all, k := Entries(vol, chain), 0;
      var cluster := vol.root;
      ChainBegin(vol, vol.root, chain);
      assert chain[0..] == chain;
      while cluster < CLUSTER_EOC
        invariant 0 <= k <= |chain| && old(readCount) <= readCount && unchanged(file)
        invariant cluster < CLUSTER_EOC ==> k < |chain| && cluster == chain[k]
        invariant AllGood(fails, old(readCount), readCount) && cluster >= CLUSTER_EOC ==> k == |chain|
        invariant Lookup(all, name) == Lookup(Entries(vol, chain[k..]), name)
        decreases |chain| - k
      {
        ghost var mid := readCount;
        EntriesUnfold(vol, chain, k);
        var hit, outcome := SearchCluster(cluster, name, Entries(vol, chain[k + 1..]));
        GoodParts(fails, old(readCount), mid, readCount);
        if hit.Some? {
          Fill(file, hit.value);
          return true;
        }
        if outcome != Continue {
          return false;
        }
        ChainStep(vol, vol.root, chain, k);
        mid := readCount;
        cluster := GetNextCluster(cluster);
        GoodParts(fails, old(readCount), mid, readCount);
        k := k + 1;
      }
      LookupEmpty(vol, chain, name);
      return false;
    }

    method Fill(file: File, e: Entry)
      requires vol.perCluster > 0
      modifies file
      ensures file.valid && file.size == e.size && file.attr == e.attr
      ensures file.first == file.current == e.firstCluster && file.position == 0
      ensures forall chain :: IsChain(vol, file.first, chain) ==> Tracks(file, chain) && Connected(vol, chain, file.current, 0)
    {
      file.first := e.firstCluster;
      file.current := file.first;
      file.size := e.size;
      file.position := 0;
      file.attr := e.attr;
      file.valid := true;
      forall chain | IsChain(vol, file.first, chain)
        ensures Tracks(file, chain) && Connected(vol, chain, file.current, 0)
      {
        Fresh(vol, chain, file.first);
      }
    }
  }

  /** A position at the start of a chain. */
  lemma Fresh(v: Volume, chain: seq<Word>, first: Word)
    requires IsChain(v, first, chain) && v.perCluster > 0
    ensures Follows(v, chain, first, 0) && Connected(v, chain, first, 0)
  {
    if first < CLUSTER_EOC {
      StartOf(v, chain, 0);
    }
  }

  lemma LookupStep(e: Entry, rest: seq<Entry>, name: Name)
    ensures EndMarker(e) ==> Lookup([e] + rest, name) == None
    ensures !EndMarker(e) && Eligible(e) && Strncmp(e.name, name, 11) == 0 ==> Lookup([e] + rest, name) == Some(e)
    ensures !EndMarker(e) && !(Eligible(e) && Strncmp(e.name, name, 11) == 0) ==> Lookup([e] + rest, name) == Lookup(rest, name)
  {
    hide Strncmp;
    var es := [e] + rest;
    assert es[0] == e && es[1..] == rest;
  }

  lemma LookupEmpty(v: Volume, chain: seq<Word>, name: Name)
    ensures Lookup(Entries(v, chain[|chain|..]), name) == None
  {
  }

  datatype Outcome = Continue | Ended | Failed

  lemma RunUnfold(v: Volume, first: nat, count: nat, more: seq<Entry>)
    ensures count == 0 ==> RunEntries(v, first, count) + more == more
    ensures count > 0 ==>
      RunEntries(v, first, count) + more == SectorEntries(v.SectorAt(first)) + (RunEntries(v, first + 1, count - 1) + more)
  {
    hide SectorEntries;
    if count == 0 {
      assert [] + more == more;
    } else {
      var s, r := SectorEntries(v.SectorAt(first)), RunEntries(v, first + 1, count - 1);
      assert s + r + more == s + (r + more);
    }
  }

  lemma EntriesUnfold(v: Volume, chain: seq<Word>, k: nat)
    requires k < |chain|
    ensures Entries(v, chain[k..]) == ClusterEntries(v, chain[k]) + Entries(v, chain[k + 1..])
  {
    assert chain[k..][1..] == chain[k + 1..];
  }

  lemma EntriesEmpty(v: Volume, chain: seq<Word>)
    ensures VisibleInfos(Entries(v, chain[|chain|..])) == []
  {
  }

  lemma ChainBegin(v: Volume, first: Word, chain: seq<Word>)
    requires IsChain(v, first, chain)
    ensures first < CLUSTER_EOC ==> chain != [] && chain[0] == first
    ensures first >= CLUSTER_EOC ==> chain == []
  {
  }

  lemma PrefixShown(v: Volume, chain: seq<Word>, js: seq<nat>, infos: seq<Info>)
    requires infos <= VisibleInfos(Entries(v, chain)) && |js| == |VisibleInfos(Entries(v, chain))|
    requires forall k :: 0 <= k < |js| ==> ShownAs(v, chain, js[k], VisibleInfos(Entries(v, chain))[k])
    ensures |infos| <= |js| && forall k :: 0 <= k < |infos| ==> ShownAs(v, chain, js[k], infos[k])
  {
    hide ShownAs, VisibleInfos, Entries;
  }

  lemma ListBegin(all: seq<Entry>, max: nat)
    ensures Listing(all, all, [], max)
  {
    assert [] + VisibleInfos(all) == VisibleInfos(all);
  }

  lemma ListComplete(all: seq<Entry>, infos: seq<Info>, max: nat)
    requires infos == VisibleInfos(all) && |infos| < max
    ensures infos == VisibleInfos(all)[..Least(max, |VisibleInfos(all)|)]
  {
  }

  lemma ListEnd(all: seq<Entry>, rest: seq<Entry>, infos: seq<Info>, max: nat)
    requires Listing(all, rest, infos, max)
    ensures |infos| <= max && infos <= VisibleInfos(all)
    ensures |infos| >= max || VisibleInfos(rest) == [] ==> infos == VisibleInfos(all)[..Least(max, |VisibleInfos(all)|)]
  {
  }

  function Sum(sizes: seq<Word>): nat {
    if sizes == [] then 0 else Sum(sizes[..|sizes| - 1]) + sizes[|sizes| - 1]
  }

  lemma SumNone()
    ensures Sum([]) == 0
  {
  }

  lemma SumSnoc(sizes: seq<Word>, i: nat)
    requires i < |sizes|
    ensures Sum(sizes[..i + 1]) == Sum(sizes[..i]) + sizes[i]
  {
    assert sizes[..i + 1][..i] == sizes[..i];
  }

  lemma Joined(data: seq<Byte>, p: nat, q: nat, r: nat)
    requires p <= q <= r <= |data|
    ensures data[p..q] + data[q..r] == data[p..r]
  {
  }

  /** A listing in progress: `rest` is still to be scanned. */
  ghost predicate Listing(all: seq<Entry>, rest: seq<Entry>, infos: seq<Info>, max: nat) {
    && |infos| <= max && infos <= VisibleInfos(all)
    && (|infos| < max ==> VisibleInfos(all) == infos + VisibleInfos(rest))
  }

  lemma ListStep(all: seq<Entry>, e: Entry, rest: seq<Entry>, infos: seq<Info>, max: nat)
    requires Listing(all, [e] + rest, infos, max) && |infos| < max
    ensures EndMarker(e) ==> VisibleInfos(all) == infos
    ensures !EndMarker(e) ==> Listing(all, rest, if Visible(e) then infos + [InfoOf(e)] else infos, max)
  {
    var es := [e] + rest;
    assert es[0] == e && es[1..] == rest;
    if EndMarker(e) {
      assert infos + [] == infos;
    } else if Visible(e) {
      assert infos + ([InfoOf(e)] + VisibleInfos(rest)) == infos + [InfoOf(e)] + VisibleInfos(rest);
    } else {
      assert [] + VisibleInfos(rest) == VisibleInfos(rest);
    }
  }

  lemma ListDone(all: seq<Entry>, left: seq<Entry>, more: seq<Entry>, infos: seq<Info>, max: nat)
    requires Listing(all, left + more, infos, max) && (left == [] || |infos| >= max)
    ensures Listing(all, more, infos, max)
  {
    if left == [] {
      assert left + more == more;
    }
  }

  /** Two pieces delivered in a row. */
  lemma Append(before: seq<Byte>, after: seq<Byte>, data: seq<Byte>, p: nat, done: nat, n: nat)
    requires |before| == |after| && done + n <= |before| && p + done + n <= |data|
    requires before[..done] == data[p..p + done]
    requires after[..done] == before[..done] && after[done..done + n] == data[p + done..p + done + n]
    requires after[done + n..] == before[done + n..]
    ensures after[..done + n] == data[p..p + done + n]
    ensures after[done + n..] == before[done..][n..]
  {
    assert after[..done + n] == after[..done] + after[done..done + n];
    assert data[p..p + done + n] == data[p..p + done] + data[p + done..p + done + n];
  }

  lemma GoodParts(fails: nat -> bool, a: nat, b: nat, c: nat)
    requires a <= b <= c
    ensures AllGood(fails, a, c) <==> AllGood(fails, a, b) && AllGood(fails, b, c)
  {
  }

  lemma SameSlice(x: seq<Byte>, y: seq<Byte>, a: nat, n: nat)
    requires x == y && a + n <= |x|
    ensures x[a..a + n] == y[a..a + n]
  {
  }

  lemma ChainStep(v: Volume, first: Word, chain: seq<Word>, k: nat)
    requires IsChain(v, first, chain) && k < |chain|
    ensures Next(v, chain[k]) == (if k + 1 < |chain| then chain[k + 1] else CLUSTER_EOC)
    ensures chain[k] < CLUSTER_EOC && (k + 1 < |chain| ==> chain[k + 1] < CLUSTER_EOC)
  {
    assert Next(v, chain[k]) == After(chain, k);
  }

  lemma StartOf(v: Volume, chain: seq<Word>, k: nat)
    requires k < |chain| && v.ClusterSize() > 0
    ensures At(v, chain, Offset(v, k), k, 0)
  {
  }

  /** Bytes of sector number `i` of a cluster, from offset `r` of the sector. */
  lemma PieceOf(v: Volume, chain: seq<Word>, k: nat, i: nat, r: nat, n: nat)
    requires k < |chain| && i < v.perCluster && r + n <= SECTOR_SIZE
    ensures Offset(v, k) + i * SECTOR_SIZE + r + n <= Offset(v, |chain|)
    ensures var p := Offset(v, k) + i * SECTOR_SIZE + r;
      ChainData(v, chain)[p..p + n] == v.SectorAt(FirstSector(v, chain[k]) + i)[r..r + n]
  {
    hide ChainData, Volume.SectorAt, FirstSector, Offset, Volume.ClusterSize;
    ChainSector(v, chain, k, i);
    var a := Offset(v, k) + i * SECTOR_SIZE;
    PieceAt(ChainData(v, chain), v.SectorAt(FirstSector(v, chain[k]) + i), a, r, n, a + r);
  }

  lemma PieceAt(d: seq<Byte>, s: seq<Byte>, a: nat, r: nat, n: nat, p: nat)
    requires a + |s| <= |d| && d[a..a + |s|] == s && r + n <= |s| && p == a + r
    ensures d[p..p + n] == s[r..r + n]
  {
    SubSlice(d, s, s[r..r + n], a, r);
  }

  lemma SectorOf(v: Volume, o: nat)
    requires o < v.ClusterSize()
    ensures o / SECTOR_SIZE < v.perCluster && o == o / SECTOR_SIZE * SECTOR_SIZE + o % SECTOR_SIZE
  {
  }

  /** Where the position stands after `n` more bytes of cluster `k`. */
  lemma Advance(v: Volume, chain: seq<Word>, k: nat, o: nat, n: nat)
    requires k < |chain| && 0 < n && o + n <= v.ClusterSize()
    ensures var p := Offset(v, k) + o + n;
      if o + n == v.ClusterSize() then p == Offset(v, k + 1) && Rem(p, v.ClusterSize()) == 0
      else Rem(p, v.ClusterSize()) != 0 && At(v, chain, p, k, o + n)
  {
    if o + n == v.ClusterSize() {
      OffsetMod(v, k + 1, 0);
    } else {
      OffsetMod(v, k, o + n);
    }
  }
}
