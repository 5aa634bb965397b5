/** Files, directories and the FAT read off the bytes of the disk: where each byte
    of a chain lies, what the 32 bytes of a directory entry mean, and what listing
    and lookup make of them. */
module Fat32Bytes {
  import opened Machine
  import opened FatNames
  import opened Fat32Spec

  // ---------- arithmetic of positions ----------

  lemma {:induction false} TimesAtLeast(m: nat, q: nat)
    requires q >= 1
    ensures m * q >= m
  {
    if q > 1 {
      TimesAtLeast(m, q - 1);
      assert m * q == m * (q - 1) + m;
    }
  }

  lemma ModUnique(p: nat, m: nat, q: nat, r: nat)
    requires p == m * q + r && r < m
    ensures p % m == r
  {
    var q', r' := p / m, p % m;
    assert p == m * q' + r' && 0 <= r' < m;
    if q' < q {
      TimesAtLeast(m, q - q');
      assert false;
    } else if q < q' {
      TimesAtLeast(m, q' - q);
      assert false;
    }
  }

  lemma {:induction false} OffsetIsMultiple(v: Volume, k: nat)
    ensures Offset(v, k) == v.ClusterSize() * k
  {
    if k > 0 {
      OffsetIsMultiple(v, k - 1);
      assert v.ClusterSize() * k == v.ClusterSize() * (k - 1) + v.ClusterSize();
    }
  }

  lemma DivUnique(p: nat, m: nat, q: nat, r: nat)
    requires p == m * q + r && r < m
    ensures p / m == q
  {
    ModUnique(p, m, q, r);
    var q' := p / m;
    assert p == m * q' + r;
    if q' < q {
      TimesAtLeast(m, q - q');
      assert false;
    } else if q < q' {
      TimesAtLeast(m, q' - q);
      assert false;
    }
  }

  /** The number four bytes stand for, the first counting least. */
  function Number(a: Byte, b: Byte, c: Byte, d: Byte): Word {
    a + 256 * (b + 256 * (c + 256 * d))
  }

  // ---------- the bytes of a chain ----------

  /** Byte `p` of what the clusters of `chain` hold: cluster number 2 is the first of
      the data area, and what is said to lie in a cluster below 2 is read from the
      start of the disk. */
  function DiskByte(v: Volume, chain: seq<Word>, p: nat): Byte {
    if v.perCluster == 0 || p / (v.perCluster * 512) >= |chain| then 0
    else
      var cluster := chain[p / (v.perCluster * 512)];
      var first := if cluster < 2 then 0 else v.dataStart + (cluster - 2) * v.perCluster;
      v.disk(first + p % (v.perCluster * 512) / 512)[p % 512]
  }

  lemma DiskByteAt(v: Volume, chain: seq<Word>, k: nat, i: nat, o: nat)
    requires k < |chain| && i < v.perCluster && o < 512
    ensures DiskByte(v, chain, v.ClusterSize() * k + i * 512 + o) == v.SectorAt(FirstSector(v, chain[k]) + i)[o]
  {
    hide FirstSector;
    var size := v.ClusterSize();
    var p := size * k + i * 512 + o;
    SectorInCluster(v, i);
    DivUnique(p, size, k, i * 512 + o);
    ModUnique(p, size, k, i * 512 + o);
    SplitSector(v.perCluster, k, i, o);
    FirstSectorIs(v, chain[k]);
  }

  lemma FirstSectorIs(v: Volume, cluster: Word)
    ensures FirstSector(v, cluster) == if cluster < 2 then 0 else v.dataStart + (cluster - 2) * v.perCluster
  {
  }

  lemma SplitSector(per: nat, k: nat, i: nat, o: nat)
    requires o < 512
    ensures (per * 512 * k + i * 512 + o) % 512 == o && (i * 512 + o) / 512 == i
  {
    assert per * 512 * k + i * 512 + o == 512 * (per * k + i) + o;
    ModUnique(per * 512 * k + i * 512 + o, 512, per * k + i, o);
  }

  /** Every byte of a chain's contents is the disk's byte at its place. */
  lemma FileByte(v: Volume, chain: seq<Word>, p: nat)
    requires p < |ChainData(v, chain)|
    ensures ChainData(v, chain)[p] == DiskByte(v, chain, p)
  {
    hide ChainData, FirstSector, DiskByte;
    var k, i, o := PlaceOf(v, chain, p);
    OffsetIsMultiple(v, k);
    ChainSector(v, chain, k, i);
    DiskByteAt(v, chain, k, i, o);
    var q := Offset(v, k) + i * SECTOR_SIZE;
    assert ChainData(v, chain)[q..q + SECTOR_SIZE][o] == ChainData(v, chain)[q + o];
  }

  /** `bytes` are the disk's bytes from position `p` of the chain on. */
  predicate Delivered(v: Volume, chain: seq<Word>, p: nat, bytes: seq<Byte>) {
    forall i: nat :: i < |bytes| ==> bytes[i] == DiskByte(v, chain, p + i)
  }

  lemma SliceDelivered(v: Volume, chain: seq<Word>, p: nat, q: nat)
    requires p <= q <= |ChainData(v, chain)|
    ensures Delivered(v, chain, p, ChainData(v, chain)[p..q])
  {
    hide ChainData, DiskByte;
    forall i: nat | i < q - p
      ensures ChainData(v, chain)[p..q][i] == DiskByte(v, chain, p + i)
    {
      FileByte(v, chain, p + i);
    }
  }

  /** The cluster, sector and offset of a position. */
  lemma PlaceOf(v: Volume, chain: seq<Word>, p: nat) returns (k: nat, i: nat, o: nat)
    requires p < Offset(v, |chain|)
    ensures k < |chain| && i < v.perCluster && o < 512 && p == v.ClusterSize() * k + i * 512 + o
  {
    OffsetIsMultiple(v, |chain|);
    var size := v.ClusterSize();
    k := Quotient(p, size, |chain|);
    var rest := p - size * k;
    i, o := rest / 512, rest % 512;
  }

  lemma TimesMonotone(m: nat, a: nat, b: nat)
    requires a <= b
    ensures m * a <= m * b
  {
  }

  // ---------- the FAT ----------

  /** Byte `n` of the FAT. */
  function FatByte(v: Volume, n: nat): Byte {
    v.disk(v.fatStart + n / 512)[n % 512]
  }

  /** The cluster after `c`: the low 28 bits of bytes 4c to 4c + 3, or the end mark. */
  function Successor(v: Volume, c: Word): Word {
    if c < 2 || c >= 0x0FFF_FFF0 then 0x0FFF_FFF8
    else
      var w := Number(FatByte(v, 4 * c), FatByte(v, 4 * c + 1), FatByte(v, 4 * c + 2), FatByte(v, 4 * c + 3) % 16);
      if w >= 0x0FFF_FFF8 then 0x0FFF_FFF8 else w
  }

  lemma FatBytes(v: Volume, c: Word, i: nat)
    requires i < 4
    ensures var at := c * 4 % SECTOR_SIZE / 4 * 4;
      at + 4 <= 512 && FatByte(v, 4 * c + i) == v.SectorAt(v.fatStart + c * 4 / SECTOR_SIZE)[at + i]
  {
    FatPlace(c, i);
  }

  lemma FatPlace(c: nat, i: nat)
    requires i < 4
    ensures (4 * c + i) / 512 == c * 4 / 512 && c * 4 % 512 / 4 * 4 + 4 <= 512
    ensures (4 * c + i) % 512 == c * 4 % 512 / 4 * 4 + i
  {
    var q, r := c / 128, c % 128;
    DivUnique(4 * c + i, 512, q, 4 * r + i);
    ModUnique(4 * c + i, 512, q, 4 * r + i);
    DivUnique(c * 4, 512, q, 4 * r);
    ModUnique(c * 4, 512, q, 4 * r);
  }

  lemma Low28(a: Byte, b: Byte, c: Byte, d: Byte)
    ensures Number(a, b, c, d) % (CLUSTER_MASK + 1) == Number(a, b, c, d % 16)
  {
    ModUnique(Number(a, b, c, d), 0x1000_0000, d / 16, Number(a, b, c, d % 16));
  }

  lemma FatEntryIs(v: Volume, c: Word)
    ensures FatEntry(v, c) == Number(FatByte(v, 4 * c), FatByte(v, 4 * c + 1), FatByte(v, 4 * c + 2), FatByte(v, 4 * c + 3) % 16)
  {
    FatBytes(v, c, 0);
    FatBytes(v, c, 1);
    FatBytes(v, c, 2);
    FatBytes(v, c, 3);
    var s, at := v.SectorAt(v.fatStart + c * 4 / SECTOR_SIZE), c * 4 % SECTOR_SIZE / 4 * 4;
    hide FatByte, Volume.SectorAt;
    Low28(s[at], s[at + 1], s[at + 2], s[at + 3]);
    Le32Is(s, at);
    hide Number, Le32;
  }

  lemma Le32Is(b: seq<Byte>, i: nat)
    requires i + 4 <= |b|
    ensures Le32(b, i) == Number(b[i], b[i + 1], b[i + 2], b[i + 3])
  {
  }

  lemma NextIsSuccessor(v: Volume, c: Word)
    ensures Next(v, c) == Successor(v, c)
  {
    FatEntryIs(v, c);
    hide FatByte, FatEntry, Number;
  }

  /** Place `i` of a chain is a cluster, and the FAT leads from it to the next place
      or to the end. */
  predicate LinkedAt(v: Volume, chain: seq<Word>, i: nat)
    requires i < |chain|
  {
    && chain[i] < 0x0FFF_FFF8
    && Successor(v, chain[i]) == if i + 1 < |chain| then chain[i + 1] else 0x0FFF_FFF8
  }

  /** A chain is exactly what following the FAT from its first cluster visits. */
  lemma ChainIff(v: Volume, first: Word, chain: seq<Word>)
    ensures IsChain(v, first, chain) <==>
      && (if chain == [] then first >= 0x0FFF_FFF8 else chain[0] == first)
      && forall i: nat :: i < |chain| ==> LinkedAt(v, chain, i)
  {
    hide Next, Successor;
    forall i: nat | i < |chain|
      ensures LinkedAt(v, chain, i) <==> chain[i] < CLUSTER_EOC && Next(v, chain[i]) == After(chain, i)
    {
      NextIsSuccessor(v, chain[i]);
    }
    if IsChain(v, first, chain) {
      assert forall i: nat :: i < |chain| ==> chain[i] < CLUSTER_EOC && Next(v, chain[i]) == After(chain, i);
    }
    if forall i: nat :: i < |chain| ==> LinkedAt(v, chain, i) {
      assert forall i :: 0 <= i < |chain| ==> Next(v, chain[i]) == After(chain, i);
    }
  }

  // ---------- directory entries ----------

  /** Entries a directory has room for. */
  function Capacity(v: Volume, chain: seq<Word>): nat {
    v.perCluster * 16 * |chain|
  }

  /** Byte `i` of directory entry number `j`. */
  function EntryByte(v: Volume, chain: seq<Word>, j: nat, i: nat): Byte {
    DiskByte(v, chain, 32 * j + i)
  }

  /** Bytes 20-21 and 26-27 of the entry: the halves of the first cluster's number. */
  function FirstClusterOf(v: Volume, chain: seq<Word>, j: nat): Word {
    Number(EntryByte(v, chain, j, 26), EntryByte(v, chain, j, 27), EntryByte(v, chain, j, 20), EntryByte(v, chain, j, 21))
  }

  /** Bytes 28-31: the size of the file. */
  function SizeOf(v: Volume, chain: seq<Word>, j: nat): Word {
    Number(EntryByte(v, chain, j, 28), EntryByte(v, chain, j, 29), EntryByte(v, chain, j, 30), EntryByte(v, chain, j, 31))
  }

  predicate Stored(v: Volume, chain: seq<Word>, j: nat, e: Entry) {
    && (forall i: nat :: i < 11 ==> e.name[i] == EntryByte(v, chain, j, i))
    && e.attr == EntryByte(v, chain, j, 11)
    && e.firstCluster == FirstClusterOf(v, chain, j) && e.size == SizeOf(v, chain, j)
  }

  lemma {:induction false} RunEntryAt(v: Volume, first: nat, count: nat, i: nat, e: nat)
    requires i < count && e < 16
    ensures |RunEntries(v, first, count)| == 16 * count
    ensures RunEntries(v, first, count)[16 * i + e] == SectorEntries(v.SectorAt(first + i))[e]
    decreases count
  {
    hide SectorEntries;
    RunEntriesSize(v, first + 1, count - 1);
    if i > 0 {
      RunEntryAt(v, first + 1, count - 1, i - 1, e);
    }
  }

  lemma {:induction false} RunEntriesSize(v: Volume, first: nat, count: nat)
    ensures |RunEntries(v, first, count)| == 16 * count
    decreases count
  {
    hide SectorEntries;
    if count > 0 {
      RunEntriesSize(v, first + 1, count - 1);
    }
  }

  lemma {:induction false} EntriesSize(v: Volume, chain: seq<Word>)
    ensures |Entries(v, chain)| == Capacity(v, chain)
  {
    hide RunEntries;
    if chain != [] {
      RunEntriesSize(v, FirstSector(v, chain[0]), v.perCluster);
      EntriesSize(v, chain[1..]);
      OneMore(v.perCluster * 16, |chain|);
    }
  }

  lemma OneMore(m: nat, k: nat)
    requires k > 0
    ensures m * k == m + m * (k - 1)
  {
  }

  lemma {:induction false} ChainEntryAt(v: Volume, chain: seq<Word>, k: nat, m: nat)
    requires k < |chain| && m < v.perCluster * 16
    ensures v.perCluster * 16 * k + m < |Entries(v, chain)|
    ensures |ClusterEntries(v, chain[k])| == v.perCluster * 16
    ensures Entries(v, chain)[v.perCluster * 16 * k + m] == ClusterEntries(v, chain[k])[m]
  {
    hide RunEntries, FirstSector;
    var per := v.perCluster * 16;
    RunEntriesSize(v, FirstSector(v, chain[0]), v.perCluster);
    if k > 0 {
      OneMore(per, k);
      ChainEntryAt(v, chain[1..], k - 1, m);
    }
  }

  /** The fields of an entry in a sector are its 32 bytes. */
  lemma ParsedBytes(s: Sector, e: nat)
    requires e < 16
    ensures var r := SectorEntries(s)[e]; var at := 32 * e;
      && (forall i: nat :: i < 11 ==> r.name[i] == s[at + i]) && r.attr == s[at + 11]
      && r.firstCluster == Number(s[at + 26], s[at + 27], s[at + 20], s[at + 21])
      && r.size == Number(s[at + 28], s[at + 29], s[at + 30], s[at + 31])
  {
    var b := s[32 * e..32 * e + 32];
    assert forall i: nat :: i < 32 ==> b[i] == s[32 * e + i];
    assert SectorEntries(s)[e] == ParseEntry(b);
    assert forall i: nat :: i < 11 ==> b[..11][i] == b[i];
  }

  /** Entry number `j` of a directory is what its 32 bytes on the disk say. */
  lemma EntryStored(v: Volume, chain: seq<Word>, j: nat)
    requires j < Capacity(v, chain)
    ensures |Entries(v, chain)| == Capacity(v, chain) && Stored(v, chain, j, Entries(v, chain)[j])
  {
    hide Entries, RunEntries, FirstSector, SectorEntries, DiskByte, Volume.SectorAt;
    var k, i, e := EntryPlace(v, chain, j);
    EntriesSize(v, chain);
    ChainEntryAt(v, chain, k, 16 * i + e);
    RunEntryAt(v, FirstSector(v, chain[k]), v.perCluster, i, e);
    var s := v.SectorAt(FirstSector(v, chain[k]) + i);
    ParsedBytes(s, e);
    forall b: nat | b < 32
      ensures EntryByte(v, chain, j, b) == s[32 * e + b]
    {
      DiskByteAt(v, chain, k, i, 32 * e + b);
      assert 32 * j + b == v.ClusterSize() * k + i * 512 + (32 * e + b);
    }
    hide EntryByte;
    FieldsStored(v, chain, j, s, e, Entries(v, chain)[j]);
  }

  lemma FieldsStored(v: Volume, chain: seq<Word>, j: nat, s: Sector, e: nat, r: Entry)
    requires e < 16 && forall b: nat :: b < 32 ==> EntryByte(v, chain, j, b) == s[32 * e + b]
    requires var at := 32 * e;
      && (forall i: nat :: i < 11 ==> r.name[i] == s[at + i]) && r.attr == s[at + 11]
      && r.firstCluster == Number(s[at + 26], s[at + 27], s[at + 20], s[at + 21])
      && r.size == Number(s[at + 28], s[at + 29], s[at + 30], s[at + 31])
    ensures Stored(v, chain, j, r)
  {
    hide EntryByte;
  }

  /** The cluster, sector and index in the sector of an entry. */
  lemma EntryPlace(v: Volume, chain: seq<Word>, j: nat) returns (k: nat, i: nat, e: nat)
    requires j < Capacity(v, chain)
    ensures k < |chain| && i < v.perCluster && e < 16
    ensures j == v.perCluster * 16 * k + (16 * i + e) && 32 * j == v.ClusterSize() * k + i * 512 + 32 * e
  {
    var per := v.perCluster * 16;
    k := Quotient(j, per, |chain|);
    var rest := j - per * k;
    i, e := rest / 16, rest % 16;
    Scaled(v.perCluster, k);
  }

  lemma Quotient(j: nat, per: nat, n: nat) returns (k: nat)
    requires j < per * n
    ensures k < n && per * k <= j < per * k + per
  {
    if per == 0 {
      assert false;
    }
    k := j / per;
    if k >= n {
      TimesMonotone(per, n, k);
      assert false;
    }
  }

  lemma Scaled(c: nat, k: nat)
    ensures 32 * (c * 16 * k) == c * 512 * k
  {
  }

  // ---------- listings ----------

  /** Entry `j` exists and neither it nor an earlier one starts with byte 0. */
  predicate Reached(v: Volume, chain: seq<Word>, j: nat) {
    j < Capacity(v, chain) && forall i: nat :: i <= j ==> EntryByte(v, chain, i, 0) != 0
  }

  /** Entry `j` is in use: not deleted and no part of a long name. */
  predicate InUse(v: Volume, chain: seq<Word>, j: nat) {
    Reached(v, chain, j) && EntryByte(v, chain, j, 0) != 0xE5 && EntryByte(v, chain, j, 11) != 0x0F
  }

  /** A listing shows it too when it is no volume label. */
  predicate Shown(v: Volume, chain: seq<Word>, j: nat) {
    InUse(v, chain, j) && EntryByte(v, chain, j, 11) / 8 % 2 == 0
  }

  function NameBytes(v: Volume, chain: seq<Word>, j: nat): Name {
    seq(11, i requires 0 <= i < 11 => EntryByte(v, chain, j, i))
  }

  /** What a listing says of entry `j`. */
  predicate ShownAs(v: Volume, chain: seq<Word>, j: nat, info: Info) {
    && info.name == ToString(NameBytes(v, chain, j)) && info.size == SizeOf(v, chain, j)
    && (info.isDirectory <==> EntryByte(v, chain, j, 11) / 16 % 2 == 1)
  }

  predicate Increasing(js: seq<nat>) {
    forall a, b :: 0 <= a < b < |js| ==> js[a] < js[b]
  }

  /** `js` are the shown entries, each once and in order. */
  ghost predicate AllShown(v: Volume, chain: seq<Word>, js: seq<nat>) {
    Increasing(js) && forall j: nat :: j in js <==> Shown(v, chain, j)
  }

  predicate VisibleAt(es: seq<Entry>, j: nat) {
    BeforeEnd(es, j) && Visible(es[j])
  }

  /** The visible entries from number `i` on, by index. */
  function VisibleFrom(es: seq<Entry>, i: nat): seq<nat>
    decreases |es| - i
  {
    if i >= |es| || EndMarker(es[i]) then []
    else (if Visible(es[i]) then [i] else []) + VisibleFrom(es, i + 1)
  }

  /** No end marker from entry `i` to entry `j`. */
  predicate OpenFrom(es: seq<Entry>, i: nat, j: nat) {
    i <= j < |es| && forall t :: i <= t <= j ==> !EndMarker(es[t])
  }

  lemma OpenStep(es: seq<Entry>, i: nat, j: nat)
    requires i < |es|
    ensures OpenFrom(es, i, j) <==> !EndMarker(es[i]) && (j == i || OpenFrom(es, i + 1, j))
  {
    hide EndMarker;
  }

  lemma {:induction false} FromMembers(es: seq<Entry>, i: nat, j: nat)
    ensures j in VisibleFrom(es, i) <==> OpenFrom(es, i, j) && Visible(es[j])
    decreases |es| - i
  {
    hide EndMarker, Visible;
    if i < |es| {
      OpenStep(es, i, j);
      if !EndMarker(es[i]) {
        FromMembers(es, i + 1, j);
        MembersStep(es, i, j);
        NotBefore(es, i, j);
        hide VisibleFrom;
      }
    }
  }

  lemma MembersStep(es: seq<Entry>, i: nat, j: nat)
    requires i < |es| && !EndMarker(es[i])
    ensures j in VisibleFrom(es, i) <==> (Visible(es[i]) && j == i) || j in VisibleFrom(es, i + 1)
  {
    hide EndMarker, Visible;
  }

  lemma NotBefore(es: seq<Entry>, i: nat, j: nat)
    ensures OpenFrom(es, i + 1, j) ==> j != i
  {
  }

  lemma {:induction false} FromIncreasing(es: seq<Entry>, i: nat)
    ensures Increasing(VisibleFrom(es, i)) && forall k :: 0 <= k < |VisibleFrom(es, i)| ==> i <= VisibleFrom(es, i)[k]
    decreases |es| - i
  {
    hide EndMarker, Visible;
    if i < |es| && !EndMarker(es[i]) {
      var rest := VisibleFrom(es, i + 1);
      FromIncreasing(es, i + 1);
      if Visible(es[i]) {
        assert VisibleFrom(es, i) == [i] + rest;
        hide VisibleFrom;
        LowerFirst(i, rest);
      } else {
        assert VisibleFrom(es, i) == rest;
      }
    }
  }

  lemma LowerFirst(i: nat, ks: seq<nat>)
    requires Increasing(ks) && forall k :: 0 <= k < |ks| ==> i < ks[k]
    ensures Increasing([i] + ks) && forall k :: 0 <= k < |[i] + ks| ==> i <= ([i] + ks)[k]
  {
    var all := [i] + ks;
    forall a, b | 0 <= a < b < |all|
      ensures all[a] < all[b]
    {
      assert all[b] == ks[b - 1];
      assert a > 0 ==> all[a] == ks[a - 1];
    }
  }

  /** Item `k` of the listing of the entries from number `i` on describes entry `j`. */
  predicate MadeFrom(es: seq<Entry>, i: nat, k: nat, j: nat) {
    i <= |es| && j < |es| && k < |VisibleInfos(es[i..])| && VisibleInfos(es[i..])[k] == InfoOf(es[j])
  }

  lemma VisibleInfosStep(es: seq<Entry>, i: nat)
    requires i < |es| && !EndMarker(es[i])
    ensures VisibleInfos(es[i..]) == (if Visible(es[i]) then [InfoOf(es[i])] else []) + VisibleInfos(es[i + 1..])
  {
    hide Visible, InfoOf, EndMarker;
    assert es[i..][1..] == es[i + 1..] && es[i..][0] == es[i];
  }

  lemma {:induction false} FromInfos(es: seq<Entry>, i: nat)
    requires i <= |es|
    ensures |VisibleFrom(es, i)| == |VisibleInfos(es[i..])|
    ensures forall k :: 0 <= k < |VisibleFrom(es, i)| ==> MadeFrom(es, i, k, VisibleFrom(es, i)[k])
    decreases |es| - i
  {
    hide Visible, InfoOf, EndMarker;
    if i < |es| && !EndMarker(es[i]) {
      FromInfos(es, i + 1);
      VisibleInfosStep(es, i);
      var js, d := VisibleFrom(es, i), if Visible(es[i]) then 1 else 0;
      hide VisibleInfos;
      forall k | 0 <= k < |js|
        ensures MadeFrom(es, i, k, js[k])
      {
        assert k >= d ==> MadeFrom(es, i + 1, k - d, VisibleFrom(es, i + 1)[k - d]);
      }
    }
  }

  lemma BeforeEndInside(es: seq<Entry>, j: nat)
    ensures BeforeEnd(es, j) ==> j < |es|
  {
  }

  lemma BeforeEndTail(es: seq<Entry>, j: nat)
    requires es != [] && !EndMarker(es[0]) && j > 0
    ensures BeforeEnd(es, j) <==> BeforeEnd(es[1..], j - 1)
    ensures j < |es| ==> es[1..][j - 1] == es[j]
  {
    hide EndMarker;
    if BeforeEnd(es[1..], j - 1) {
      forall i | 0 <= i <= j
        ensures !EndMarker(es[i])
      {
        assert i > 0 ==> es[i] == es[1..][i - 1];
      }
    }
  }

  /** The tests on a parsed entry are tests on its bytes. */
  lemma EntryTests(v: Volume, chain: seq<Word>, j: nat)
    requires j < Capacity(v, chain)
    ensures var es := Entries(v, chain);
      && |es| == Capacity(v, chain) && es[j].name == NameBytes(v, chain, j)
      && (EndMarker(es[j]) <==> EntryByte(v, chain, j, 0) == 0)
      && (Eligible(es[j]) <==> EntryByte(v, chain, j, 0) != 0xE5 && EntryByte(v, chain, j, 11) != 0x0F)
      && (Visible(es[j]) <==> Eligible(es[j]) && EntryByte(v, chain, j, 11) / 8 % 2 == 0)
      && ShownAs(v, chain, j, InfoOf(es[j]))
  {
    hide EntryByte, Entries, ToString;
    EntryStored(v, chain, j);
    assert Entries(v, chain)[j].name == NameBytes(v, chain, j);
  }

  lemma ReachedIs(v: Volume, chain: seq<Word>, j: nat)
    ensures |Entries(v, chain)| == Capacity(v, chain)
    ensures BeforeEnd(Entries(v, chain), j) <==> Reached(v, chain, j)
  {
    hide EntryByte, Entries, EndMarker, Capacity;
    EntriesSize(v, chain);
    if j < Capacity(v, chain) {
      forall i: nat | i <= j
        ensures EndMarker(Entries(v, chain)[i]) <==> EntryByte(v, chain, i, 0) == 0
      {
        EntryTests(v, chain, i);
      }
    }
  }

  /** A directory's listing describes exactly the shown entries, in order. */
  lemma ListingOnDisk(v: Volume, chain: seq<Word>) returns (js: seq<nat>)
    ensures AllShown(v, chain, js) && |js| == |VisibleInfos(Entries(v, chain))|
    ensures forall k :: 0 <= k < |js| ==> ShownAs(v, chain, js[k], VisibleInfos(Entries(v, chain))[k])
  {
    hide EntryByte, Entries, VisibleInfos, Visible, InfoOf, Reached, BeforeEnd, ShownAs, Capacity;
    var es := Entries(v, chain);
    js := VisibleFrom(es, 0);
    FromIncreasing(es, 0);
    FromInfos(es, 0);
    assert es[0..] == es;
    hide VisibleFrom, Increasing;
    forall j: nat
      ensures j in js <==> Shown(v, chain, j)
    {
      FromMembers(es, 0, j);
      VisibleAtIs(es, j);
      ShownIsVisible(v, chain, j);
    }
    forall k | 0 <= k < |js|
      ensures ShownAs(v, chain, js[k], VisibleInfos(es)[k])
    {
      EntriesSize(v, chain);
      assert MadeFrom(es, 0, k, js[k]);
      EntryTests(v, chain, js[k]);
    }
  }

  lemma VisibleAtIs(es: seq<Entry>, j: nat)
    ensures VisibleAt(es, j) <==> OpenFrom(es, 0, j) && Visible(es[j])
  {
    hide EndMarker, Visible;
  }

  lemma ShownIsVisible(v: Volume, chain: seq<Word>, j: nat)
    ensures Shown(v, chain, j) <==> VisibleAt(Entries(v, chain), j)
  {
    hide EntryByte, Entries, Visible, InfoOf, Reached, BeforeEnd, ShownAs, Capacity;
    ReachedIs(v, chain, j);
    if j < Capacity(v, chain) {
      EntryTests(v, chain, j);
    } else {
      NotReached(v, chain, j);
      BeforeEndInside(Entries(v, chain), j);
    }
  }

  lemma NotReached(v: Volume, chain: seq<Word>, j: nat)
    requires j >= Capacity(v, chain)
    ensures !Reached(v, chain, j)
  {
  }

  // ---------- lookup ----------

  /** Entry `j` is in use under the eleven bytes `name`. */
  predicate NamedAt(v: Volume, chain: seq<Word>, j: nat, name: Name) {
    InUse(v, chain, j) && forall i: nat :: i < 11 ==> EntryByte(v, chain, j, i) == name[i]
  }

  predicate FirstNamedAt(v: Volume, chain: seq<Word>, j: nat, name: Name) {
    NamedAt(v, chain, j, name) && forall i: nat :: i < j ==> !NamedAt(v, chain, i, name)
  }

  /** Entry `j` of a list is reached, in use and called `name`. */
  predicate Candidate(es: seq<Entry>, j: nat, name: Name) {
    BeforeEnd(es, j) && Eligible(es[j]) && es[j].name == name
  }

  /** What a lookup finds is the first candidate. */
  lemma {:induction false} LookupIsFirst(es: seq<Entry>, text: seq<Byte>) returns (f: nat)
    requires 0 !in text && Lookup(es, FromString(text)).Some?
    ensures Candidate(es, f, FromString(text)) && Lookup(es, FromString(text)) == Some(es[f])
    ensures forall i: nat :: i < f ==> !Candidate(es, i, FromString(text))
  {
    hide FromString, Eligible, EndMarker, Strncmp;
    var name := FromString(text);
    MatchIffEqual(es[0].name, text);
    if Eligible(es[0]) && es[0].name == name {
      f := 0;
    } else {
      var g := LookupIsFirst(es[1..], text);
      f := g + 1;
      BeforeEndTail(es, f);
      forall i: nat | i < f
        ensures !Candidate(es, i, name)
      {
        if i > 0 {
          BeforeEndTail(es, i);
          assert !Candidate(es[1..], i - 1, name);
        }
      }
    }
  }

  lemma {:induction false} LookupNone(es: seq<Entry>, text: seq<Byte>, j: nat)
    requires 0 !in text && Lookup(es, FromString(text)) == None
    ensures !Candidate(es, j, FromString(text))
  {
    hide FromString, Eligible, EndMarker, Strncmp;
    if es != [] && !EndMarker(es[0]) {
      MatchIffEqual(es[0].name, text);
      if j > 0 {
        BeforeEndTail(es, j);
        LookupNone(es[1..], text, j - 1);
      }
    }
  }

  lemma CandidateIs(v: Volume, chain: seq<Word>, j: nat, name: Name)
    ensures Candidate(Entries(v, chain), j, name) <==> NamedAt(v, chain, j, name)
  {
    hide EntryByte, Entries, Reached, BeforeEnd, Eligible, ShownAs, Capacity;
    ReachedIs(v, chain, j);
    if j < Capacity(v, chain) {
      EntryTests(v, chain, j);
      if NamedAt(v, chain, j, name) {
        assert NameBytes(v, chain, j) == name;
      }
    } else {
      NotReached(v, chain, j);
    }
  }

  /** A lookup finds the first entry in use under the converted text, with the fields
      its bytes give, and nothing exactly when there is none. */
  lemma LookupOnDisk(v: Volume, chain: seq<Word>, text: seq<Byte>) returns (j: nat)
    requires 0 !in text
    ensures var hit := Lookup(Entries(v, chain), FromString(text));
      if hit.Some? then FirstNamedAt(v, chain, j, FromString(text)) && Stored(v, chain, j, hit.value)
      else forall i: nat :: !NamedAt(v, chain, i, FromString(text))
  {
    hide Entries, FromString, Lookup, NamedAt, Candidate, Capacity, EntryByte, Stored;
    var es, name := Entries(v, chain), FromString(text);
    j := 0;
    if Lookup(es, name).Some? {
      j := LookupIsFirst(es, text);
      CandidateIs(v, chain, j, name);
      forall i: nat | i < j
        ensures !NamedAt(v, chain, i, name)
      {
        CandidateIs(v, chain, i, name);
      }
      EntriesSize(v, chain);
      CandidateInside(es, j, name);
      EntryStored(v, chain, j);
    } else {
      forall i: nat
        ensures !NamedAt(v, chain, i, name)
      {
        LookupNone(es, text, i);
        CandidateIs(v, chain, i, name);
      }
    }
  }

  lemma CandidateInside(es: seq<Entry>, j: nat, name: Name)
    requires Candidate(es, j, name)
    ensures j < |es|
  {
  }
}
