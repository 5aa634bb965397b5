/** A FAT32 volume as the driver sees it: sectors, cluster chains, the bytes and
    the directory entries along a chain. */
module Fat32Spec {
  import opened Machine
  import opened FatNames

  const SECTOR_SIZE := 512
  const CLUSTER_RESERVED := 0x0FFF_FFF0
  const CLUSTER_EOC := 0x0FFF_FFF8
  const CLUSTER_MASK := 0x0FFF_FFFF
  const ENTRY_SIZE := 32
  const ATTR_VOLUME_ID := 0x08
  const ATTR_DIRECTORY := 0x10
  const ATTR_LONG_NAME := 0x0F

  type Sector = s: seq<Byte> | |s| == SECTOR_SIZE witness seq(SECTOR_SIZE, _ => 0)

  /** The mounted volume: sector contents and the geometry from the boot sector. */
  datatype Volume = Volume(disk: nat -> Sector, fatStart: nat, dataStart: nat, perCluster: nat, root: Word) {
    function ClusterSize(): nat { perCluster * SECTOR_SIZE }

    function SectorAt(lba: nat): Sector { disk(lba) }
  }

  // ---------- chains ----------

  /** The FAT entry of a cluster: 128 entries a sector, the low 28 bits of each. */
  function FatEntry(v: Volume, cluster: Word): Word {
    Le32(v.SectorAt(v.fatStart + cluster * 4 / SECTOR_SIZE), cluster * 4 % SECTOR_SIZE / 4 * 4) % (CLUSTER_MASK + 1)
  }

  function Next(v: Volume, cluster: Word): (n: Word)
    ensures n <= CLUSTER_EOC
  {
    if cluster < 2 || cluster >= CLUSTER_RESERVED then CLUSTER_EOC
    else if FatEntry(v, cluster) >= CLUSTER_EOC then CLUSTER_EOC
    else FatEntry(v, cluster)
  }

  function FirstSector(v: Volume, cluster: Word): nat {
    if cluster < 2 then 0 else v.dataStart + (cluster - 2) * v.perCluster
  }

  /** `chain` lists the clusters visited from `first` to the end of the chain. */
  ghost predicate IsChain(v: Volume, first: Word, chain: seq<Word>) {
    && (if chain == [] then first >= CLUSTER_EOC else chain[0] == first)
    && (forall i :: 0 <= i < |chain| ==> chain[i] < CLUSTER_EOC)
    && (forall i :: 0 <= i < |chain| ==> Next(v, chain[i]) == After(chain, i))
  }

  function After(chain: seq<Word>, i: nat): Word {
    if i + 1 < |chain| then chain[i + 1] else CLUSTER_EOC
  }

  // ---------- bytes along a chain ----------

  /** `count` consecutive sectors from `first`. */
  function SectorRun(v: Volume, first: nat, count: nat): (data: seq<Byte>)
    ensures |data| == count * SECTOR_SIZE
    decreases count
  {
    if count == 0 then [] else v.SectorAt(first) + SectorRun(v, first + 1, count - 1)
  }

  function ClusterData(v: Volume, cluster: Word): (data: seq<Byte>)
    ensures |data| == v.ClusterSize()
  {
    SectorRun(v, FirstSector(v, cluster), v.perCluster)
  }

  /** Where the `k`-th cluster of a chain starts. */
  function Offset(v: Volume, k: nat): nat {
    if k == 0 then 0 else Offset(v, k - 1) + v.ClusterSize()
  }

  lemma {:induction false} OffsetMonotone(v: Volume, j: nat, k: nat)
    requires j < k
    ensures Offset(v, j) + v.ClusterSize() <= Offset(v, k)
    decreases k
  {
    if j < k - 1 {
      OffsetMonotone(v, j, k - 1);
    }
  }

  /** The contents of the clusters of a chain, one after another. */
  function ChainData(v: Volume, chain: seq<Word>): (data: seq<Byte>)
    ensures |data| == Offset(v, |chain|)
  {
    if chain == [] then [] else ChainData(v, chain[..|chain| - 1]) + ClusterData(v, chain[|chain| - 1])
  }

  lemma {:induction false} RunSector(v: Volume, first: nat, count: nat, i: nat)
    requires i < count
    ensures SectorRun(v, first, count)[i * SECTOR_SIZE..i * SECTOR_SIZE + SECTOR_SIZE] == v.SectorAt(first + i)
    decreases count
  {
    var head, tail := v.SectorAt(first), SectorRun(v, first + 1, count - 1);
    assert SectorRun(v, first, count) == head + tail;
    hide SectorRun;
    if i == 0 {
      KeepHead(head, tail, 0, SECTOR_SIZE);
      assert head[0..0 + SECTOR_SIZE] == head;
    } else {
      RunSector(v, first + 1, count - 1, i - 1);
      DropHead(head, tail, i * SECTOR_SIZE, SECTOR_SIZE);
    }
  }

  lemma DropHead(x: seq<Byte>, y: seq<Byte>, a: nat, n: nat)
    requires |x| <= a && a + n <= |x| + |y|
    ensures (x + y)[a..a + n] == y[a - |x|..a - |x| + n]
  {
  }

  lemma {:induction false} ChainCluster(v: Volume, chain: seq<Word>, k: nat)
    requires k < |chain|
    ensures Offset(v, k) + v.ClusterSize() <= Offset(v, |chain|)
    ensures ChainData(v, chain)[Offset(v, k)..Offset(v, k) + v.ClusterSize()] == ClusterData(v, chain[k])
  {
    OffsetMonotone(v, k, |chain|);
    var most := chain[..|chain| - 1];
    if k < |chain| - 1 {
      ChainCluster(v, most, k);
      hide Offset, Volume.ClusterSize, ClusterData, FirstSector;
      KeepHead(ChainData(v, most), ClusterData(v, chain[|chain| - 1]), Offset(v, k), v.ClusterSize());
    } else {
      hide Offset, Volume.ClusterSize, ClusterData, FirstSector;
      KeepTail(ChainData(v, most), ClusterData(v, chain[|chain| - 1]));
    }
  }

  lemma KeepTail(x: seq<Byte>, y: seq<Byte>)
    ensures (x + y)[|x|..|x| + |y|] == y
  {
  }

  lemma KeepHead(x: seq<Byte>, y: seq<Byte>, a: nat, n: nat)
    requires a + n <= |x|
    ensures (x + y)[a..a + n] == x[a..a + n]
  {
  }

  /** A sector of a chain. */
  lemma ChainSector(v: Volume, chain: seq<Word>, k: nat, i: nat)
    requires k < |chain| && i < v.perCluster
    ensures var p := Offset(v, k) + i * SECTOR_SIZE;
      && p + SECTOR_SIZE <= Offset(v, k) + v.ClusterSize() <= Offset(v, |chain|)
      && ChainData(v, chain)[p..p + SECTOR_SIZE] == v.SectorAt(FirstSector(v, chain[k]) + i)
  {
    hide ChainData, SectorRun, Volume.ClusterSize, Volume.SectorAt, Offset, FirstSector;
    SectorInCluster(v, i);
    ChainCluster(v, chain, k);
    var first := FirstSector(v, chain[k]);
    RunSector(v, first, v.perCluster, i);
    SubSlice(ChainData(v, chain), SectorRun(v, first, v.perCluster), v.SectorAt(first + i),
             Offset(v, k), i * SECTOR_SIZE);
  }

  lemma SubSlice(d: seq<Byte>, r: seq<Byte>, s: seq<Byte>, a: nat, o: nat)
    requires a + |r| <= |d| && d[a..a + |r|] == r && o + |s| <= |r| && r[o..o + |s|] == s
    ensures d[a + o..a + o + |s|] == s
  {
    SliceOfSlice(d, a, a + |r|, o, |s|);
  }

  lemma SectorInCluster(v: Volume, i: nat)
    requires i < v.perCluster
    ensures i * SECTOR_SIZE + SECTOR_SIZE <= v.ClusterSize()
  {
  }

  lemma SliceOfSlice(d: seq<Byte>, a: nat, b: nat, o: nat, n: nat)
    requires a <= b <= |d| && o + n <= b - a
    ensures d[a..b][o..o + n] == d[a + o..a + o + n]
  {
    var x, y := d[a..b][o..o + n], d[a + o..a + o + n];
    assert forall i :: 0 <= i < n ==> x[i] == d[a..b][o + i] == d[a + (o + i)] == y[i];
  }

  // ---------- directories ----------

  datatype Entry = Entry(name: Name, attr: Byte, firstCluster: Word, size: Word)

  /** What a listing shows of an entry. */
  datatype Info = Info(name: seq<Byte>, size: Word, isDirectory: bool)

  function ParseEntry(b: seq<Byte>): Entry
    requires |b| == ENTRY_SIZE
  {
    Entry(b[..11], b[11], Le16(b, 20) * 0x1_0000 + Le16(b, 26), Le32(b, 28))
  }

  predicate HasBit(attr: Byte, bit: Byte)
    requires bit > 0
  {
    attr / bit % 2 == 1
  }

  predicate EndMarker(e: Entry) { e.name[0] == 0x00 }

  /** Neither deleted nor part of a long name. */
  predicate Eligible(e: Entry) { e.name[0] != 0xE5 && e.attr != ATTR_LONG_NAME }

  predicate Visible(e: Entry) { Eligible(e) && !HasBit(e.attr, ATTR_VOLUME_ID) }

  function InfoOf(e: Entry): Info {
    Info(ToString(e.name), e.size, HasBit(e.attr, ATTR_DIRECTORY))
  }

  /** The sixteen entries of a sector. */
  function SectorEntries(s: Sector): (es: seq<Entry>)
    ensures |es| == 16
  {
    seq(16, j requires 0 <= j < 16 => ParseEntry(s[ENTRY_SIZE * j..ENTRY_SIZE * j + ENTRY_SIZE]))
  }

  function RunEntries(v: Volume, first: nat, count: nat): (es: seq<Entry>)
    decreases count
  {
    if count == 0 then [] else SectorEntries(v.SectorAt(first)) + RunEntries(v, first + 1, count - 1)
  }

  function ClusterEntries(v: Volume, cluster: Word): seq<Entry> {
    RunEntries(v, FirstSector(v, cluster), v.perCluster)
  }

  /** The entries of a directory, flattened across sectors and clusters. */
  function Entries(v: Volume, chain: seq<Word>): seq<Entry> {
    if chain == [] then [] else ClusterEntries(v, chain[0]) + Entries(v, chain[1..])
  }

  /** The visible entries before the end marker, in order. */
  function VisibleInfos(es: seq<Entry>): seq<Info> {
    if es == [] || EndMarker(es[0]) then []
    else (if Visible(es[0]) then [InfoOf(es[0])] else []) + VisibleInfos(es[1..])
  }

  /** The first eligible entry before the end marker whose name compares equal. */
  function Lookup(es: seq<Entry>, name: Name): Option<Entry> {
    if es == [] || EndMarker(es[0]) then None
    else if Eligible(es[0]) && Strncmp(es[0].name, name, 11) == 0 then Some(es[0])
    else Lookup(es[1..], name)
  }

  // ---------- listing and lookup agree ----------

  /** Entry `d` comes before the end marker. */
  predicate BeforeEnd(es: seq<Entry>, d: nat) {
    d < |es| && forall i :: 0 <= i <= d ==> !EndMarker(es[i])
  }

  /** Entry `f` is the first eligible one stored under `name`. */
  predicate FirstNamed(es: seq<Entry>, f: nat, name: Name) {
    && f < |es| && Eligible(es[f]) && es[f].name == name
    && forall i :: 0 <= i < f && Eligible(es[i]) ==> es[i].name != name
  }

  /** A lookup finds the first eligible entry stored under the converted text. */
  lemma {:induction false} LookupFindsFirst(es: seq<Entry>, f: nat, text: seq<Byte>)
    requires 0 !in text && FirstNamed(es, f, FromString(text)) && BeforeEnd(es, f)
    ensures Lookup(es, FromString(text)) == Some(es[f])
  {
    hide FromString;
    MatchIffEqual(es[0].name, text);
    if f > 0 {
      assert es[1..][f - 1] == es[f];
      assert forall i :: 0 <= i < f ==> es[1..][i] == es[i + 1];
      LookupFindsFirst(es[1..], f - 1, text);
    }
  }

  /** A lookup finds nothing stored under another name. */
  lemma {:induction false} LookupFindsName(es: seq<Entry>, text: seq<Byte>)
    requires 0 !in text
    ensures Lookup(es, FromString(text)).Some? ==> Lookup(es, FromString(text)).value.name == FromString(text)
  {
    hide FromString;
    if es != [] {
      MatchIffEqual(es[0].name, text);
      LookupFindsName(es[1..], text);
    }
  }

  lemma FirstNamedExists(es: seq<Entry>, d: nat) returns (f: nat)
    requires d < |es| && Eligible(es[d])
    ensures f <= d && FirstNamed(es, f, es[d].name)
  {
    f := d;
    while exists i :: 0 <= i < f && Eligible(es[i]) && es[i].name == es[d].name
      invariant f <= d && Eligible(es[f]) && es[f].name == es[d].name
      decreases f
    {
      var i :| 0 <= i < f && Eligible(es[i]) && es[i].name == es[d].name;
      f := i;
    }
  }

  /** Opening what is shown for an eligible entry finds that entry if and only if
      its stored name round-trips, has no NUL, and the first eligible entry of
      that name is the same one. */
  lemma OpenShownIff(es: seq<Entry>, d: nat, f: nat)
    requires BeforeEnd(es, d) && Eligible(es[d]) && f <= d && FirstNamed(es, f, es[d].name)
    ensures Lookup(es, FromString(Text(ToString(es[d].name)))) == Some(es[d]) <==>
            RoundTrips(es[d].name) && 0 !in es[d].name && es[f] == es[d]
    ensures RoundTrips(es[d].name) && 0 !in es[d].name ==>
            Lookup(es, FromString(Text(ToString(es[d].name)))) == Some(es[f])
  {
    hide FromString, ToString, Text, RoundTrips, Lookup;
    var text := Text(ToString(es[d].name));
    ReopenIff(es[d].name);
    LookupFindsName(es, text);
    if FromString(text) == es[d].name {
      LookupFindsFirst(es, f, text);
    }
  }

  /** Every entry the listing shows is a visible entry before the end marker. */
  lemma {:induction false} ListedIsEntry(es: seq<Entry>, k: nat) returns (d: nat)
    requires k < |VisibleInfos(es)|
    ensures BeforeEnd(es, d) && Visible(es[d]) && VisibleInfos(es)[k] == InfoOf(es[d])
  {
    if Visible(es[0]) && k == 0 {
      d := 0;
    } else {
      var j := ListedIsEntry(es[1..], if Visible(es[0]) then k - 1 else k);
      d := j + 1;
      forall i | 0 <= i <= d
        ensures !EndMarker(es[i])
      {
        assert i > 0 ==> es[i] == es[1..][i - 1];
      }
    }
  }

  /** The same for the listing: opening item `k`'s string finds the entry `d` it
      was made from exactly under those conditions. */
  lemma OpenListedIff(es: seq<Entry>, k: nat) returns (d: nat, f: nat)
    requires k < |VisibleInfos(es)|
    ensures BeforeEnd(es, d) && Visible(es[d]) && InfoOf(es[d]) == VisibleInfos(es)[k]
    ensures f <= d && FirstNamed(es, f, es[d].name)
    ensures Lookup(es, FromString(Text(VisibleInfos(es)[k].name))) == Some(es[d]) <==>
            RoundTrips(es[d].name) && 0 !in es[d].name && es[f] == es[d]
  {
    d := ListedIsEntry(es, k);
    f := FirstNamedExists(es, d);
    OpenShownIff(es, d, f);
  }

  /** So a listing with distinct names that round-trip can be opened throughout. */
  lemma OpenListed(es: seq<Entry>, k: nat) returns (d: nat)
    requires k < |VisibleInfos(es)|
    requires forall i, j :: 0 <= i < j < |es| && Eligible(es[i]) && Eligible(es[j]) ==> es[i].name != es[j].name
    requires forall i :: 0 <= i < |es| && Eligible(es[i]) ==> RoundTrips(es[i].name) && 0 !in es[i].name
    ensures d < |es| && InfoOf(es[d]) == VisibleInfos(es)[k]
    ensures Lookup(es, FromString(Text(VisibleInfos(es)[k].name))) == Some(es[d])
  {
    hide FromString, ToString, Text, RoundTrips, Lookup, VisibleInfos;
    var f;
    d, f := OpenListedIff(es, k);
  }

  lemma OneListed(e: Entry)
    requires Visible(e) && !EndMarker(e)
    ensures VisibleInfos([e]) == [InfoOf(e)]
  {
    assert [e][1..] == [];
    assert VisibleInfos([e]) == [InfoOf(e)] + VisibleInfos([]);
  }

  /** A volume label hides a file with the same stored name from opening, though
      not from listing. */
  lemma LabelShadowsFile(name: Name, volume: Entry, file: Entry)
    requires RoundTrips(name) && 0 !in name && name[0] != 0xE5 && volume.name == file.name == name
    requires volume.attr == ATTR_VOLUME_ID && Visible(file)
    ensures VisibleInfos([volume, file]) == [InfoOf(file)]
    ensures Lookup([volume, file], FromString(Text(InfoOf(file).name))) == Some(volume)
  {
    hide FromString, ToString, Text, RoundTrips;
    var es := [volume, file];
    assert es[1..] == [file] && name[0] in name;
    OneListed(file);
    OpenShownIff(es, 1, 0);
  }

  /** A stored name with a space inside is shown without what follows the space. */
  const SPACED_NAME: Name := [0x41, SPACE, 0x42, SPACE, SPACE, SPACE, SPACE, SPACE, 0x54, 0x58, 0x54]

  /** So it is listed, but no open finds it under what is shown. */
  lemma SpacedNameIsLost(e: Entry)
    requires e.name == SPACED_NAME && Visible(e)
    ensures VisibleInfos([e]) == [InfoOf(e)] && InfoOf(e).name == [0x41, DOT, 0x54, 0x58, 0x54]
    ensures Lookup([e], FromString(Text(InfoOf(e).name))) == None
  {
    hide FromString, RoundTrips, Padded;
    OneListed(e);
    SpacedNameShown();
    assert [e][1..] == [];
    LookupFindsName([e], Text(InfoOf(e).name));
    ReopenIff(SPACED_NAME);
  }

  lemma SpacedNameShown()
    ensures ToString(SPACED_NAME) == [0x41, DOT, 0x54, 0x58, 0x54] && !RoundTrips(SPACED_NAME)
  {
    var n := SPACED_NAME;
    SpanUnique(n[..8], SPACE, SPACE, 1);
    SpanUnique(n[8..], SPACE, SPACE, 3);
    assert n[..8][1] == SPACE && n[..8][2] != SPACE;
  }
}
