/** What memory holds, byte by byte, when a program is started, refused or left, and
    what the loader reads back from an image built from given header fields. */
module ExecMemory {
  import opened Machine
  import opened ExecSpec

  // ---------- loading, byte by byte ----------

  /** Address `a` belongs to the loadable segment `g`. */
  predicate Covers(g: Segment, a: nat) {
    g.kind == 1 && g.vaddr <= a && (a < g.vaddr + g.filesz || a < g.vaddr + g.memsz)
  }

  /** Segment `i` is the last of the table that `a` belongs to. */
  predicate LastAt(gs: seq<Segment>, i: nat, a: nat) {
    i < |gs| && Covers(gs[i], a) && forall j :: i < j < |gs| ==> !Covers(gs[j], a)
  }

  predicate InNone(gs: seq<Segment>, a: nat) {
    forall j :: 0 <= j < |gs| ==> !Covers(gs[j], a)
  }

  /** `b` is what segment `g` of the image has at address `a`: a byte of the file, or
      zero past the bytes the file has. */
  predicate SegmentHas(g: Segment, image: seq<Byte>, a: nat, b: Byte) {
    if g.vaddr <= a < g.vaddr + g.filesz then g.offset + (a - g.vaddr) < |image| && b == image[g.offset + (a - g.vaddr)]
    else b == 0
  }

  /** `b` is what address `a`, which held `before`, holds once `gs` are loaded. */
  ghost predicate HoldsAfter(gs: seq<Segment>, image: seq<Byte>, a: nat, before: Byte, b: Byte) {
    && (forall i: nat :: LastAt(gs, i, a) ==> SegmentHas(gs[i], image, a, b))
    && (InNone(gs, a) ==> b == before)
  }

  lemma CoversIsWrites(g: Segment, a: nat)
    ensures Covers(g, a) <==> Writes(g, a)
  {
  }

  lemma LoadOneByte(m: seq<Byte>, image: seq<Byte>, g: Segment, a: nat)
    requires Fits(g, image, |m|) && a < |m|
    ensures if Covers(g, a) then SegmentHas(g, image, a, LoadOne(m, image, g)[a]) else LoadOne(m, image, g)[a] == m[a]
  {
    CoversIsWrites(g, a);
    if Covers(g, a) {
      LoadOneHere(m, image, g);
      var n := LoadOne(m, image, g);
      assert n[g.vaddr..g.End()][a - g.vaddr] == n[a];
      assert Contents(g, image)[a - g.vaddr] == n[a];
    } else {
      LoadOneMisses(m, image, g, a);
    }
  }

  /** Every address ends up with the byte of the last segment it belongs to, and keeps
      its own when it belongs to none. */
  lemma {:induction false} LoadedByte(m: seq<Byte>, image: seq<Byte>, gs: seq<Segment>, a: nat)
    requires AllFit(gs, image, |m|) && a < |m|
    ensures HoldsAfter(gs, image, a, m[a], LoadAll(m, image, gs)[a])
    decreases |gs|
  {
    hide Covers, SegmentHas, LoadOne;
    if gs != [] {
      var rest, last := gs[..|gs| - 1], gs[|gs| - 1];
      LoadedByte(m, image, rest, a);
      LoadOneByte(LoadAll(m, image, rest), image, last, a);
      forall i: nat | LastAt(gs, i, a)
        ensures SegmentHas(gs[i], image, a, LoadAll(m, image, gs)[a])
      {
        if i < |gs| - 1 {
          assert LastAt(rest, i, a);
        }
      }
    }
  }

  // ---------- starting ----------

  /** A program is started exactly when its header is accepted and fewer than eight
      programs wait. */
  lemma StartsIff(s: Exec, image: seq<Byte>)
    requires |image| == BUFFER_SIZE
    ensures Starts(s, image) <==> ValidHeader(image) && s.depth < 8
  {
  }

  /** Once a program is started, every address of memory holds what its segments say,
      and what it held before if it is in none. */
  lemma StartedMemory(s: Exec, ctx: Context, image: seq<Byte>, a: nat)
    requires Inv(s) && Loadable(image) && Starts(s, image) && a < MEM_SIZE
    ensures TableFits(image)
    ensures HoldsAfter(Segments(image), image, a, s.mem[a], Step(s, Start(ctx, image)).mem[a])
  {
    hide HoldsAfter, LoadAll, Segments, TableFits, ValidHeader, HasMagic;
    HeaderHasMagic(image);
    LoadedByte(s.mem, image, Segments(image), a);
  }

  lemma HeaderHasMagic(image: seq<Byte>)
    requires |image| == BUFFER_SIZE && ValidHeader(image)
    ensures HasMagic(image)
  {
    hide HasMagic;
  }

  /** So a loadable segment that no later one overlaps is in memory: its bytes of the
      file, then zeros. */
  lemma StartedSegment(s: Exec, ctx: Context, image: seq<Byte>, i: nat, k: nat)
    requires Inv(s) && Loadable(image) && Starts(s, image) && i < |Segments(image)|
    requires Segments(image)[i].kind == 1 && forall j :: i < j < |Segments(image)| ==> Disjoint(Segments(image)[i], Segments(image)[j])
    ensures var g, m := Segments(image)[i], Step(s, Start(ctx, image)).mem;
      && (k < g.filesz ==> g.vaddr + k < MEM_SIZE && g.offset + k < |image| && m[g.vaddr + k] == image[g.offset + k])
      && (g.filesz <= k < g.memsz ==> g.vaddr + k < MEM_SIZE && m[g.vaddr + k] == 0)
  {
    hide Step, Segments, TableFits, ValidHeader;
    var gs, a := Segments(image), Segments(image)[i].vaddr + k;
    assert Fits(gs[i], image, MEM_SIZE);
    if k < gs[i].filesz || k < gs[i].memsz {
      StartedMemory(s, ctx, image, a);
      assert LastAt(gs, i, a);
    }
  }

  // ---------- refusing and leaving ----------

  /** After a start that fails every address holds what it held, except, when the image
      was good but eight programs wait already, where its segments lie outside the
      region that SYSCALL_EXEC puts back. */
  lemma FailedStartMemory(s: Exec, ctx: Context, image: seq<Byte>, a: nat)
    requires Inv(s) && Loadable(image) && !Starts(s, image) && a < MEM_SIZE
    ensures var b := Step(s, Start(ctx, image)).mem[a];
      if !ValidHeader(image) || (ctx.syscall && 0x20_0000 <= a < 0x30_1000) then b == s.mem[a]
      else TableFits(image) && HoldsAfter(Segments(image), image, a, s.mem[a], b)
  {
    hide HoldsAfter, LoadAll, Segments, TableFits, ValidHeader, HasMagic, Overwrite;
    if ValidHeader(image) {
      HeaderHasMagic(image);
      LoadedByte(s.mem, image, Segments(image), a);
    }
    RestoredByte(Loaded(s.mem, image), Region(s.mem), a);
  }

  /** Every loadable segment lies in the region that SYSCALL_EXEC saves. */
  ghost predicate InRegion(gs: seq<Segment>) {
    forall a: nat :: !InNone(gs, a) ==> 0x20_0000 <= a < 0x30_1000
  }

  lemma {:induction false} LastExists(gs: seq<Segment>, a: nat) returns (i: nat)
    requires !InNone(gs, a)
    ensures LastAt(gs, i, a)
    decreases |gs|
  {
    hide Covers;
    var last := |gs| - 1;
    if Covers(gs[last], a) {
      i := last;
    } else {
      assert InNone(gs[..last], a) ==> InNone(gs, a);
      i := LastExists(gs[..last], a);
    }
  }

  /** A state in which eight programs wait and every byte of memory is `b`. */
  function Deep(b: Byte, ctx: Context): (s: Exec)
    ensures Inv(s) && s.depth == 8 && s.mem == seq(MEM_SIZE, _ => b)
  {
    var stack := seq(MAX_EXEC_DEPTH, _ => ctx);
    var s := Exec(seq(MEM_SIZE, _ => b), Zeros(REGION_SIZE), stack, 8, stack);
    assert s.stack[..8] == stack;
    s
  }

  ghost predicate Unchanged(s: Exec, ctx: Context, image: seq<Byte>)
    requires Inv(s) && Loadable(image)
  {
    Step(s, Start(ctx, image)).mem == s.mem
  }

  /** A refused SYSCALL_EXEC leaves memory as it was in every state if and only if the
      header is bad or all segments of the image lie in the saved region: otherwise
      there is a state, with eight programs waiting, in which it writes over memory it
      does not put back. */
  lemma RefusedUnchangedIff(ctx: Context, image: seq<Byte>)
    requires Loadable(image) && ctx.syscall
    ensures (forall s :: Inv(s) && !Starts(s, image) ==> Unchanged(s, ctx, image)) <==>
            !ValidHeader(image) || (TableFits(image) && InRegion(Segments(image)))
  {
    assert |image| == BUFFER_SIZE;
    hide Segments, ValidHeader, TableFits, Step, Inv, Loadable, InNone, LastAt;
    if !ValidHeader(image) || (TableFits(image) && InRegion(Segments(image))) {
      forall s | Inv(s) && !Starts(s, image)
        ensures Unchanged(s, ctx, image)
      {
        RefusedInRegion(s, ctx, image);
      }
    } else {
      LoadableTable(image);
      var a: nat :| !InNone(Segments(image), a) && !(0x20_0000 <= a < 0x30_1000);
      var b := RefusedOutside(ctx, image, a);
      assert !Unchanged(Deep(b, ctx), ctx, image);
    }
  }

  lemma LoadableTable(image: seq<Byte>)
    requires Loadable(image) && ValidHeader(image)
    ensures TableFits(image) && AllFit(Segments(image), image, MEM_SIZE)
  {
  }

  lemma RefusedInRegion(s: Exec, ctx: Context, image: seq<Byte>)
    requires Inv(s) && Loadable(image) && !Starts(s, image) && ctx.syscall
    requires !ValidHeader(image) || (TableFits(image) && InRegion(Segments(image)))
    ensures Unchanged(s, ctx, image)
  {
    hide Segments, ValidHeader, TableFits, Step, InNone, LastAt, Loadable;
    var t := Step(s, Start(ctx, image));
    forall a: nat | a < MEM_SIZE
      ensures t.mem[a] == s.mem[a]
    {
      FailedStartMemory(s, ctx, image, a);
    }
  }

  lemma RefusedOutside(ctx: Context, image: seq<Byte>, a: nat) returns (b: Byte)
    requires Loadable(image) && ValidHeader(image) && ctx.syscall && TableFits(image)
    requires !InNone(Segments(image), a) && !(0x20_0000 <= a < 0x30_1000)
    ensures !Starts(Deep(b, ctx), image) && !Unchanged(Deep(b, ctx), ctx, image)
  {
    hide Segments, ValidHeader, TableFits, Step, InNone, Loadable;
    var gs := Segments(image);
    LoadableTable(image);
    var i := LastExists(gs, a);
    assert Fits(gs[i], image, MEM_SIZE);
    var g := gs[i];
    b := if g.vaddr <= a < g.vaddr + g.filesz && image[g.offset + (a - g.vaddr)] == 1 then 2 else 1;
    FailedStartMemory(Deep(b, ctx), ctx, image, a);
    assert SegmentHas(g, image, a, Step(Deep(b, ctx), Start(ctx, image)).mem[a]);
    assert Deep(b, ctx).mem[a] == b;
  }

  lemma RestoredByte(m: seq<Byte>, saved: seq<Byte>, a: nat)
    requires |m| == MEM_SIZE && |saved| == REGION_SIZE && a < MEM_SIZE
    ensures Restored(m, saved)[a] == if 0x20_0000 <= a < 0x30_1000 then saved[a - 0x20_0000] else m[a]
  {
    OverwriteAt(m, REGION_START, saved);
    var n := Restored(m, saved);
    if REGION_START <= a < REGION_END {
      assert n[REGION_START..REGION_START + |saved|][a - REGION_START] == n[a];
    }
  }

  /** What SYSCALL_EXEC saves is the caller's region, byte by byte. */
  lemma SavedByte(s: Exec, ctx: Context, image: seq<Byte>, a: nat)
    requires Inv(s) && Loadable(image) && HasMagic(image) && 0x20_0000 <= a < 0x30_1000
    ensures Step(s, Start(ctx, image)).saved[a - 0x20_0000] == if ctx.syscall then s.mem[a] else s.saved[a - 0x20_0000]
  {
    hide Loaded, Restored, HasMagic, ValidHeader;
  }

  /** When a program exits to SYSCALL_EXEC, the region holds the saved bytes and the
      rest of memory what the program left there; no other exit writes memory. */
  lemma ExitMemory(s: Exec, a: nat)
    requires Inv(s) && a < MEM_SIZE
    ensures Step(s, Exit).mem[a] ==
      if s.callers != [] && s.callers[|s.callers| - 1].syscall && 0x20_0000 <= a < 0x30_1000 then s.saved[a - 0x20_0000]
      else s.mem[a]
  {
    hide Restored;
    if s.depth > 0 {
      assert s.stack[..s.depth][s.depth - 1] == s.stack[s.depth - 1];
      RestoredByte(s.mem, s.saved, a);
    }
  }

  // ---------- images ----------

  /** The bytes a number is stored as, the least first. */
  function Bytes2(w: Word): (b: seq<Byte>)
    requires w < 0x1_0000
    ensures |b| == 2
  {
    [w % 256, w / 256]
  }

  function Bytes4(w: Word): (b: seq<Byte>)
    ensures |b| == 4
  {
    [w % 256, w / 256 % 256, w / 256 / 256 % 256, w / 256 / 256 / 256]
  }

  /** The numbers stored at `at`. */
  predicate Has2(image: seq<Byte>, at: nat, w: Word) {
    at + 2 <= |image| && w < 0x1_0000 && image[at..at + 2] == Bytes2(w)
  }

  predicate Has4(image: seq<Byte>, at: nat, w: Word) {
    at + 4 <= |image| && image[at..at + 4] == Bytes4(w)
  }

  lemma Reads2(image: seq<Byte>, at: nat, w: Word)
    requires Has2(image, at, w)
    ensures Le16(image, at) == w
  {
    var b := image[at..at + 2];
    assert b[0] == image[at] && b[1] == image[at + 1];
  }

  lemma Reads4(image: seq<Byte>, at: nat, w: Word)
    requires Has4(image, at, w)
    ensures Le32(image, at) == w
  {
    var b := image[at..at + 4];
    assert b[0] == image[at] && b[1] == image[at + 1] && b[2] == image[at + 2] && b[3] == image[at + 3];
  }

  /** The program header at `at` describes `g`: type, offset, virtual address, size in
      the file and size in memory at bytes 0, 4, 8, 16 and 20. */
  predicate HasSegment(image: seq<Byte>, at: nat, g: Segment) {
    && Has4(image, at, g.kind) && Has4(image, at + 4, g.offset) && Has4(image, at + 8, g.vaddr)
    && Has4(image, at + 16, g.filesz) && Has4(image, at + 20, g.memsz)
  }

  /** The image has these header fields and this program header table. */
  predicate Encodes(image: seq<Byte>, entry: Word, table: Word, gs: seq<Segment>) {
    && |image| == 65536 && |gs| < 0x1_0000 && table + 32 * |gs| <= 65536
    && Has4(image, 24, entry) && Has4(image, 28, table) && Has2(image, 44, |gs|)
    && forall i: nat :: i < |gs| ==> SegmentStored(image, table, i, gs[i])
  }

  predicate SegmentStored(image: seq<Byte>, table: Word, i: nat, g: Segment) {
    HasSegment(image, table + 32 * i, g)
  }

  /** The loader reads back the segments and the entry point an image encodes. */
  lemma SegmentsReadBack(image: seq<Byte>, entry: Word, table: Word, gs: seq<Segment>)
    requires Encodes(image, entry, table, gs)
    ensures TableFits(image) && Segments(image) == gs && Le32(image, 24) == entry
  {
    hide Has2, Has4;
    Reads4(image, 24, entry);
    Reads4(image, 28, table);
    Reads2(image, 44, |gs|);
    hide Le16, Le32;
    forall i: nat | i < |gs|
      ensures SegmentAt(image, i) == gs[i]
    {
      assert SegmentStored(image, table, i, gs[i]);
      SegmentReadBack(image, table + 32 * i, gs[i]);
    }
  }

  lemma SegmentReadBack(image: seq<Byte>, at: nat, g: Segment)
    requires HasSegment(image, at, g)
    ensures at + 24 <= |image|
    ensures g == Segment(Le32(image, at), Le32(image, at + 4), Le32(image, at + 8), Le32(image, at + 16), Le32(image, at + 20))
  {
    hide Le32;
    Reads4(image, at, g.kind);
    Reads4(image, at + 4, g.offset);
    Reads4(image, at + 8, g.vaddr);
    Reads4(image, at + 16, g.filesz);
    Reads4(image, at + 20, g.memsz);
  }

  /** The accepted images are exactly the little-endian 32-bit ELF files for machine 3
      of type 2 or 3. */
  lemma AcceptedIff(image: seq<Byte>)
    requires |image| == BUFFER_SIZE
    ensures ValidHeader(image) <==>
      && image[0] == 0x7f && image[1] == 'E' as int && image[2] == 'L' as int && image[3] == 'F' as int
      && image[4] == 1 && image[5] == 1
      && (image[16] == 2 || image[16] == 3) && image[17] == 0 && image[18] == 3 && image[19] == 0
    ensures HasMagic(image) <==>
      image[0] == 0x7f && image[1] == 'E' as int && image[2] == 'L' as int && image[3] == 'F' as int
  {
    assert image[..4] == [image[0], image[1], image[2], image[3]];
  }

  /** An image as a linker writes it: the 52-byte header, the program header table
      after it, then whatever the segments refer to. */
  function FileHeader(kind: Byte, entry: Word, count: Word): (h: seq<Byte>)
    requires count < 0x1_0000
    ensures |h| == 52
  {
    [0x7f, 'E' as int, 'L' as int, 'F' as int, 1, 1, 1, 0, 0, 0, 0, 0, 0, 0, 0, 0]
    + [kind, 0, 3, 0] + Bytes4(1) + Bytes4(entry) + Bytes4(52) + Bytes4(0) + Bytes4(0)
    + Bytes2(52) + Bytes2(32) + Bytes2(count) + Bytes2(0) + Bytes2(0) + Bytes2(0)
  }

  function ProgramHeader(g: Segment): (h: seq<Byte>)
    ensures |h| == 32
  {
    Bytes4(g.kind) + Bytes4(g.offset) + Bytes4(g.vaddr) + Bytes4(g.vaddr)
    + Bytes4(g.filesz) + Bytes4(g.memsz) + Bytes4(7) + Bytes4(0x1000)
  }

  function HeaderTable(gs: seq<Segment>): (t: seq<Byte>)
    ensures |t| == 32 * |gs|
  {
    if gs == [] then [] else HeaderTable(gs[..|gs| - 1]) + ProgramHeader(gs[|gs| - 1])
  }

  function Image(kind: Byte, entry: Word, gs: seq<Segment>, body: seq<Byte>): (image: seq<Byte>)
    requires 52 + 32 * |gs| + |body| == 65536
    ensures |image| == 65536
  {
    FileHeader(kind, entry, |gs|) + HeaderTable(gs) + body
  }

  lemma {:induction false} TableHolds(gs: seq<Segment>, i: nat)
    requires i < |gs|
    ensures HeaderTable(gs)[32 * i..32 * i + 32] == ProgramHeader(gs[i])
  {
    hide ProgramHeader;
    var most := gs[..|gs| - 1];
    if i < |gs| - 1 {
      TableHolds(most, i);
      assert HeaderTable(gs)[32 * i..32 * i + 32] == HeaderTable(most)[32 * i..32 * i + 32];
    }
  }

  /** A 32-byte program header inside an image. */
  lemma HeaderInside(image: seq<Byte>, at: nat, g: Segment)
    requires at + 32 <= |image| && image[at..at + 32] == ProgramHeader(g)
    ensures HasSegment(image, at, g)
  {
    hide Bytes4;
    var h := image[at..at + 32];
    FieldInside(image, at, 0);
    FieldInside(image, at, 4);
    FieldInside(image, at, 8);
    FieldInside(image, at, 16);
    FieldInside(image, at, 20);
    assert h[0..4] == Bytes4(g.kind) && h[4..8] == Bytes4(g.offset) && h[8..12] == Bytes4(g.vaddr);
    assert h[16..20] == Bytes4(g.filesz) && h[20..24] == Bytes4(g.memsz);
  }

  lemma FieldInside(image: seq<Byte>, at: nat, o: nat)
    requires at + 32 <= |image| && o + 4 <= 32
    ensures image[at..at + 32][o..o + 4] == image[at + o..at + o + 4]
  {
    var x, y := image[at..at + 32][o..o + 4], image[at + o..at + o + 4];
    assert forall i :: 0 <= i < 4 ==> x[i] == image[at..at + 32][o + i] == image[at + (o + i)] == y[i];
  }

  lemma FileHeaderHolds(kind: Byte, entry: Word, count: Word)
    requires count < 0x1_0000
    ensures var h := FileHeader(kind, entry, count);
      && h[0] == 0x7f && h[1] == 'E' as int && h[2] == 'L' as int && h[3] == 'F' as int && h[4] == 1 && h[5] == 1
      && h[16] == kind && h[17] == 0 && h[18] == 3 && h[19] == 0
      && h[24..28] == Bytes4(entry) && h[28..32] == Bytes4(52) && h[44..46] == Bytes2(count)
  {
    hide Bytes4, Bytes2;
    var h := FileHeader(kind, entry, count);
    assert h[24..28] == Bytes4(entry);
    assert h[28..32] == Bytes4(52);
    assert h[44..46] == Bytes2(count);
  }

  /** An image built from header fields encodes them, is accepted exactly when it is an
      executable or a shared object, and is loadable exactly when its segments fit. */
  lemma BuiltImage(kind: Byte, entry: Word, gs: seq<Segment>, body: seq<Byte>)
    requires 52 + 32 * |gs| + |body| == 65536
    ensures var image := Image(kind, entry, gs, body);
      && TableFits(image) && Segments(image) == gs && Le32(image, 24) == entry
      && (ValidHeader(image) <==> kind == 2 || kind == 3)
      && (kind == 2 || kind == 3 ==> (Loadable(image) <==> AllFit(gs, image, MEM_SIZE)))
  {
    hide FileHeader, HeaderTable, ProgramHeader, Le32, Bytes4, Bytes2, ValidHeader, Segments, TableFits, HasSegment, AllFit;
    var image, h, t := Image(kind, entry, gs, body), FileHeader(kind, entry, |gs|), HeaderTable(gs);
    FileHeaderHolds(kind, entry, |gs|);
    assert forall i :: 0 <= i < 52 ==> image[i] == h[i];
    AcceptedIff(image);
    HeaderFieldsInside(image, h, t + body, entry, |gs|);
    forall i: nat | i < |gs|
      ensures SegmentStored(image, 52, i, gs[i])
    {
      TableHolds(gs, i);
      TableInside(image, h, t, body, i);
      HeaderInside(image, 52 + 32 * i, gs[i]);
    }
    SegmentsReadBack(image, entry, 52, gs);
  }

  lemma HeaderFieldsInside(image: seq<Byte>, h: seq<Byte>, rest: seq<Byte>, entry: Word, count: Word)
    requires |h| == 52 && image == h + rest && count < 0x1_0000
    requires h[24..28] == Bytes4(entry) && h[28..32] == Bytes4(52) && h[44..46] == Bytes2(count)
    ensures Has4(image, 24, entry) && Has4(image, 28, 52) && Has2(image, 44, count)
  {
    hide Bytes4, Bytes2;
    assert image[24..28] == h[24..28] && image[28..32] == h[28..32] && image[44..46] == h[44..46];
  }

  lemma TableInside(image: seq<Byte>, h: seq<Byte>, t: seq<Byte>, body: seq<Byte>, i: nat)
    requires |h| == 52 && 32 * i + 32 <= |t| && image == h + t + body
    ensures image[52 + 32 * i..52 + 32 * i + 32] == t[32 * i..32 * i + 32]
  {
  }

  /** An executable with one segment of one byte at 0x400000. */
  function HighProgram(): (image: seq<Byte>)
    ensures |image| == 65536
  {
    Image(2, 0x40_0000, [Segment(1, 84, 0x40_0000, 1, 1)], Zeros(65536 - 84))
  }

  /** It is such an image: refused for depth, it may leave its byte behind. */
  lemma HighProgramEscapes()
    ensures var image := HighProgram();
      Loadable(image) && ValidHeader(image) && TableFits(image) && !InRegion(Segments(image))
  {
    hide Image, ValidHeader, Segments, TableFits;
    var gs := [Segment(1, 84, 0x40_0000, 1, 1)];
    BuiltImage(2, 0x40_0000, gs, Zeros(65536 - 84));
    assert Covers(gs[0], 0x40_0000);
    assert !InNone(gs, 0x40_0000);
  }
}
