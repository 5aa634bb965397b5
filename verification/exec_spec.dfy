/** Loading ELF images and running programs inside programs: the saved contexts,
    the saved caller's memory, and what comes back when a program exits. */
module ExecSpec {
  import opened Machine

  const REGION_START := 0x20_0000
  const REGION_SIZE := 0x10_1000
  const REGION_END := 0x30_1000
  const MAX_EXEC_DEPTH := 8
  const PT_LOAD := 1

  // ---------- segment loading ----------

  datatype Segment = Segment(kind: Word, offset: Word, vaddr: Word, filesz: Word, memsz: Word) {
    /** Bytes of memory the loader writes for this segment. */
    function Length(): nat {
      if kind != PT_LOAD then 0 else if memsz > filesz then memsz else filesz
    }

    function End(): nat { vaddr + Length() }
  }

  function Overwrite(m: seq<Byte>, at: nat, bytes: seq<Byte>): (n: seq<Byte>)
    requires at + |bytes| <= |m|
    ensures |n| == |m|
  {
    m[..at] + bytes + m[at + |bytes|..]
  }

  function Zeros(n: nat): (z: seq<Byte>)
    ensures |z| == n
  {
    seq(n, _ => 0)
  }

  predicate Fits(g: Segment, image: seq<Byte>, memory: nat) {
    g.kind == PT_LOAD ==> g.offset + g.filesz <= |image| && g.End() <= memory
  }

  predicate AllFit(gs: seq<Segment>, image: seq<Byte>, memory: nat) {
    forall i :: 0 <= i < |gs| ==> Fits(gs[i], image, memory)
  }

  /** What a loadable segment should hold: its file bytes, then zeros. */
  function Contents(g: Segment, image: seq<Byte>): (c: seq<Byte>)
    requires g.kind == PT_LOAD && g.offset + g.filesz <= |image|
    ensures |c| == g.Length()
  {
    image[g.offset..g.offset + g.filesz] + Zeros(g.Length() - g.filesz)
  }

  function LoadOne(m: seq<Byte>, image: seq<Byte>, g: Segment): (n: seq<Byte>)
    requires Fits(g, image, |m|)
    ensures |n| == |m|
  {
    if g.kind != PT_LOAD then m else Overwrite(m, g.vaddr, Contents(g, image))
  }

  function LoadAll(m: seq<Byte>, image: seq<Byte>, gs: seq<Segment>): (n: seq<Byte>)
    requires AllFit(gs, image, |m|)
    ensures |n| == |m|
    decreases |gs|
  {
    if gs == [] then m
    else LoadOne(LoadAll(m, image, gs[..|gs| - 1]), image, gs[|gs| - 1])
  }

  /** Two segments write no common byte. */
  predicate Disjoint(g: Segment, h: Segment) {
    g.End() <= h.vaddr || h.End() <= g.vaddr || g.kind != PT_LOAD || h.kind != PT_LOAD
  }

  lemma OverwriteAt(m: seq<Byte>, at: nat, bytes: seq<Byte>)
    requires at + |bytes| <= |m|
    ensures Overwrite(m, at, bytes)[at..at + |bytes|] == bytes
    ensures forall a :: 0 <= a < |m| && !(at <= a < at + |bytes|) ==> Overwrite(m, at, bytes)[a] == m[a]
  {
  }

  lemma OverwriteElsewhere(m: seq<Byte>, at: nat, bytes: seq<Byte>, lo: nat, hi: nat)
    requires at + |bytes| <= |m| && lo <= hi <= |m| && (hi <= at || at + |bytes| <= lo)
    ensures Overwrite(m, at, bytes)[lo..hi] == m[lo..hi]
  {
    OverwriteAt(m, at, bytes);
    var n := Overwrite(m, at, bytes);
    assert forall i :: 0 <= i < hi - lo ==> n[lo..hi][i] == n[lo + i] == m[lo + i] == m[lo..hi][i];
  }

  /** A later disjoint segment leaves an earlier one's bytes alone. */
  lemma LoadOneElsewhere(m: seq<Byte>, image: seq<Byte>, g: Segment, h: Segment)
    requires Fits(g, image, |m|) && Fits(h, image, |m|) && g.kind == PT_LOAD && Disjoint(g, h)
    ensures LoadOne(m, image, h)[g.vaddr..g.End()] == m[g.vaddr..g.End()]
  {
    if h.kind == PT_LOAD {
      OverwriteElsewhere(m, h.vaddr, Contents(h, image), g.vaddr, g.End());
    }
  }

  lemma LoadOneHere(m: seq<Byte>, image: seq<Byte>, g: Segment)
    requires Fits(g, image, |m|) && g.kind == PT_LOAD
    ensures LoadOne(m, image, g)[g.vaddr..g.End()] == Contents(g, image)
  {
    OverwriteAt(m, g.vaddr, Contents(g, image));
  }

  /** After loading, a segment that no later one overlaps holds its file bytes,
      then zeros up to its memory size. */
  lemma {:induction false} LoadedSegment(m: seq<Byte>, image: seq<Byte>, gs: seq<Segment>, i: nat)
    requires AllFit(gs, image, |m|)
    requires i < |gs| && gs[i].kind == PT_LOAD && forall j :: i < j < |gs| ==> Disjoint(gs[i], gs[j])
    ensures Fits(gs[i], image, |m|)
    ensures LoadAll(m, image, gs)[gs[i].vaddr..gs[i].End()] == Contents(gs[i], image)
    decreases |gs|
  {
    hide Contents, LoadOne;
    var last, rest := gs[|gs| - 1], gs[..|gs| - 1];
    if i == |gs| - 1 {
      LoadOneHere(LoadAll(m, image, rest), image, last);
    } else {
      LoadedSegment(m, image, rest, i);
      LoadOneElsewhere(LoadAll(m, image, rest), image, gs[i], last);
    }
  }

  /** Address `a` is written while loading `g`. */
  predicate Writes(g: Segment, a: nat) {
    g.kind == PT_LOAD && g.vaddr <= a < g.End()
  }

  lemma LoadOneMisses(m: seq<Byte>, image: seq<Byte>, g: Segment, a: nat)
    requires Fits(g, image, |m|) && a < |m| && !Writes(g, a)
    ensures LoadOne(m, image, g)[a] == m[a]
  {
  }

  /** Memory that belongs to no segment is untouched by loading. */
  lemma {:induction false} LoadTouchesOnlySegments(m: seq<Byte>, image: seq<Byte>, gs: seq<Segment>, a: nat)
    requires AllFit(gs, image, |m|)
    requires a < |m| && forall i :: 0 <= i < |gs| ==> !Writes(gs[i], a)
    ensures LoadAll(m, image, gs)[a] == m[a]
    decreases |gs|
  {
    hide LoadOne, Writes;
    if gs != [] {
      LoadTouchesOnlySegments(m, image, gs[..|gs| - 1], a);
      LoadOneMisses(LoadAll(m, image, gs[..|gs| - 1]), image, gs[|gs| - 1], a);
    }
  }

  // ---------- the image in the load buffer ----------

  /** The two 64 KB buffers images are read into. */
  const BUFFER_SIZE := 65536

  /** The four bytes both callers look for before they do anything. */
  predicate HasMagic(image: seq<Byte>)
    requires |image| == BUFFER_SIZE
  {
    image[..4] == [0x7f, 'E' as int, 'L' as int, 'F' as int]
  }

  predicate ValidHeader(image: seq<Byte>)
    requires |image| == BUFFER_SIZE
  {
    && HasMagic(image)
    && image[4] == 1
    && image[5] == 1
    && Le16(image, 18) == 3
    && (Le16(image, 16) == 2 || Le16(image, 16) == 3)
  }

  function HeaderCount(image: seq<Byte>): nat
    requires |image| == BUFFER_SIZE
  {
    Le16(image, 44)
  }

  /** The program header table lies inside the buffer. */
  predicate TableFits(image: seq<Byte>) {
    |image| == BUFFER_SIZE && Le32(image, 28) + 32 * HeaderCount(image) <= |image|
  }

  function SegmentAt(image: seq<Byte>, i: nat): Segment
    requires TableFits(image) && i < HeaderCount(image)
  {
    var at := Le32(image, 28) + 32 * i;
    Segment(Le32(image, at), Le32(image, at + 4), Le32(image, at + 8), Le32(image, at + 16), Le32(image, at + 20))
  }

  function Segments(image: seq<Byte>): (gs: seq<Segment>)
    requires TableFits(image)
    ensures |gs| == HeaderCount(image)
  {
    seq(HeaderCount(image), i requires 0 <= i < HeaderCount(image) => SegmentAt(image, i))
  }

  /** What the loader relies on: the table and the segments' file bytes are
      inside the buffer and the segments inside physical memory. */
  predicate Loadable(image: seq<Byte>) {
    && |image| == BUFFER_SIZE
    && (ValidHeader(image) ==> TableFits(image) && AllFit(Segments(image), image, MEM_SIZE))
  }

  function Loaded(m: seq<Byte>, image: seq<Byte>): (n: seq<Byte>)
    requires |m| == MEM_SIZE && Loadable(image)
    ensures |n| == MEM_SIZE
  {
    if ValidHeader(image) then LoadAll(m, image, Segments(image)) else m
  }

  // ---------- exec and exit ----------

  /** What `exec_setjmp` stores.  The return address on the saved stack says
      whether the caller is SYSCALL_EXEC, which saves and restores memory, or
      the kernel starting its first program, which does not. */
  datatype Context = Context(ebx: Word, esi: Word, edi: Word, ebp: Word, esp: Word, eip: Word, syscall: bool)

  /** `stack[..depth]` are the saved contexts and `saved` is the one copy of a
      caller's memory; `callers` is the specification's own record of who waits. */
  datatype Exec = Exec(mem: seq<Byte>, saved: seq<Byte>, stack: seq<Context>, depth: nat, callers: seq<Context>)

  /** A program may do anything to memory, start a program, or exit. */
  datatype Event = Work(mem: seq<Byte>) | Start(ctx: Context, image: seq<Byte>) | Exit

  predicate Sized(s: Exec) {
    |s.mem| == MEM_SIZE && |s.saved| == REGION_SIZE && |s.stack| == MAX_EXEC_DEPTH
  }

  /** The megabyte all programs load into, and the user stack page above it. */
  function Region(m: seq<Byte>): (r: seq<Byte>)
    requires |m| == MEM_SIZE
    ensures |r| == REGION_SIZE
  {
    m[REGION_START..REGION_END]
  }

  function Restored(m: seq<Byte>, saved: seq<Byte>): (n: seq<Byte>)
    requires |m| == MEM_SIZE && |saved| == REGION_SIZE
    ensures |n| == MEM_SIZE
  {
    Overwrite(m, REGION_START, saved)
  }

  /** Whether the new program gets to run. */
  predicate Starts(s: Exec, image: seq<Byte>)
    requires |image| == BUFFER_SIZE
  {
    ValidHeader(image) && s.depth < MAX_EXEC_DEPTH
  }

  function Saved(s: Exec, ctx: Context): (r: seq<Byte>)
    requires Sized(s)
    ensures |r| == REGION_SIZE
  {
    if ctx.syscall then Region(s.mem) else s.saved
  }

  /** Starting a program: an image without the magic bytes is refused at once;
      otherwise save the caller's memory, load, and then either run the program or
      put the caller's memory back. */
  function StartStep(s: Exec, ctx: Context, image: seq<Byte>): (t: Exec)
    requires Sized(s) && Loadable(image)
    ensures Sized(t)
  {
    var saved := Saved(s, ctx);
    var loaded := Loaded(s.mem, image);
    if !HasMagic(image) then s
    else if Starts(s, image) then
      Exec(loaded, saved, s.stack[s.depth := ctx], s.depth + 1, s.callers + [ctx])
    else
      s.(mem := if ctx.syscall then Restored(loaded, saved) else loaded, saved := saved)
  }

  /** Exiting: the latest caller resumes and, if it was SYSCALL_EXEC, copies
      the saved memory back. */
  function ExitStep(s: Exec): (t: Exec)
    requires Sized(s) && s.depth <= MAX_EXEC_DEPTH
    ensures Sized(t)
  {
    if s.depth == 0 then s
    else
      var m := if s.stack[s.depth - 1].syscall then Restored(s.mem, s.saved) else s.mem;
      Exec(m, s.saved, s.stack, s.depth - 1, if s.callers == [] then [] else s.callers[..|s.callers| - 1])
  }

  predicate Legal(ev: Event) {
    match ev
    case Work(m) => |m| == MEM_SIZE
    case Start(_, image) => Loadable(image)
    case Exit => true
  }

  /** The saved contexts are exactly those of the waiting callers, in order. */
  ghost predicate Inv(s: Exec) {
    Sized(s) && s.depth == |s.callers| <= MAX_EXEC_DEPTH && s.stack[..s.depth] == s.callers
  }

  ghost function Step(s: Exec, ev: Event): (t: Exec)
    requires Inv(s) && Legal(ev)
    ensures Inv(t)
  {
    match ev
    case Work(m) => s.(mem := m)
    case Start(ctx, image) => StartKeepsInv(s, ctx, image); StartStep(s, ctx, image)
    case Exit => ExitKeepsInv(s); ExitStep(s)
  }

  lemma StartKeepsInv(s: Exec, ctx: Context, image: seq<Byte>)
    requires Inv(s) && Loadable(image)
    ensures Inv(StartStep(s, ctx, image))
  {
    hide Loaded, Restored, HasMagic;
    var t := StartStep(s, ctx, image);
    if Starts(s, image) {
      assert t.stack[..t.depth] == s.stack[..s.depth] + [ctx];
    }
  }

  lemma ExitKeepsInv(s: Exec)
    requires Inv(s)
    ensures Inv(ExitStep(s))
  {
    hide Restored;
    if s.depth > 0 {
      assert s.stack[..s.depth - 1] == s.stack[..s.depth][..s.depth - 1];
    }
  }

  predicate AllLegal(evs: seq<Event>) {
    forall i :: 0 <= i < |evs| ==> Legal(evs[i])
  }

  ghost function Run(s: Exec, evs: seq<Event>): (t: Exec)
    requires Inv(s) && AllLegal(evs)
    ensures Inv(t)
    decreases |evs|
  {
    if evs == [] then s else Step(Run(s, evs[..|evs| - 1]), evs[|evs| - 1])
  }
}
