/** The loader, the exec stack and SYSCALL_EXEC's save and restore, in place. */
module ExecKernel {
  import opened Machine
  import opened ExecSpec

  class Programs {
    const mem: array<Byte>
    const saved: array<Byte>
    const stack: array<Context>
    var depth: nat
    ghost var callers: seq<Context>

    ghost predicate Valid()
      reads this, mem, saved, stack
    {
      mem != saved && Inv(Content())
    }

    ghost function Content(): Exec
      reads this, mem, saved, stack
    {
      Exec(mem[..], saved[..], stack[..], depth, callers)
    }

    constructor (m: seq<Byte>, idle: Context)
      requires |m| == MEM_SIZE
      ensures Valid() && fresh(mem) && fresh(saved) && fresh(stack)
      ensures mem[..] == m && callers == []
    {
      mem := new Byte[MEM_SIZE](i requires 0 <= i < MEM_SIZE => m[i]);
      saved := new Byte[REGION_SIZE](_ => 0);
      stack := new Context[MAX_EXEC_DEPTH](_ => idle);
      depth, callers := 0, [];
      new;
      assert mem[..] == m;
    }

    /** memcpy into memory. */
    method Copy(at: nat, image: seq<Byte>, offset: nat, n: nat)
      requires at + n <= mem.Length && offset + n <= |image|
      modifies mem
      ensures mem[..] == Overwrite(old(mem[..]), at, image[offset..offset + n])
    {
      var i := 0;
      while i < n
        invariant i <= n
        invariant forall a :: 0 <= a < mem.Length ==> mem[a] == if at <= a < at + i then image[offset + (a - at)] else old(mem[a])
      {
        mem[at + i] := image[offset + i];
        i := i + 1;
      }
    }

    /** memset to zero. */
    method Clear(at: nat, n: nat)
      requires at + n <= mem.Length
      modifies mem
      ensures mem[..] == Overwrite(old(mem[..]), at, Zeros(n))
    {
      var i := 0;
      while i < n
        invariant i <= n
        invariant forall a :: 0 <= a < mem.Length ==> mem[a] == if at <= a < at + i then 0 else old(mem[a])
      {
        mem[at + i] := 0;
        i := i + 1;
      }
    }

    method LoadSegment(image: seq<Byte>, g: Segment)
      requires Fits(g, image, mem.Length)
      modifies mem
      ensures mem[..] == LoadOne(old(mem[..]), image, g)
    {
      hide Overwrite, Zeros, Contents;
      if g.kind == PT_LOAD {
        ghost var m: seq<Byte> := mem[..];
        if g.filesz > 0 {
          Copy(g.vaddr, image, g.offset, g.filesz);
        }
        CopyNothing(m, image, g);
        ghost var copied: seq<Byte> := mem[..];
        if g.memsz > g.filesz {
          Clear(g.vaddr + g.filesz, g.memsz - g.filesz);
        }
        CopyThenClear(m, copied, mem[..], image, g);
      }
    }

    /** The loading loop over the program header table. */
    method LoadSegments(image: seq<Byte>)
      requires TableFits(image) && AllFit(Segments(image), image, mem.Length)
      modifies mem
      ensures mem[..] == LoadAll(old(mem[..]), image, Segments(image))
    {
      hide LoadOne, SegmentAt;
      ghost var gs := Segments(image);
      var n := HeaderCount(image);
      var i := 0;
      while i < n
        invariant i <= n
        invariant mem[..] == LoadAll(old(mem[..]), image, gs[..i])
      {
        assert gs[i] == SegmentAt(image, i);
        LoadSegment(image, SegmentAt(image, i));
        LoadAllNext(old(mem[..]), image, gs, i);
        i := i + 1;
      }
      assert gs[..n] == gs;
    }

    /** The comparison of the first four bytes, made by the callers and the loader. */
    method CheckMagic(image: seq<Byte>) returns (ok: bool)
      requires |image| == BUFFER_SIZE
      ensures ok == HasMagic(image)
    {
      assert image[..4] == [image[0], image[1], image[2], image[3]];
      return image[0] == 0x7f && image[1] == 'E' as int && image[2] == 'L' as int && image[3] == 'F' as int;
    }

    method ValidateHeader(image: seq<Byte>) returns (ok: bool)
      requires |image| == BUFFER_SIZE
      ensures ok == ValidHeader(image)
    {
      var magic := CheckMagic(image);
      if !magic {
        return false;
      }
      if image[4] != 1 || image[5] != 1 {
        return false;
      }
      if Le16(image, 18) != 3 {
        return false;
      }
      return Le16(image, 16) == 2 || Le16(image, 16) == 3;
    }

    /** Validate, load, check the depth, and push the caller's context; a started
        program begins at `entry`.  Pages are opened to the user by
        `Paging.Pager.MapUserPages`. */
    method LoadAndExec(image: seq<Byte>, ctx: Context) returns (started: bool, entry: Word)
      requires Valid() && Loadable(image)
      modifies mem, stack, this
      ensures started == Starts(old(Content()), image) && (started ==> entry == Le32(image, 24))
      ensures mem[..] == Loaded(old(mem[..]), image) && saved[..] == old(saved[..])
      ensures depth == old(depth) + (if started then 1 else 0)
      ensures stack[..] == if started then old(stack[..])[old(depth) := ctx] else old(stack[..])
      ensures callers == if started then old(callers) + [ctx] else old(callers)
    {
      hide ValidHeader, LoadAll, Segments;
      var ok := ValidateHeader(image);
      if !ok {
        return false, 0;
      }
      LoadSegments(image);
      entry := Le32(image, 24);
      if depth >= MAX_EXEC_DEPTH {
        return false, entry;
      }
      stack[depth] := ctx;
      depth, callers := depth + 1, callers + [ctx];
      return true, entry;
    }

    /** The loop that copies the running program's region to `saved`. */
    method SaveRegion()
      requires Valid()
      modifies saved
      ensures saved[..] == Region(old(mem[..]))
    {
      var j := 0;
      while j < REGION_SIZE
        invariant j <= REGION_SIZE
        invariant forall i :: 0 <= i < j ==> saved[i] == mem[REGION_START + i]
        invariant mem[..] == old(mem[..])
      {
        saved[j] := mem[REGION_START + j];
        j := j + 1;
      }
    }

    /** The loop that copies it back. */
    method RestoreRegion()
      requires mem.Length == MEM_SIZE && saved.Length == REGION_SIZE && mem != saved
      modifies mem
      ensures mem[..] == Restored(old(mem[..]), saved[..])
    {
      var j := 0;
      while j < REGION_SIZE
        invariant j <= REGION_SIZE
        invariant forall a :: 0 <= a < MEM_SIZE ==>
                    mem[a] == if REGION_START <= a < REGION_START + j then saved[a - REGION_START] else old(mem[a])
        invariant saved[..] == old(saved[..])
      {
        mem[REGION_START + j] := saved[j];
        j := j + 1;
      }
    }

    /** SYSCALL_EXEC from the point where the image is in the buffer.  The code is
        what a refused call returns, and 0 when the program was started. */
    method SysExec(image: seq<Byte>, ctx: Context) returns (code: int, entry: Word)
      requires Valid() && Loadable(image) && ctx.syscall
      modifies mem, saved, stack, this
      ensures Valid() && Content() == StartStep(old(Content()), ctx, image)
      ensures code == if !HasMagic(image) then -4 else if Starts(old(Content()), image) then 0 else -5
      ensures code == 0 ==> entry == Le32(image, 24)
    {
      hide Loaded, Restored, Region, HasMagic;
      var magic := CheckMagic(image);
      if !magic {
        return -4, 0;
      }
      SaveRegion();
      var started;
      started, entry := LoadAndExec(image, ctx);
      if !started {
        RestoreRegion();
      }
      StartKeepsInv(old(Content()), ctx, image);
      return if started then 0 else -5, entry;
    }

    /** The kernel starting a program itself, after the same look at the magic
        bytes: nothing is saved. */
    method KernelRun(image: seq<Byte>, ctx: Context) returns (started: bool, entry: Word)
      requires Valid() && Loadable(image) && !ctx.syscall
      modifies mem, saved, stack, this
      ensures Valid() && Content() == StartStep(old(Content()), ctx, image)
      ensures started == Starts(old(Content()), image) && (started ==> entry == Le32(image, 24))
    {
      hide Loaded, Restored, Region, HasMagic;
      var magic := CheckMagic(image);
      if !magic {
        return false, 0;
      }
      started, entry := LoadAndExec(image, ctx);
      StartKeepsInv(old(Content()), ctx, image);
    }

    /** SYSCALL_EXIT: jump to the latest context, which drops the depth and, in
        SYSCALL_EXEC, restores the caller's memory. */
    method SysExit() returns (resumed: bool, ctx: Context)
      requires Valid()
      modifies mem, this
      ensures Valid() && Content() == ExitStep(old(Content()))
      ensures resumed == (old(callers) != [])
      ensures resumed ==> ctx == old(callers)[|old(callers)| - 1]
    {
      hide Restored;
      if depth == 0 {
        return false, stack[0];
      }
      ctx := stack[depth - 1];
      assert ctx == stack[..depth][depth - 1];
      depth, callers := depth - 1, callers[..|callers| - 1];
      if ctx.syscall {
        RestoreRegion();
      }
      ExitKeepsInv(old(Content()));
      resumed := true;
    }
  }

  lemma CopyNothing(m: seq<Byte>, image: seq<Byte>, g: Segment)
    requires Fits(g, image, |m|) && g.kind == PT_LOAD
    ensures g.filesz == 0 ==> Overwrite(m, g.vaddr, image[g.offset..g.offset + g.filesz]) == m
  {
  }

  /** Copying the file bytes and then clearing the rest is one write of the contents. */
  lemma CopyThenClear(m: seq<Byte>, copied: seq<Byte>, n: seq<Byte>, image: seq<Byte>, g: Segment)
    requires Fits(g, image, |m|) && g.kind == PT_LOAD
    requires copied == Overwrite(m, g.vaddr, image[g.offset..g.offset + g.filesz])
    requires n == if g.memsz > g.filesz then Overwrite(copied, g.vaddr + g.filesz, Zeros(g.memsz - g.filesz)) else copied
    ensures n == LoadOne(m, image, g)
  {
    var file := image[g.offset..g.offset + g.filesz];
    if g.memsz > g.filesz {
      OverwriteTwice(m, g.vaddr, file, Zeros(g.memsz - g.filesz));
    } else {
      assert file + Zeros(0) == file;
    }
  }

  lemma OverwriteTwice(m: seq<Byte>, at: nat, first: seq<Byte>, second: seq<Byte>)
    requires at + |first| + |second| <= |m|
    ensures Overwrite(Overwrite(m, at, first), at + |first|, second) == Overwrite(m, at, first + second)
  {
  }

  lemma LoadAllNext(m: seq<Byte>, image: seq<Byte>, gs: seq<Segment>, i: nat)
    requires AllFit(gs, image, |m|) && i < |gs|
    ensures LoadAll(m, image, gs[..i + 1]) == LoadOne(LoadAll(m, image, gs[..i]), image, gs[i])
  {
    assert gs[..i + 1][..i] == gs[..i];
  }
}
