/** What holds over whole runs of programs starting programs and exiting. */
module ExecTheorems {
  import opened Machine
  import opened ExecSpec

  // ---------- contexts ----------

  /** After every step of the run at least `d` callers are still waiting. */
  ghost predicate StaysAbove(s: Exec, evs: seq<Event>, d: nat)
    requires Inv(s) && AllLegal(evs)
    decreases |evs|
  {
    Run(s, evs).depth >= d && (evs != [] ==> StaysAbove(s, evs[..|evs| - 1], d))
  }

  lemma StepKeepsCallers(s: Exec, ev: Event, d: nat)
    requires Inv(s) && Legal(ev) && s.depth >= d && Step(s, ev).depth >= d
    ensures Step(s, ev).callers[..d] == s.callers[..d]
  {
    hide Loaded, Restored, ValidHeader;
  }

  lemma {:induction false} CallersKept(s: Exec, evs: seq<Event>, d: nat)
    requires Inv(s) && AllLegal(evs) && StaysAbove(s, evs, d)
    ensures s.depth >= d && Run(s, evs).depth >= d
    ensures Run(s, evs).callers[..d] == s.callers[..d]
    decreases |evs|
  {
    hide Step;
    if evs != [] {
      CallersKept(s, evs[..|evs| - 1], d);
      StepKeepsCallers(Run(s, evs[..|evs| - 1]), evs[|evs| - 1], d);
    }
  }

  /** However a program's children start and exit, its own exit resumes exactly
      the caller that started it and leaves the other callers waiting. */
  lemma ExitResumesCaller(s: Exec, ctx: Context, image: seq<Byte>, evs: seq<Event>)
    requires Inv(s) && Loadable(image) && Starts(s, image) && AllLegal(evs)
    requires StaysAbove(Step(s, Start(ctx, image)), evs, s.depth + 1)
    requires Run(Step(s, Start(ctx, image)), evs).depth == s.depth + 1
    ensures var t := Run(Step(s, Start(ctx, image)), evs);
            t.stack[t.depth - 1] == ctx && Step(t, Exit).callers == s.callers && Step(t, Exit).depth == s.depth
  {
    hide Loaded, Restored, ValidHeader, Run, StaysAbove;
    var u := Step(s, Start(ctx, image));
    var t := Run(u, evs);
    CallersKept(u, evs, s.depth + 1);
    assert u.callers == s.callers + [ctx];
    assert t.callers == t.callers[..s.depth + 1] == s.callers + [ctx];
    assert t.stack[..t.depth][s.depth] == ctx;
  }

  // ---------- the caller's memory ----------

  /** The event takes a new copy of the running program's memory. */
  predicate Saves(ev: Event)
    requires Legal(ev)
  {
    ev.Start? && ev.ctx.syscall && HasMagic(ev.image)
  }

  lemma StepSaves(s: Exec, ev: Event)
    requires Inv(s) && Legal(ev)
    ensures Step(s, ev).saved == if Saves(ev) then Region(s.mem) else s.saved
  {
    hide Loaded, Restored, Region;
  }

  lemma {:induction false} SavedKept(s: Exec, evs: seq<Event>)
    requires Inv(s) && AllLegal(evs) && forall i :: 0 <= i < |evs| ==> !Saves(evs[i])
    ensures Run(s, evs).saved == s.saved
    decreases |evs|
  {
    hide Step, Saves, Region, Loadable;
    if evs != [] {
      SavedKept(s, evs[..|evs| - 1]);
      StepSaves(Run(s, evs[..|evs| - 1]), evs[|evs| - 1]);
    }
  }

  /** There is one copy, so the last one taken is the one kept. */
  lemma {:induction false} LastSaveWins(s: Exec, evs: seq<Event>, k: nat)
    requires Inv(s) && AllLegal(evs) && k < |evs| && Saves(evs[k])
    requires forall i :: k < i < |evs| ==> !Saves(evs[i])
    ensures Run(s, evs).saved == Region(Run(s, evs[..k]).mem)
    decreases |evs|
  {
    hide Step, Saves, Region, Loadable;
    var rest := evs[..|evs| - 1];
    StepSaves(Run(s, rest), evs[|evs| - 1]);
    if k < |evs| - 1 {
      LastSaveWins(s, rest, k);
      assert rest[..k] == evs[..k];
    }
  }

  /** An exit to SYSCALL_EXEC puts the saved copy back. */
  lemma ExitRestoresSaved(s: Exec)
    requires Inv(s) && s.depth > 0 && s.stack[s.depth - 1].syscall
    ensures Region(Step(s, Exit).mem) == s.saved
  {
    OverwriteAt(s.mem, REGION_START, s.saved);
  }

  lemma StartSaves(s: Exec, ctx: Context, image: seq<Byte>)
    requires Loadable(image) && Starts(s, image) && ctx.syscall
    ensures Saves(Start(ctx, image))
  {
    hide HasMagic, Loadable;
  }

  /** A caller whose program makes no exec call that reaches the save gets its
      memory region back byte for byte. */
  lemma CallerMemoryRestored(s: Exec, ctx: Context, image: seq<Byte>, evs: seq<Event>)
    requires Inv(s) && Loadable(image) && Starts(s, image) && AllLegal(evs) && ctx.syscall
    requires StaysAbove(Step(s, Start(ctx, image)), evs, s.depth + 1)
    requires Run(Step(s, Start(ctx, image)), evs).depth == s.depth + 1
    requires forall i :: 0 <= i < |evs| ==> !Saves(evs[i])
    ensures Region(Step(Run(Step(s, Start(ctx, image)), evs), Exit).mem) == Region(s.mem)
  {
    hide Step, Run, StaysAbove, Region, Starts, Loadable, Saves;
    StartSaves(s, ctx, image);
    ExitResumesCaller(s, ctx, image, evs);
    StepSaves(s, Start(ctx, image));
    SavedKept(Step(s, Start(ctx, image)), evs);
    ExitRestoresSaved(Run(Step(s, Start(ctx, image)), evs));
  }

  /** When it did, what comes back is what the last such call saved, so the caller is
      restored exactly when that happens to be the same bytes. */
  lemma NestedExecRestoresLastCopy(s: Exec, ctx: Context, image: seq<Byte>, evs: seq<Event>, k: nat)
    requires Inv(s) && Loadable(image) && Starts(s, image) && AllLegal(evs) && ctx.syscall
    requires StaysAbove(Step(s, Start(ctx, image)), evs, s.depth + 1)
    requires Run(Step(s, Start(ctx, image)), evs).depth == s.depth + 1
    requires k < |evs| && Saves(evs[k]) && forall i :: k < i < |evs| ==> !Saves(evs[i])
    ensures var u := Step(s, Start(ctx, image));
            Region(Step(Run(u, evs), Exit).mem) == Region(Run(u, evs[..k]).mem)
    ensures var u := Step(s, Start(ctx, image));
            Region(Step(Run(u, evs), Exit).mem) == Region(s.mem) <==> Region(Run(u, evs[..k]).mem) == Region(s.mem)
  {
    hide Step, Run, StaysAbove, Region, Starts, Loadable, Saves;
    ExitResumesCaller(s, ctx, image, evs);
    LastSaveWins(Step(s, Start(ctx, image)), evs, k);
    ExitRestoresSaved(Run(Step(s, Start(ctx, image)), evs));
  }

  /** A start that fails, for a bad header or for depth, also restores the
      caller's region; with a bad header all of memory is as before, and without the
      magic bytes everything is, the saved copy included. */
  lemma FailedExecRestores(s: Exec, ctx: Context, image: seq<Byte>)
    requires Inv(s) && Loadable(image) && !Starts(s, image) && ctx.syscall
    ensures Region(Step(s, Start(ctx, image)).mem) == Region(s.mem)
    ensures !ValidHeader(image) ==> Step(s, Start(ctx, image)).mem == s.mem
    ensures HasMagic(image) ==>
            Step(s, Start(ctx, image)) == s.(mem := Step(s, Start(ctx, image)).mem, saved := Region(s.mem))
    ensures !HasMagic(image) ==> Step(s, Start(ctx, image)) == s
  {
    var loaded := Loaded(s.mem, image);
    OverwriteAt(loaded, REGION_START, Region(s.mem));
    if !ValidHeader(image) {
      assert Restored(s.mem, Region(s.mem)) == s.mem;
    }
  }

  /** The child's run in which it changes its memory and then fails to exec. */
  function FailedChild(m: seq<Byte>, ctx: Context, bad: seq<Byte>): seq<Event> {
    [Work(m), Start(ctx, bad)]
  }

  lemma FailedChildRun(u: Exec, m: seq<Byte>, ctx: Context, bad: seq<Byte>)
    requires Inv(u) && |m| == MEM_SIZE && Loadable(bad) && HasMagic(bad) && !ValidHeader(bad) && ctx.syscall
    ensures AllLegal(FailedChild(m, ctx, bad))
    ensures var t := Run(u, FailedChild(m, ctx, bad)); t.saved == Region(m) && t.depth == u.depth && t.stack == u.stack
  {
    hide Loaded, Restored, Region;
    var evs := FailedChild(m, ctx, bad);
    assert evs[..1] == [Work(m)] && evs[..1][..0] == [];
    assert Run(u, evs[..1]) == u.(mem := m);
    StepSaves(u.(mem := m), Start(ctx, bad));
  }

  /** Restoration fails even when the child's own exec fails after the save:
      whatever the child had in the region then is what its caller gets back. */
  lemma NestedExecLosesCaller(s: Exec, ctx: Context, image: seq<Byte>, m: seq<Byte>, bad: seq<Byte>)
    requires Inv(s) && Loadable(image) && Starts(s, image) && ctx.syscall
    requires |m| == MEM_SIZE && Loadable(bad) && HasMagic(bad) && !ValidHeader(bad)
    ensures AllLegal(FailedChild(m, ctx, bad))
    ensures Region(Step(Run(Step(s, Start(ctx, image)), FailedChild(m, ctx, bad)), Exit).mem) == Region(m)
  {
    hide Loaded, Restored, Region, Run, Loadable, FailedChild;
    var u := Step(s, Start(ctx, image));
    FailedChildRun(u, m, ctx, bad);
    ExitRestoresSaved(Run(u, FailedChild(m, ctx, bad)));
  }

  /** An image with a valid header and no segments. */
  function EmptyProgram(): (image: seq<Byte>)
    ensures |image| == BUFFER_SIZE
  {
    [0x7f, 'E' as int, 'L' as int, 'F' as int, 1, 1, 0, 0, 0, 0, 0, 0, 0, 0, 0, 0, 2, 0, 3, 0] + Zeros(BUFFER_SIZE - 20)
  }

  lemma EmptyProgramLoadable()
    ensures Loadable(EmptyProgram()) && ValidHeader(EmptyProgram())
  {
    var image := EmptyProgram();
    assert image[..4] == [0x7f, 'E' as int, 'L' as int, 'F' as int];
    assert image[44] == 0 && image[45] == 0 && image[28] == 0 && image[29] == 0 && image[30] == 0 && image[31] == 0;
  }

  /** An ELF image of the 64-bit class, which the loader refuses after the save. */
  function WrongClass(): (image: seq<Byte>)
    ensures |image| == BUFFER_SIZE
  {
    [0x7f, 'E' as int, 'L' as int, 'F' as int, 2] + Zeros(BUFFER_SIZE - 5)
  }

  lemma WrongClassRefused()
    ensures Loadable(WrongClass()) && HasMagic(WrongClass()) && !ValidHeader(WrongClass())
  {
    assert WrongClass()[..4] == [0x7f, 'E' as int, 'L' as int, 'F' as int];
    assert WrongClass()[4] == 2;
  }

  /** A program that changes one byte of the region and then fails to exec costs its
      caller that byte, in every state in which a program can be started. */
  lemma CallerLosesMemory(s: Exec, ctx: Context)
    requires Inv(s) && s.depth < MAX_EXEC_DEPTH && ctx.syscall
    ensures exists image, b: Byte :: Loadable(image) && Starts(s, image) && LosesByte(s, ctx, image, b)
  {
    hide LosesByte, EmptyProgram, Loadable;
    EmptyProgramLoadable();
    ByteLost(s, ctx, if s.mem[REGION_START] == 0 then 1 else 0);
  }

  /** The caller's first byte comes back as `b`, which it was not. */
  ghost predicate LosesByte(s: Exec, ctx: Context, image: seq<Byte>, b: Byte)
    requires Inv(s) && Loadable(image)
  {
    var u := Step(s, Start(ctx, image));
    var evs := FailedChild(u.mem[REGION_START := b], ctx, WrongClass());
    AllLegal(evs) && Region(Step(Run(u, evs), Exit).mem)[0] == b != Region(s.mem)[0]
  }

  lemma ByteLost(s: Exec, ctx: Context, b: Byte)
    requires Inv(s) && s.depth < MAX_EXEC_DEPTH && ctx.syscall && b != s.mem[REGION_START] && Loadable(EmptyProgram())
    ensures LosesByte(s, ctx, EmptyProgram(), b)
  {
    hide Run, Loaded, Restored, Step, Loadable, FailedChild, EmptyProgram, WrongClass, HasMagic, ValidHeader;
    EmptyProgramLoadable();
    WrongClassRefused();
    var u := Step(s, Start(ctx, EmptyProgram()));
    NestedExecLosesCaller(s, ctx, EmptyProgram(), u.mem[REGION_START := b], WrongClass());
  }
}
