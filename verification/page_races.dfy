/** `pmm_alloc` taken apart.  The scan finds the lowest clear bit and the next
    instruction sets it; a tick between the two lets other processes allocate.  Any
    number of calls are under way at once here. */
module PageRaces {
  import opened Machine

  /** `seen` is the page each waiting process has found clear but not yet set;
      `overtaken` are those since whose test another set has happened; `handed` are the
      pages returned so far, in order. */
  datatype State = State(free: set<nat>, seen: map<nat, nat>, overtaken: set<nat>, handed: seq<nat>)

  /** Process `i` finds the lowest clear bit, or sets the one it found. */
  datatype Event = Test(i: nat) | Set(i: nat)

  predicate Enabled(s: State, ev: Event) {
    match ev
    case Test(i) => i !in s.seen
    case Set(i) => i in s.seen
  }

  ghost function Step(s: State, ev: Event): State
    requires Enabled(s, ev)
  {
    match ev
    case Test(i) =>
      if s.free == {} then s else s.(seen := s.seen[i := Min(s.free)], overtaken := s.overtaken - {i})
    case Set(i) =>
      State(s.free - {s.seen[i]}, s.seen - {i}, s.seen.Keys - {i}, s.handed + [s.seen[i]])
  }

  ghost predicate EnabledRun(s: State, evs: seq<Event>)
    decreases |evs|
  {
    evs == [] || (Enabled(s, evs[0]) && EnabledRun(Step(s, evs[0]), evs[1..]))
  }

  ghost function Run(s: State, evs: seq<Event>): State
    requires EnabledRun(s, evs)
    decreases |evs|
  {
    if evs == [] then s else Run(Step(s, evs[0]), evs[1..])
  }

  /** No process sets a bit after another's set fell between its test and its set. */
  ghost predicate NoneOvertaken(s: State, evs: seq<Event>)
    requires EnabledRun(s, evs)
    decreases |evs|
  {
    evs == [] ||
    ((evs[0].Set? ==> evs[0].i !in s.overtaken) && NoneOvertaken(Step(s, evs[0]), evs[1..]))
  }

  predicate Distinct(pages: seq<nat>) {
    forall i, j :: 0 <= i < j < |pages| ==> pages[i] != pages[j]
  }

  /** A process not overtaken has found the lowest free page; the page of an
      overtaken one has already gone to another. */
  ghost predicate Sound(s: State, i: nat)
    requires i in s.seen
  {
    if i in s.overtaken then s.seen[i] in s.handed else s.free != {} && s.seen[i] == Min(s.free)
  }

  ghost predicate Ok(s: State) {
    && Distinct(s.handed) && (forall p :: p in s.handed ==> p !in s.free)
    && (forall i :: i in s.seen ==> Sound(s, i))
  }

  lemma TestKeepsOk(s: State, i: nat)
    requires Ok(s) && i !in s.seen
    ensures Ok(Step(s, Test(i)))
  {
    var t := Step(s, Test(i));
    forall j | j in t.seen ensures Sound(t, j) {
      if j != i {
        assert Sound(s, j);
      }
    }
  }

  lemma SetKeepsOk(s: State, i: nat)
    requires Ok(s) && i in s.seen && i !in s.overtaken
    ensures Ok(Step(s, Set(i)))
  {
    var t, p := Step(s, Set(i)), s.seen[i];
    assert Sound(s, i) && p == Min(s.free);
    forall j | j in t.seen ensures Sound(t, j) {
      assert Sound(s, j) && j in t.overtaken;
      assert t.handed[|s.handed|] == p;
      if j in s.overtaken {
        var k :| 0 <= k < |s.handed| && s.handed[k] == s.seen[j];
        assert t.handed[k] == s.seen[j];
      }
    }
  }

  lemma OvertakenSetRepeats(s: State, i: nat)
    requires Ok(s) && i in s.seen && i in s.overtaken
    ensures !Distinct(Step(s, Set(i)).handed)
  {
    var h := Step(s, Set(i)).handed;
    assert Sound(s, i);
    var k :| 0 <= k < |s.handed| && s.handed[k] == s.seen[i];
    assert h[k] == h[|s.handed|];
  }

  lemma {:induction false} HandedGrows(s: State, evs: seq<Event>)
    requires EnabledRun(s, evs)
    ensures s.handed <= Run(s, evs).handed
    decreases |evs|
  {
    hide Step;
    if evs != [] {
      HandedStep(s, evs[0]);
      HandedGrows(Step(s, evs[0]), evs[1..]);
    }
  }

  lemma HandedStep(s: State, ev: Event)
    requires Enabled(s, ev)
    ensures s.handed <= Step(s, ev).handed
  {
  }

  lemma RepeatStays(x: seq<nat>, y: seq<nat>)
    requires x <= y && !Distinct(x)
    ensures !Distinct(y)
  {
    var i, j :| 0 <= i < j < |x| && x[i] == x[j];
    assert y[i] == y[j];
  }

  /** Over any run of overlapping calls the pages handed out are distinct if and only
      if no process sets its bit after having been overtaken. */
  lemma {:induction false} DistinctIff(s: State, evs: seq<Event>)
    requires Ok(s) && EnabledRun(s, evs)
    ensures Distinct(Run(s, evs).handed) <==> NoneOvertaken(s, evs)
    decreases |evs|
  {
    hide Ok, Step, Distinct;
    if evs == [] {
      OkDistinct(s);
    } else if evs[0].Set? && evs[0].i in s.overtaken {
      OvertakenSetRepeats(s, evs[0].i);
      HandedGrows(Step(s, evs[0]), evs[1..]);
      RepeatStays(Step(s, evs[0]).handed, Run(s, evs).handed);
    } else {
      if evs[0].Test? {
        TestKeepsOk(s, evs[0].i);
      } else {
        SetKeepsOk(s, evs[0].i);
      }
      DistinctIff(Step(s, evs[0]), evs[1..]);
    }
  }

  lemma OkDistinct(s: State)
    requires Ok(s)
    ensures Distinct(s.handed)
  {
  }

  /** With no call under way nothing is promised yet. */
  lemma StartOk(free: set<nat>)
    ensures Ok(State(free, map[], {}, []))
  {
  }

  /** The smallest overlap: both calls return the lowest free page. */
  lemma TwoCallsOnePage(free: set<nat>, i: nat, j: nat)
    requires free != {} && i != j
    ensures var s, evs := State(free, map[], {}, []), [Test(i), Test(j), Set(i), Set(j)];
      EnabledRun(s, evs) && Run(s, evs).handed == [Min(free), Min(free)]
  {
    var s := State(free, map[], {}, []);
    var evs := [Test(i), Test(j), Set(i), Set(j)];
    var e1, e2, e3 := evs[1..], evs[1..][1..], evs[1..][1..][1..];
    assert e1 == [Test(j), Set(i), Set(j)] && e2 == [Set(i), Set(j)] && e3 == [Set(j)] && e3[1..] == [];
    var s1 := Step(s, Test(i));
    var s2 := Step(s1, Test(j));
    var s3 := Step(s2, Set(i));
    var s4 := Step(s3, Set(j));
    assert s4.handed == [Min(free), Min(free)];
    hide Step;
    assert EnabledRun(s4, []) && Run(s4, []) == s4;
    assert EnabledRun(s3, e3) && Run(s3, e3) == s4;
    assert EnabledRun(s2, e2) && Run(s2, e2) == s4;
    assert EnabledRun(s1, e1) && Run(s1, e1) == s4;
  }

  /** A call that nothing overtakes takes the lowest free page, and it alone. */
  lemma UninterruptedAlloc(s: State, i: nat)
    requires i !in s.seen && s.free != {}
    ensures var t := Step(s, Test(i));
      && Enabled(t, Set(i))
      && Step(t, Set(i)).free == s.free - {Min(s.free)} && Step(t, Set(i)).handed == s.handed + [Min(s.free)]
  {
  }
}
