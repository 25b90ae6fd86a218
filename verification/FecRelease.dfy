/** EdrvReleaseRxBuffer of the FEC driver (staging/edrv/EdrvFec.c) in its two steps: it looks at the top of
    the stack before it takes the lock, and pushes under the lock.  Any number of processors may stand
    between the two, and the interrupt may act there. */
module FecRelease {
  import opened Common
  import R = FecRxRing

  /** The ring, and for each processor the buffer whose release passed the look at the top. */
  datatype State = State(ring: R.State, passed: seq<Option<R.Addr>>)

  datatype Label =
    | Other(step: R.Label)       // anything but a release
    | Look(p: nat, buf: R.Addr)   // the guard, without the lock
    | Push(p: nat)                // the push, under the lock

  /** What the guard says at this moment. */
  predicate GuardPasses(s: R.State) {
    |s.freeStack| < R.EDRV_MAX_RX_BUFFERS
  }

  function Next(s: State, l: Label): Option<State>
    requires R.WellFormed(s.ring)
  {
    match l
    case Other(step) =>
      if step.Release? then None
      else (match R.Next(s.ring, step)
            case None => None
            case Some(ring) => Some(s.(ring := ring)))
    case Look(p, buf) =>
      if p >= |s.passed| || s.passed[p] != None || buf !in s.ring.held then None
      else if GuardPasses(s.ring) then Some(s.(passed := s.passed[p := Some(buf)]))
      else Some(s)
    case Push(p) =>
      if p >= |s.passed| || s.passed[p] == None || s.passed[p].value !in s.ring.held then None
      else
        var buf := s.passed[p].value;
        Some(State(s.ring.(held := s.ring.held - multiset{buf}, freeStack := s.ring.freeStack + [buf]),
                   s.passed[p := None]))
  }

  lemma NextIsWellFormed(s: State, l: Label)
    requires R.WellFormed(s.ring) && Next(s, l).Some?
    ensures R.WellFormed(Next(s, l).value.ring) && |Next(s, l).value.ring.ring| == |s.ring.ring|
  {
    if l.Other? {
      R.NextIsWellFormed(s.ring, l.step);
    }
  }

  function Execute(s: State, run: seq<Label>): (r: Option<State>)
    requires R.WellFormed(s.ring)
    ensures r.Some? ==> R.WellFormed(r.value.ring)
    decreases |run|
  {
    if run == [] then Some(s) else
    match Next(s, run[0])
    case None => None
    case Some(t) =>
      NextIsWellFormed(s, run[0]);
      Execute(t, run[1..])
  }

  /** The step as a step of the ring, a release being one step at the push. */
  function AsOneStep(s: State, l: Label): seq<R.Label>
    requires R.WellFormed(s.ring) && Next(s, l).Some?
  {
    match l
    case Other(step) => [step]
    case Look(_, _) => []
    case Push(p) => [R.Release(s.passed[p].value)]
  }

  /** The run as a run of the ring. */
  function AsOneStepEach(s: State, run: seq<Label>): seq<R.Label>
    requires R.WellFormed(s.ring) && Execute(s, run).Some?
    decreases |run|
  {
    if run == [] then []
    else
      NextIsWellFormed(s, run[0]);
      AsOneStep(s, run[0]) + AsOneStepEach(Next(s, run[0]).value, run[1..])
  }

  /** A push for which the guard would not pass any more. */
  predicate Stale(s: State, l: Label) {
    l.Push? && !GuardPasses(s.ring)
  }

  predicate NeverStale(s: State, run: seq<Label>)
    requires R.WellFormed(s.ring) && Execute(s, run).Some?
    decreases |run|
  {
    run == [] ||
    (NextIsWellFormed(s, run[0]);
     !Stale(s, run[0]) && NeverStale(Next(s, run[0]).value, run[1..]))
  }

  /** All along, the ring is in the state that the run of whole releases leads to. */
  predicate AlwaysAgrees(s: State, run: seq<Label>)
    requires R.WellFormed(s.ring) && Execute(s, run).Some?
    decreases |run|
  {
    run == [] ||
    (NextIsWellFormed(s, run[0]);
     && R.Execute(s.ring, AsOneStep(s, run[0])) == Some(Next(s, run[0]).value.ring)
     && AlwaysAgrees(Next(s, run[0]).value, run[1..]))
  }

  lemma StepAgrees(s: State, l: Label)
    requires R.WellFormed(s.ring) && Next(s, l).Some?
    ensures R.Execute(s.ring, AsOneStep(s, l)) == Some(Next(s, l).value.ring) <==> !Stale(s, l)
  {
    if !l.Look? {
      var whole := AsOneStep(s, l);
      assert whole[1..] == [];
      if R.Next(s.ring, whole[0]).Some? {
        R.NextIsWellFormed(s.ring, whole[0]);
      }
    }
  }

  /** Main result: for any number of processors, the two steps do what one step at the push would do,
      exactly if the guard would still pass at every push. */
  lemma {:induction false} TwoStepsAreOneExactlyWhen(s: State, run: seq<Label>)
    requires R.WellFormed(s.ring) && Execute(s, run).Some?
    ensures AlwaysAgrees(s, run) <==> NeverStale(s, run)
    ensures NeverStale(s, run) ==> R.Execute(s.ring, AsOneStepEach(s, run)) == Some(Execute(s, run).value.ring)
    decreases |run|
  {
    if run != [] {
      var t := Next(s, run[0]).value;
      NextIsWellFormed(s, run[0]);
      StepAgrees(s, run[0]);
      TwoStepsAreOneExactlyWhen(t, run[1..]);
      if NeverStale(s, run) {
        R.ExecuteConcat(s.ring, AsOneStep(s, run[0]), AsOneStepEach(t, run[1..]));
      }
    }
  }

  /** Every push finds a slot in the array. */
  predicate AlwaysRoom(s: State, run: seq<Label>)
    requires R.WellFormed(s.ring) && Execute(s, run).Some?
    decreases |run|
  {
    run == [] ||
    (NextIsWellFormed(s, run[0]);
     (run[0].Push? ==> R.HasRoom(s.ring)) && AlwaysRoom(Next(s, run[0]).value, run[1..]))
  }

  /** Inside the array that is always so. */
  lemma {:induction false} RoomIsNeverStale(s: State, run: seq<Label>)
    requires R.WellFormed(s.ring) && Execute(s, run).Some? && AlwaysRoom(s, run)
    ensures NeverStale(s, run)
    decreases |run|
  {
    if run != [] {
      NextIsWellFormed(s, run[0]);
      RoomIsNeverStale(Next(s, run[0]).value, run[1..]);
    }
  }

  lemma {:induction false} ExecuteConcat(s: State, run: seq<Label>, more: seq<Label>)
    requires R.WellFormed(s.ring) && Execute(s, run).Some?
    ensures Execute(s, run + more) == Execute(Execute(s, run).value, more)
    decreases |run|
  {
    if run == [] {
      assert run + more == more;
    } else {
      NextIsWellFormed(s, run[0]);
      assert (run + more)[1..] == run[1..] + more;
      ExecuteConcat(Next(s, run[0]).value, run[1..], more);
    }
  }

  /** A whole release on the first processor. */
  lemma LookAndPush(s: State, b: R.Addr) returns (run: seq<Label>)
    requires R.WellFormed(s.ring) && s.passed != [] && s.passed[0] == None && R.Next(s.ring, R.Release(b)).Some?
    ensures Execute(s, run) == Some(s.(ring := R.Next(s.ring, R.Release(b)).value))
  {
    if GuardPasses(s.ring) {
      run := [Look(0, b), Push(0)];
      var t := s.(passed := s.passed[0 := Some(b)]);
      assert Next(s, Look(0, b)) == Some(t);
      assert t.passed[0 := None] == s.passed;
      assert run[1..] == [Push(0)] && [Push(0)][1..] == [];
      NextIsWellFormed(t, Push(0));
      assert Execute(t, [Push(0)]) == Next(t, Push(0));
    } else {
      run := [Look(0, b)];
      assert run[1..] == [];
    }
  }

  /** The other way round: every run of whole releases is one of these runs. */
  lemma {:induction false} WholeReleasesAreRuns(s: State, whole: seq<R.Label>) returns (run: seq<Label>)
    requires R.WellFormed(s.ring) && s.passed != [] && s.passed[0] == None && R.Execute(s.ring, whole).Some?
    ensures Execute(s, run) == Some(s.(ring := R.Execute(s.ring, whole).value))
    decreases |whole|
  {
    if whole == [] {
      run := [];
    } else {
      R.NextIsWellFormed(s.ring, whole[0]);
      var t := s.(ring := R.Next(s.ring, whole[0]).value);
      var first := [Other(whole[0])];
      if whole[0].Release? {
        first := LookAndPush(s, whole[0].buf);
      } else {
        assert first[1..] == [];
      }
      var rest := WholeReleasesAreRuns(t, whole[1..]);
      ExecuteConcat(s, first, rest);
      run := first + rest;
    }
  }

  /** With two descriptors or more, the first push behind the array is not stale: the guard lets it pass
      even at that moment, so it is the guard and not its place that fails.  With one descriptor, the
      guard passes exactly if there is a slot. */
  lemma FirstOverrun(s: State)
    requires R.WellFormed(s.ring) && |s.ring.freeStack| <= R.Reserve(s.ring) + 1
    ensures |s.ring.ring| >= 2 ==> GuardPasses(s.ring)
    ensures |s.ring.ring| == 1 ==> (GuardPasses(s.ring) <==> R.HasRoom(s.ring))
  {
  }

  /** Where the place of the guard matters: two processors look while one place of the pool is left, and both
      push, where one step each would have refused the second. */
  lemma TwoLookThenPush(s: State, b: R.Addr, c: R.Addr)
    requires R.WellFormed(s.ring) && |s.ring.freeStack| == R.EDRV_MAX_RX_BUFFERS - 1
    requires |s.passed| >= 2 && s.passed[0] == None && s.passed[1] == None
    requires multiset{b, c} <= s.ring.held
    ensures var run := [Look(0, b), Look(1, c), Push(0)];
            && Execute(s, run).Some?
            && Stale(Execute(s, run).value, Push(1)) && !R.HasRoom(Execute(s, run).value.ring)
            && Next(Execute(s, run).value, Push(1)).Some?
  {
    assert b in multiset{b, c} && c in multiset{b, c} && c in multiset{b, c} - multiset{b};
    var t1 := s.(passed := s.passed[0 := Some(b)]);
    assert Next(s, Look(0, b)) == Some(t1);
    var t2 := t1.(passed := t1.passed[1 := Some(c)]);
    assert Next(t1, Look(1, c)) == Some(t2);
    var t3 := Next(t2, Push(0)).value;
    NextIsWellFormed(t2, Push(0));
    assert c in t3.ring.held;
    assert [Look(0, b), Look(1, c), Push(0)][1..] == [Look(1, c), Push(0)] && [Look(1, c), Push(0)][1..] == [Push(0)];
    assert Execute(t2, [Push(0)]) == Some(t3);
    assert Execute(t1, [Look(1, c), Push(0)]) == Some(t3);
  }

  /** From any start, with a ring of any size, some run comes to that: keep one buffer more than there are,
      return all but two, and let two processors return these at once.  With two descriptors or more the
      array has been overrun by then. */
  lemma StaleGuardOverruns(r: R.State, all: set<R.Addr>, passed: seq<Option<R.Addr>>) returns (run: seq<Label>)
    requires R.Start(r, all) && |passed| >= 2 && passed[0] == None && passed[1] == None
    ensures var s := State(r, passed);
            && Execute(s, run).Some?
            && Stale(Execute(s, run).value, Push(1)) && !R.HasRoom(Execute(s, run).value.ring)
            && Next(Execute(s, run).value, Push(1)).Some?
  {
    var whole, t := KeepAndReturn(r, all);
    var s := State(r, passed);
    var before := WholeReleasesAreRuns(s, whole);
    var b, c := TwoHeld(t.held);
    TwoLookThenPush(State(t, passed), b, c);
    ExecuteConcat(s, before, [Look(0, b), Look(1, c), Push(0)]);
    run := before + [Look(0, b), Look(1, c), Push(0)];
  }

  lemma KeepAndReturn(r: R.State, all: set<R.Addr>) returns (whole: seq<R.Label>, t: R.State)
    requires R.Start(r, all)
    ensures R.Execute(r, whole) == Some(t) && |t.freeStack| == R.EDRV_MAX_RX_BUFFERS - 1 && |t.held| == 2
  {
    R.StartIsConserved(r, all);
    var kept, u := R.KeepMany(r, R.EDRV_MAX_RX_BUFFERS + 1);
    var returned;
    returned, t := R.ReleaseMany(u, R.EDRV_MAX_RX_BUFFERS - 1);
    R.ExecuteConcat(r, kept, returned);
    whole := kept + returned;
  }

  lemma TwoHeld(held: multiset<R.Addr>) returns (b: R.Addr, c: R.Addr)
    requires |held| == 2
    ensures multiset{b, c} <= held
  {
    b := R.SomeHeld(held);
    assert multiset{b} <= held && |held - multiset{b}| == 1;
    c := R.SomeHeld(held - multiset{b});
  }
}
