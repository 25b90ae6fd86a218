/** Buffer locks of the dual-processor library (contrib/dualprocshm/src/dualprocshm-noos.c): taking a
    buffer masks the local interrupts and, for the shared buffers only, spins on the token lock in
    that buffer's header; releasing it does the reverse.  Runs of this system are related, buffer by
    buffer, to runs of the token lock, so that what holds of the lock holds of each shared buffer. */
module DualprocBuffLock {
  import opened Common
  import L = DualprocLock

  const MAX_DYNAMIC_BUFF_COUNT := 15

  type BuffId = id: nat | id < MAX_DYNAMIC_BUFF_COUNT

  /** The buffer IDs for which both acquire and release touch the lock. */
  predicate Shared(id: BuffId) {
    id == 0x0      // kDualprocUsertoKernelQ
    || id == 0x1   // kDualprocKerneltoUserQ
    || id == 0x4   // kDualprocDllCalTxGenQ
    || id == 0x5   // kDualprocDllCalTxNmtQ
    || id == 0x6   // kDualprocDllCalTxSyncQ
    || id == 0xB   // kDualprocErrorHandlerBuff
    || id == 0xC   // kDualprocPdoBuff
  }

  /** Where a processor stands in dualprocshm_acquireBuffLock / dualprocshm_releaseBuffLock. */
  datatype Phase =
    | Idle
    | Masked(id: BuffId)               // interrupts just masked, before the switch over the ID
    | Taking(id: BuffId, lock: L.Pc)   // in the spin loop of the token lock
    | Owning(id: BuffId)
    | Released                         // lock byte given back, interrupts not yet unmasked

  datatype Proc = Proc(irqEnabled: bool, phase: Phase)

  datatype State = State(now: real, locks: seq<L.UInt8>, procs: seq<Proc>)

  datatype Action = Acquire(id: BuffId) | Switch | Spin(access: L.Action) | Release | Unmask

  datatype Label = Label(proc: nat, action: Action, at: real)

  function Init(cfg: L.Config): State {
    State(0.0, seq(MAX_DYNAMIC_BUFF_COUNT, _ => L.DEFAULT_LOCK_ID), seq(|cfg.tokens|, _ => Proc(true, Idle)))
  }

  predicate WellFormed(cfg: L.Config, s: State) {
    |s.locks| == MAX_DYNAMIC_BUFF_COUNT && |s.procs| == |cfg.tokens|
  }

  function Goto(s: State, l: Label, phase: Phase, irqEnabled: bool): State
    requires l.proc < |s.procs|
  {
    s.(now := l.at, procs := s.procs[l.proc := Proc(irqEnabled, phase)])
  }

  function PhaseAt(id: BuffId, pc: L.Pc): Phase {
    match pc
    case Outside => Released
    case Inside => Owning(id)
    case _ => Taking(id, pc)
  }

  /** One access to the token lock in the header of buffer id. */
  function LockTurn(cfg: L.Config, s: State, l: Label, id: BuffId, pc: L.Pc, access: L.Action): Option<State>
    requires WellFormed(cfg, s) && l.proc < |s.procs|
  {
    match L.Turn(cfg, cfg.tokens[l.proc], s.locks[id], pc, access, l.at)
    case None => None
    case Some((pc', lock)) =>
      Some(Goto(s, l, PhaseAt(id, pc'), s.procs[l.proc].irqEnabled)
           .(locks := s.locks[id := lock]))
  }

  function Next(cfg: L.Config, s: State, l: Label): Option<State>
    requires WellFormed(cfg, s)
  {
    if l.proc >= |s.procs| || l.at < s.now then None else
    match (l.action, s.procs[l.proc].phase)
    case (Acquire(id), Idle) => Some(Goto(s, l, Masked(id), false))
    case (Switch, Masked(id)) =>
      if Shared(id) then LockTurn(cfg, s, l, id, L.Outside, L.Call) else Some(Goto(s, l, Owning(id), s.procs[l.proc].irqEnabled))
    case (Spin(access), Taking(id, pc)) =>
      if access.Read? || access.Write? then LockTurn(cfg, s, l, id, pc, access) else None
    case (Release, Owning(id)) =>
      if Shared(id) then LockTurn(cfg, s, l, id, L.Inside, L.Release) else Some(Goto(s, l, Released, s.procs[l.proc].irqEnabled))
    case (Unmask, Released) => Some(Goto(s, l, Idle, true))
    case _ => None
  }

  function Execute(cfg: L.Config, s: State, run: seq<Label>): (r: Option<State>)
    requires WellFormed(cfg, s)
    ensures r.Some? ==> WellFormed(cfg, r.value)
    decreases |run|
  {
    if run == [] then Some(s) else
    match Next(cfg, s, run[0])
    case None => None
    case Some(t) => Execute(cfg, t, run[1..])
  }

  /** How a processor appears to the lock of one buffer. */
  function LockView(phase: Phase, id: BuffId): L.Pc {
    match phase
    case Taking(i, pc) => if i == id then pc else L.Outside
    case Owning(i) => if i == id then L.Inside else L.Outside
    case _ => L.Outside
  }

  function LockViews(s: State, id: BuffId): seq<L.Pc> {
    seq(|s.procs|, p requires 0 <= p < |s.procs| => LockView(s.procs[p].phase, id))
  }

  /** The access to the lock of buffer id that a step makes, if it makes one. */
  function LockLabel(s: State, l: Label, id: BuffId): seq<L.Label>
    requires l.proc < |s.procs|
  {
    match (l.action, s.procs[l.proc].phase)
    case (Switch, Masked(i)) => if i == id then [L.Label(l.proc, L.Call, l.at)] else []
    case (Spin(access), Taking(i, _)) => if i == id then [L.Label(l.proc, access, l.at)] else []
    case (Release, Owning(i)) => if i == id then [L.Label(l.proc, L.Release, l.at)] else []
    case _ => []
  }

  function LockRun(cfg: L.Config, s: State, run: seq<Label>, id: BuffId): seq<L.Label>
    requires WellFormed(cfg, s) && Execute(cfg, s, run).Some?
    decreases |run|
  {
    if run == [] then [] else
    LockLabel(s, run[0], id) + LockRun(cfg, Next(cfg, s, run[0]).value, run[1..], id)
  }

  ghost predicate Refines(s: State, t: L.State, id: BuffId) {
    && |s.locks| == MAX_DYNAMIC_BUFF_COUNT
    && t.now <= s.now
    && t.lock == s.locks[id]
    && t.pcs == LockViews(s, id)
    // a processor at the lock of a buffer is there because the buffer is shared
    && (forall p :: 0 <= p < |s.procs| && s.procs[p].phase.Taking? ==> Shared(s.procs[p].phase.id))
  }

  lemma ViewAfter(s: State, s': State, p: nat, proc: Proc, id: BuffId)
    requires p < |s.procs| && s'.procs == s.procs[p := proc]
    ensures LockViews(s', id) == LockViews(s, id)[p := LockView(proc.phase, id)]
  {
  }

  lemma UnseenChange(s: State, t: L.State, s': State, p: nat, proc: Proc, id: BuffId)
    requires Refines(s, t, id) && p < |s.procs| && s'.procs == s.procs[p := proc]
    requires s.now <= s'.now && |s'.locks| == |s.locks| && s'.locks[id] == s.locks[id]
    requires LockView(proc.phase, id) == LockView(s.procs[p].phase, id)
    requires proc.phase.Taking? ==> Shared(proc.phase.id)
    ensures Refines(s', t, id)
  {
    ViewAfter(s, s', p, proc, id);
    assert LockViews(s, id)[p] == LockView(s.procs[p].phase, id);
  }

  /** A step that leaves the lock of buffer id alone. */
  lemma SilentStep(cfg: L.Config, s: State, t: L.State, l: Label, id: BuffId)
    requires WellFormed(cfg, s) && Shared(id) && Refines(s, t, id) && Next(cfg, s, l).Some?
    requires LockLabel(s, l, id) == []
    ensures Refines(Next(cfg, s, l).value, t, id)
  {
    var s' := Next(cfg, s, l).value;
    UnseenChange(s, t, s', l.proc, s'.procs[l.proc], id);
  }

  /** A step that is an access to the lock of buffer id. */
  lemma AccessStep(cfg: L.Config, s: State, t: L.State, l: Label, id: BuffId)
    requires WellFormed(cfg, s) && Shared(id) && Refines(s, t, id) && Next(cfg, s, l).Some?
    requires LockLabel(s, l, id) != []
    ensures var ls := LockLabel(s, l, id);
            |ls| == 1 && L.Next(cfg, t, ls[0]).Some?
            && Refines(Next(cfg, s, l).value, L.Next(cfg, t, ls[0]).value, id)
  {
    var s' := Next(cfg, s, l).value;
    var a := LockLabel(s, l, id)[0];
    var pc := LockView(s.procs[l.proc].phase, id);
    assert t.pcs[l.proc] == pc;
    assert LockTurn(cfg, s, l, id, pc, a.action) == Some(s');
    ViewAfter(s, s', l.proc, s'.procs[l.proc], id);
  }

  /** Seen from the lock of a shared buffer, every run of the buffer locks is a run of the token lock. */
  lemma {:induction false} BufferRunIsLockRun(cfg: L.Config, s: State, t: L.State, run: seq<Label>, id: BuffId)
    requires WellFormed(cfg, s) && Shared(id) && Refines(s, t, id) && Execute(cfg, s, run).Some?
    ensures L.Execute(cfg, t, LockRun(cfg, s, run, id)).Some?
    ensures Refines(Execute(cfg, s, run).value, L.Execute(cfg, t, LockRun(cfg, s, run, id)).value, id)
    decreases |run|
  {
    if run != [] {
      var s' := Next(cfg, s, run[0]).value;
      var ls := LockLabel(s, run[0], id);
      var rest := LockRun(cfg, s', run[1..], id);
      if ls == [] {
        SilentStep(cfg, s, t, run[0], id);
        BufferRunIsLockRun(cfg, s', t, run[1..], id);
        assert ls + rest == rest;
      } else {
        AccessStep(cfg, s, t, run[0], id);
        BufferRunIsLockRun(cfg, s', L.Next(cfg, t, ls[0]).value, run[1..], id);
        assert (ls + rest)[1..] == rest;
      }
    }
  }

  /** A lock label as calls on one buffer. */
  function BufferLabels(l: L.Label, id: BuffId): seq<Label> {
    match l.action
    case Call => [Label(l.proc, Acquire(id), l.at), Label(l.proc, Switch, l.at)]
    case Read => [Label(l.proc, Spin(l.action), l.at)]
    case Write => [Label(l.proc, Spin(l.action), l.at)]
    case Release => [Label(l.proc, Release, l.at), Label(l.proc, Unmask, l.at)]
  }

  function BufferRun(run: seq<L.Label>, id: BuffId): seq<Label> {
    if run == [] then [] else BufferLabels(run[0], id) + BufferRun(run[1..], id)
  }

  /** Only buffer id is in use, and nobody is between masking and the lock. */
  ghost predicate Embeds(s: State, t: L.State, id: BuffId) {
    && |s.locks| == MAX_DYNAMIC_BUFF_COUNT
    && s.now == t.now && t.lock == s.locks[id] && |t.pcs| == |s.procs|
    && (forall p :: 0 <= p < |s.procs| ==>
          match t.pcs[p]
          case Outside => s.procs[p].phase == Idle
          case Inside => s.procs[p].phase == Owning(id)
          case _ => s.procs[p].phase == Taking(id, t.pcs[p]))
  }

  /** The state after the labels of one lock step. */
  lemma EmbedStep(cfg: L.Config, s: State, t: L.State, l: L.Label, id: BuffId) returns (s': State)
    requires WellFormed(cfg, s) && Shared(id) && Embeds(s, t, id) && L.Next(cfg, t, l).Some?
    ensures WellFormed(cfg, s') && Embeds(s', L.Next(cfg, t, l).value, id)
    ensures var ls := BufferLabels(l, id);
            var s1 := Next(cfg, s, ls[0]);
            s1.Some? && if |ls| == 1 then s1.value == s' else |ls| == 2 && Next(cfg, s1.value, ls[1]) == Some(s')
  {
    var ls := BufferLabels(l, id);
    s' := Next(cfg, s, ls[0]).value;
    if |ls| == 2 {
      s' := Next(cfg, s', ls[1]).value;
    }
  }

  /** Every run of the token lock can happen at the lock of a shared buffer. */
  lemma {:induction false} LockRunIsBufferRun(cfg: L.Config, s: State, t: L.State, run: seq<L.Label>, id: BuffId)
    requires WellFormed(cfg, s) && Shared(id) && Embeds(s, t, id) && L.Execute(cfg, t, run).Some?
    ensures Execute(cfg, s, BufferRun(run, id)).Some?
    ensures Embeds(Execute(cfg, s, BufferRun(run, id)).value, L.Execute(cfg, t, run).value, id)
    decreases |run|
  {
    if run != [] {
      var ls := BufferLabels(run[0], id);
      var rest := BufferRun(run[1..], id);
      var s' := EmbedStep(cfg, s, t, run[0], id);
      LockRunIsBufferRun(cfg, s', L.Next(cfg, t, run[0]).value, run[1..], id);
      assert (ls + rest)[1..] == ls[1..] + rest;
      assert |ls| == 2 ==> (ls[1..] + rest)[1..] == rest;
      assert |ls| == 1 ==> ls[1..] + rest == rest;
      assert Execute(cfg, s, ls + rest) == Execute(cfg, s', rest);
    }
  }

  ghost predicate OneOwner(s: State, id: BuffId) {
    forall p, q | 0 <= p < |s.procs| && 0 <= q < |s.procs| ::
      s.procs[p].phase == Owning(id) && s.procs[q].phase == Owning(id) ==> p == q
  }

  ghost predicate OneOwnerInEveryRun(cfg: L.Config, id: BuffId) {
    forall run :: Execute(cfg, Init(cfg), run).Some? ==> OneOwner(Execute(cfg, Init(cfg), run).value, id)
  }

  /** Nothing excludes anybody from a buffer whose ID the switch does not list. */
  lemma UnsharedBufferFails(cfg: L.Config, id: BuffId)
    requires |cfg.tokens| >= 2 && !Shared(id)
    ensures !OneOwnerInEveryRun(cfg, id)
  {
    var l0, l1 := Label(0, Acquire(id), 0.0), Label(0, Switch, 0.0);
    var l2, l3 := Label(1, Acquire(id), 0.0), Label(1, Switch, 0.0);
    var s0 := Init(cfg);
    var s1 := Next(cfg, s0, l0).value;
    var s2 := Next(cfg, s1, l1).value;
    var s3 := Next(cfg, s2, l2).value;
    var s4 := Next(cfg, s3, l3).value;
    assert Execute(cfg, s4, []) == Some(s4);
    assert [l3][1..] == [] && Execute(cfg, s3, [l3]) == Some(s4);
    assert [l2, l3][1..] == [l3] && Execute(cfg, s2, [l2, l3]) == Some(s4);
    assert [l1, l2, l3][1..] == [l2, l3] && Execute(cfg, s1, [l1, l2, l3]) == Some(s4);
    assert [l0, l1, l2, l3][1..] == [l1, l2, l3] && Execute(cfg, s0, [l0, l1, l2, l3]) == Some(s4);
    assert s4.procs[0].phase == Owning(id) && s4.procs[1].phase == Owning(id);
  }

  /** Main result: a buffer has at most one owner in every run exactly when it is a shared one, the
      tokens are good and the lock's timing condition holds. */
  lemma BufferIsExclusiveExactlyWhen(cfg: L.Config, id: BuffId)
    requires L.ValidConfig(cfg) && |cfg.tokens| >= 2
    ensures OneOwnerInEveryRun(cfg, id)
       <==> id in {0x0, 0x1, 0x4, 0x5, 0x6, 0xB, 0xC} && L.GoodTokens(cfg) && cfg.writeWithin < cfg.rereadAfter
  {
    if !Shared(id) {
      UnsharedBufferFails(cfg, id);
    } else {
      L.LockIsSafeExactlyWhen(cfg);
      if L.ExclusiveInEveryRun(cfg) {
        forall run | Execute(cfg, Init(cfg), run).Some?
          ensures OneOwner(Execute(cfg, Init(cfg), run).value, id)
        {
          BufferRunIsLockRun(cfg, Init(cfg), L.Init(cfg), run, id);
          var s := Execute(cfg, Init(cfg), run).value;
          var t := L.Execute(cfg, L.Init(cfg), LockRun(cfg, Init(cfg), run, id)).value;
          assert forall p :: 0 <= p < |s.procs| ==> t.pcs[p] == LockView(s.procs[p].phase, id);
        }
      } else {
        var run :| L.Execute(cfg, L.Init(cfg), run).Some?
                   && !L.MutualExclusion(L.Execute(cfg, L.Init(cfg), run).value);
        LockRunIsBufferRun(cfg, Init(cfg), L.Init(cfg), run, id);
        var t := L.Execute(cfg, L.Init(cfg), run).value;
        var p, q :| 0 <= p < |t.pcs| && 0 <= q < |t.pcs| && t.pcs[p].Inside? && t.pcs[q].Inside? && p != q;
        var s := Execute(cfg, Init(cfg), BufferRun(run, id)).value;
        assert s.procs[p].phase == Owning(id) && s.procs[q].phase == Owning(id);
      }
    }
  }

  /** Under those conditions the lock byte of every shared buffer names its owner, and is the default
      ID whenever no processor owns the buffer or spins on it. */
  lemma LockBytesInEveryRun(cfg: L.Config, run: seq<Label>, id: BuffId)
    requires L.ValidConfig(cfg) && L.GoodTokens(cfg) && cfg.writeWithin < cfg.rereadAfter && Shared(id)
    requires Execute(cfg, Init(cfg), run).Some?
    ensures var s := Execute(cfg, Init(cfg), run).value;
            && (forall p :: 0 <= p < |s.procs| && s.procs[p].phase == Owning(id) ==> s.locks[id] == cfg.tokens[p])
            && ((forall p :: 0 <= p < |s.procs| ==> LockView(s.procs[p].phase, id) == L.Outside)
                ==> s.locks[id] == L.DEFAULT_LOCK_ID)
  {
    L.TimelyTokensAreSafe(cfg);
    BufferRunIsLockRun(cfg, Init(cfg), L.Init(cfg), run, id);
    var s := Execute(cfg, Init(cfg), run).value;
    var t := L.Execute(cfg, L.Init(cfg), LockRun(cfg, Init(cfg), run, id)).value;
    assert forall p :: 0 <= p < |s.procs| ==> t.pcs[p] == LockView(s.procs[p].phase, id);
  }

  /** Interrupts are masked on exactly the processors that are somewhere between an acquire call and
      the end of the matching release, whatever the timing, the tokens and the buffer. */
  lemma {:induction false} MaskedThroughoutSection(cfg: L.Config, s: State, run: seq<Label>)
    requires WellFormed(cfg, s) && Execute(cfg, s, run).Some?
    requires forall p :: 0 <= p < |s.procs| ==> (s.procs[p].irqEnabled <==> s.procs[p].phase == Idle)
    ensures var t := Execute(cfg, s, run).value;
            forall p :: 0 <= p < |t.procs| ==> (t.procs[p].irqEnabled <==> t.procs[p].phase == Idle)
    decreases |run|
  {
    if run != [] {
      MaskedThroughoutSection(cfg, Next(cfg, s, run[0]).value, run[1..]);
    }
  }

  /** Who owns a buffer, shared or not, can give it back at any time: that leaves the processor idle with its
      interrupts on, the lock byte of a shared buffer free, and everything else as it was. */
  lemma OwnerCanRelease(cfg: L.Config, s: State, p: nat, id: BuffId, at: real)
    requires WellFormed(cfg, s) && p < |s.procs| && s.procs[p].phase == Owning(id) && s.now <= at
    ensures Execute(cfg, s, [Label(p, Release, at), Label(p, Unmask, at)])
         == Some(State(at, if id in {0x0, 0x1, 0x4, 0x5, 0x6, 0xB, 0xC} then s.locks[id := L.DEFAULT_LOCK_ID] else s.locks,
                       s.procs[p := Proc(true, Idle)]))
  {
    var release, unmask := Label(p, Release, at), Label(p, Unmask, at);
    var t := Next(cfg, s, release).value;
    var u := Next(cfg, t, unmask).value;
    assert u.procs == s.procs[p := Proc(true, Idle)];
    assert [release, unmask][1..] == [unmask] && [unmask][1..] == [];
    assert Execute(cfg, t, [unmask]) == Some(u);
  }

  /** Who is idle can always ask for a buffer: with interrupts masked it owns an unshared one at once, and
      starts to read the lock byte of a shared one. */
  lemma IdleCanAcquire(cfg: L.Config, s: State, p: nat, id: BuffId, at: real)
    requires WellFormed(cfg, s) && p < |s.procs| && s.procs[p].phase == Idle && s.now <= at
    ensures Execute(cfg, s, [Label(p, Acquire(id), at), Label(p, Switch, at)])
         == Some(State(at, s.locks, s.procs[p := Proc(false, if id in {0x0, 0x1, 0x4, 0x5, 0x6, 0xB, 0xC}
                                                         then Taking(id, L.AtRead(at)) else Owning(id))]))
  {
    var acquire, switch := Label(p, Acquire(id), at), Label(p, Switch, at);
    var t := Next(cfg, s, acquire).value;
    var u := Next(cfg, t, switch).value;
    assert u.procs == s.procs[p := u.procs[p]] && u.locks == s.locks;
    assert [acquire, switch][1..] == [switch] && [switch][1..] == [];
    assert Execute(cfg, t, [switch]) == Some(u);
  }
}
