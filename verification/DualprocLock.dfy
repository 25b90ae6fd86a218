/** The token lock of the dual-processor library (contrib/dualprocshm/src/dualprocshm-zynq.c).

    Acquiring a lock is: read the lock byte; if it is the default ID, write the own token, and
    read again; leave the loop when the byte read is the own token.  This is safe only under a
    timing condition, so the protocol is a timed transition system over any number of processors.
    A run is a list of labels, each naming a processor, the access it makes and the time of it. */
module DualprocLock {
  import opened Common

  type UInt8 = n: nat | n < 0x100

  const DEFAULT_LOCK_ID: UInt8 := 0x00

  /** What the spin loop does next. */
  datatype Control = ReadAgain | WriteToken | Leave

  /** Control flow after `lock = DPSHM_READ8(...)` returned seen. */
  function AfterRead(seen: UInt8, token: UInt8): Control {
    if seen == DEFAULT_LOCK_ID then WriteToken
    else if seen == token then Leave
    else ReadAgain
  }

  /** Control flow after the token was written: `continue` still evaluates `lock != lockToken_p`,
      and lock holds the default ID at that point. */
  function AfterWrite(token: UInt8): Control {
    if DEFAULT_LOCK_ID != token then ReadAgain else Leave
  }

  /** One access of the loop to the shared byte. */
  datatype Access = Saw(byte: UInt8) | Wrote

  /** The accesses of a processor whose reads return the bytes of seen one after the other, and
      whether it left the loop before they ran out. */
  function LoopAccesses(seen: seq<UInt8>, token: UInt8): (seq<Access>, bool) {
    if seen == [] then ([], false)
    else match AfterRead(seen[0], token)
      case Leave => ([Saw(seen[0])], true)
      case ReadAgain =>
        var (rest, left) := LoopAccesses(seen[1..], token);
        ([Saw(seen[0])] + rest, left)
      case WriteToken =>
        if AfterWrite(token) == Leave then ([Saw(seen[0]), Wrote], true) else
        var (rest, left) := LoopAccesses(seen[1..], token);
        ([Saw(seen[0]), Wrote] + rest, left)
  }

  /** The spin loop itself, run against whatever bytes the other processors let it see. */
  method TargetAcquireLock(seen: seq<UInt8>, lockToken: UInt8) returns (accesses: seq<Access>, acquired: bool)
    ensures accesses == LoopAccesses(seen, lockToken).0
    ensures acquired == LoopAccesses(seen, lockToken).1
  {
    accesses, acquired := [], false;
    var unread := seen;
    while unread != []
      invariant !acquired
      invariant LoopAccesses(seen, lockToken).0 == accesses + LoopAccesses(unread, lockToken).0
      invariant LoopAccesses(seen, lockToken).1 == LoopAccesses(unread, lockToken).1
      decreases |unread|
    {
      var lock := unread[0];
      unread := unread[1..];
      accesses := accesses + [Saw(lock)];
      if lock == DEFAULT_LOCK_ID {
        accesses := accesses + [Wrote];
      }
      if lock == lockToken {
        return accesses, true;
      }
    }
  }

  /** Where a processor stands.  A read may happen no earlier than notBefore (the barrier and the
      cache maintenance after a write); a write must happen no later than its deadline. */
  datatype Pc = Outside | AtRead(notBefore: real) | AtWrite(deadline: real) | Inside

  /** Token of each processor, longest delay from a read of the default ID to the write that
      follows it, shortest delay from a write to the next read of the same processor. */
  datatype Config = Config(tokens: seq<UInt8>, writeWithin: real, rereadAfter: real)

  datatype State = State(now: real, lock: UInt8, pcs: seq<Pc>)

  datatype Action = Call | Read | Write | Release

  datatype Label = Label(proc: nat, action: Action, at: real)

  predicate ValidConfig(cfg: Config) {
    && 0.0 <= cfg.writeWithin
    && 0.0 <= cfg.rereadAfter
  }

  function Init(cfg: Config): State {
    State(0.0, DEFAULT_LOCK_ID, seq(|cfg.tokens|, _ => Outside))
  }

  /** One access of a processor standing at pc while the byte is lock: where it stands afterwards and
      what the byte is. */
  function Turn(cfg: Config, token: UInt8, lock: UInt8, pc: Pc, action: Action, at: real): Option<(Pc, UInt8)> {
    match (action, pc)
    case (Call, Outside) => Some((AtRead(at), lock))
    case (Read, AtRead(notBefore)) =>
      if at < notBefore then None
      else (match AfterRead(lock, token)
            case ReadAgain => Some((AtRead(at), lock))
            case WriteToken => Some((AtWrite(at + cfg.writeWithin), lock))
            case Leave => Some((Inside, lock)))
    case (Write, AtWrite(deadline)) =>
      if deadline < at then None
      else Some((if AfterWrite(token) == Leave then Inside else AtRead(at + cfg.rereadAfter), token))
    case (Release, Inside) => Some((Outside, DEFAULT_LOCK_ID))
    case _ => None
  }

  function Next(cfg: Config, s: State, l: Label): Option<State> {
    if l.proc >= |s.pcs| || l.proc >= |cfg.tokens| || l.at < s.now then None else
    match Turn(cfg, cfg.tokens[l.proc], s.lock, s.pcs[l.proc], l.action, l.at)
    case None => None
    case Some((pc, lock)) => Some(State(l.at, lock, s.pcs[l.proc := pc]))
  }

  function Execute(cfg: Config, s: State, run: seq<Label>): Option<State>
    decreases |run|
  {
    if run == [] then Some(s) else
    match Next(cfg, s, run[0])
    case None => None
    case Some(t) => Execute(cfg, t, run[1..])
  }

  /** What processor p has read and done since it last entered the acquire routine. */
  datatype Visit = Visit(seen: seq<UInt8>, accesses: seq<Access>)

  function Follow(cfg: Config, s: State, run: seq<Label>, p: nat, v: Visit): Visit
    requires Execute(cfg, s, run).Some?
    decreases |run|
  {
    if run == [] then v else
    Follow(cfg, Next(cfg, s, run[0]).value, run[1..], p,
           if run[0].proc != p then v
           else match run[0].action
             case Call => Visit([], [])
             case Read => Visit(v.seen + [s.lock], v.accesses + [Saw(s.lock)])
             case Write => v.(accesses := v.accesses + [Wrote])
             case Release => v)
  }

  /** A visit that agrees with the spin loop and with the place the processor is at. */
  ghost predicate FollowsLoop(token: UInt8, pc: Pc, v: Visit) {
    var (accesses, left) := LoopAccesses(v.seen, token);
    match pc
    case Outside => true
    case AtRead(_) => v.accesses == accesses && !left
    case AtWrite(_) => v.accesses + [Wrote] == accesses && (left <==> AfterWrite(token) == Leave)
    case Inside => v.accesses == accesses && left
  }

  lemma {:induction false} LoopAccessesSnoc(seen: seq<UInt8>, b: UInt8, token: UInt8)
    requires !LoopAccesses(seen, token).1
    ensures LoopAccesses(seen + [b], token).0 == LoopAccesses(seen, token).0 + LoopAccesses([b], token).0
    ensures LoopAccesses(seen + [b], token).1 == LoopAccesses([b], token).1
    decreases |seen|
  {
    if seen == [] {
      assert seen + [b] == [b];
    } else {
      assert (seen + [b])[1..] == seen[1..] + [b];
      LoopAccessesSnoc(seen[1..], b, token);
    }
  }

  /** In every run each processor makes exactly the accesses its spin loop makes on the bytes it saw,
      and is inside exactly when that loop has been left. */
  lemma {:induction false} ProcessorFollowsLoop(cfg: Config, s: State, run: seq<Label>, p: nat, v: Visit)
    requires p < |s.pcs| == |cfg.tokens| && Execute(cfg, s, run).Some?
    requires FollowsLoop(cfg.tokens[p], s.pcs[p], v)
    ensures p < |Execute(cfg, s, run).value.pcs|
    ensures FollowsLoop(cfg.tokens[p], Execute(cfg, s, run).value.pcs[p], Follow(cfg, s, run, p, v))
    decreases |run|
  {
    if run != [] {
      var l := run[0];
      var t := Next(cfg, s, l).value;
      var w := if l.proc != p then v
               else match l.action
                 case Call => Visit([], [])
                 case Read => Visit(v.seen + [s.lock], v.accesses + [Saw(s.lock)])
                 case Write => v.(accesses := v.accesses + [Wrote])
                 case Release => v;
      if l.proc == p && l.action.Read? {
        LoopAccessesSnoc(v.seen, s.lock, cfg.tokens[p]);
        assert v.accesses + [Saw(s.lock), Wrote] == w.accesses + [Wrote];
      }
      ProcessorFollowsLoop(cfg, t, run[1..], p, w);
    }
  }

  ghost predicate MutualExclusion(s: State) {
    forall p, q :: 0 <= p < |s.pcs| && 0 <= q < |s.pcs| && s.pcs[p].Inside? && s.pcs[q].Inside? ==> p == q
  }

  ghost predicate GoodTokens(cfg: Config) {
    && (forall p :: 0 <= p < |cfg.tokens| ==> cfg.tokens[p] != DEFAULT_LOCK_ID)
    && (forall p, q :: 0 <= p < q < |cfg.tokens| ==> cfg.tokens[p] != cfg.tokens[q])
  }

  /** Everything a lock is for: one holder, whose token is in the byte; the byte is the default ID
      whenever nobody holds or tries to get the lock; and it never names a processor that does not. */
  ghost predicate Safe(cfg: Config, s: State) {
    && |s.pcs| == |cfg.tokens|
    && MutualExclusion(s)
    && (forall p :: 0 <= p < |s.pcs| && s.pcs[p].Inside? ==> s.lock == cfg.tokens[p])
    && ((forall p :: 0 <= p < |s.pcs| ==> s.pcs[p].Outside?) ==> s.lock == DEFAULT_LOCK_ID)
    && (forall p :: 0 <= p < |s.pcs| && s.pcs[p].Outside? ==> s.lock != cfg.tokens[p])
  }

  /** The inductive invariant.  A write whose deadline has passed cannot happen any more, so a
      confirming read is safe once it comes after every deadline still pending. */
  ghost predicate Inv(cfg: Config, s: State) {
    && |s.pcs| == |cfg.tokens|
    && (s.lock == DEFAULT_LOCK_ID || exists p :: 0 <= p < |s.pcs| && s.lock == cfg.tokens[p])
    && (forall p :: 0 <= p < |s.pcs| && s.lock == cfg.tokens[p] ==> s.pcs[p].AtRead? || s.pcs[p].Inside?)
    && (forall p :: 0 <= p < |s.pcs| && s.pcs[p].Inside? ==> s.lock == cfg.tokens[p])
    && (forall q :: 0 <= q < |s.pcs| && s.pcs[q].AtWrite? ==> s.pcs[q].deadline <= s.now + cfg.writeWithin)
    && (forall p, q :: 0 <= p < |s.pcs| && 0 <= q < |s.pcs| && s.pcs[p].Inside? && s.pcs[q].AtWrite?
          ==> s.pcs[q].deadline < s.now)
    && (forall p, q :: 0 <= p < |s.pcs| && 0 <= q < |s.pcs| && s.lock == cfg.tokens[p] && s.pcs[p].AtRead?
                       && s.pcs[q].AtWrite?
          ==> s.pcs[q].deadline < s.pcs[p].notBefore)
  }

  lemma InvStep(cfg: Config, s: State, l: Label)
    requires ValidConfig(cfg) && GoodTokens(cfg) && cfg.writeWithin < cfg.rereadAfter
    requires Inv(cfg, s) && Next(cfg, s, l).Some?
    ensures Inv(cfg, Next(cfg, s, l).value)
  {
    var t := Next(cfg, s, l).value;
    assert forall p :: 0 <= p < |s.pcs| && p != l.proc ==> t.pcs[p] == s.pcs[p];
    if l.action.Write? {
      assert t.lock == cfg.tokens[l.proc];
    }
  }

  lemma InvGivesSafe(cfg: Config, s: State)
    requires GoodTokens(cfg) && Inv(cfg, s)
    ensures Safe(cfg, s)
  {
  }

  lemma {:induction false} InvRun(cfg: Config, s: State, run: seq<Label>)
    requires ValidConfig(cfg) && GoodTokens(cfg) && cfg.writeWithin < cfg.rereadAfter
    requires Inv(cfg, s) && Execute(cfg, s, run).Some?
    ensures Inv(cfg, Execute(cfg, s, run).value)
    decreases |run|
  {
    if run != [] {
      InvStep(cfg, s, run[0]);
      InvRun(cfg, Next(cfg, s, run[0]).value, run[1..]);
    }
  }

  ghost predicate SafeInEveryRun(cfg: Config) {
    forall run :: Execute(cfg, Init(cfg), run).Some? ==> Safe(cfg, Execute(cfg, Init(cfg), run).value)
  }

  ghost predicate ExclusiveInEveryRun(cfg: Config) {
    forall run :: Execute(cfg, Init(cfg), run).Some? ==> MutualExclusion(Execute(cfg, Init(cfg), run).value)
  }

  lemma TimelyTokensAreSafe(cfg: Config)
    requires ValidConfig(cfg) && GoodTokens(cfg) && cfg.writeWithin < cfg.rereadAfter
    ensures SafeInEveryRun(cfg)
  {
    forall run | Execute(cfg, Init(cfg), run).Some?
      ensures Safe(cfg, Execute(cfg, Init(cfg), run).value)
    {
      InvRun(cfg, Init(cfg), run);
      InvGivesSafe(cfg, Execute(cfg, Init(cfg), run).value);
    }
  }

  /** Appending one label to a run; used to build the counterexamples. */
  lemma {:induction false} ExecuteSnoc(cfg: Config, s: State, run: seq<Label>, l: Label)
    requires Execute(cfg, s, run).Some?
    ensures Execute(cfg, s, run + [l]) == Next(cfg, Execute(cfg, s, run).value, l)
    decreases |run|
  {
    if run == [] {
      assert run + [l] == [l];
      var n := Next(cfg, s, l);
      assert n.Some? ==> Execute(cfg, n.value, [l][1..]) == n;
    } else {
      assert (run + [l])[1..] == run[1..] + [l];
      ExecuteSnoc(cfg, Next(cfg, s, run[0]).value, run[1..], l);
    }
  }

  /** From an outside processor that sees the default ID at a time: call, read and write. */
  lemma RunToWrite(cfg: Config, run: seq<Label>, p: nat, at: real) returns (more: seq<Label>)
    requires ValidConfig(cfg) && p < |cfg.tokens|
    requires Execute(cfg, Init(cfg), run).Some?
    requires var s := Execute(cfg, Init(cfg), run).value;
             |s.pcs| == |cfg.tokens| && s.pcs[p].Outside? && s.now <= at && s.lock == DEFAULT_LOCK_ID
    ensures Execute(cfg, Init(cfg), more)
         == Some(State(at, cfg.tokens[p],
                       Execute(cfg, Init(cfg), run).value.pcs
                         [p := if cfg.tokens[p] == DEFAULT_LOCK_ID then Inside else AtRead(at + cfg.rereadAfter)]))
  {
    var s := Execute(cfg, Init(cfg), run).value;
    ExecuteSnoc(cfg, Init(cfg), run, Label(p, Call, at));
    var r1 := run + [Label(p, Call, at)];
    ExecuteSnoc(cfg, Init(cfg), r1, Label(p, Read, at));
    var r2 := r1 + [Label(p, Read, at)];
    ExecuteSnoc(cfg, Init(cfg), r2, Label(p, Write, at));
    more := r2 + [Label(p, Write, at)];
    var s1, s2, s3 := Execute(cfg, Init(cfg), r1).value, Execute(cfg, Init(cfg), r2).value, Execute(cfg, Init(cfg), more).value;
    assert s2.pcs == s.pcs[p := s2.pcs[p]];
    assert s3.pcs == s.pcs[p := s3.pcs[p]];
  }

  /** A processor whose token is already in the byte gets in with its next read. */
  lemma RunRead(cfg: Config, run: seq<Label>, p: nat, at: real) returns (more: seq<Label>)
    requires ValidConfig(cfg) && p < |cfg.tokens| && cfg.tokens[p] != DEFAULT_LOCK_ID
    requires Execute(cfg, Init(cfg), run).Some?
    requires var s := Execute(cfg, Init(cfg), run).value;
             |s.pcs| == |cfg.tokens| && s.now <= at && s.lock == cfg.tokens[p]
             && (s.pcs[p].Outside? || (s.pcs[p].AtRead? && s.pcs[p].notBefore <= at))
    ensures var s := Execute(cfg, Init(cfg), run).value;
            Execute(cfg, Init(cfg), more) == Some(State(at, s.lock, s.pcs[p := Inside]))
  {
    more := run;
    var s := Execute(cfg, Init(cfg), run).value;
    if s.pcs[p].Outside? {
      ExecuteSnoc(cfg, Init(cfg), more, Label(p, Call, at));
      more := more + [Label(p, Call, at)];
    }
    ExecuteSnoc(cfg, Init(cfg), more, Label(p, Read, at));
    more := more + [Label(p, Read, at)];
    assert Execute(cfg, Init(cfg), more).value.pcs == s.pcs[p := Inside];
  }

  /** A processor whose token is the default ID shuts nobody out. */
  lemma DefaultTokenFails(cfg: Config, p: nat, q: nat)
    requires ValidConfig(cfg) && p < |cfg.tokens| && q < |cfg.tokens| && p != q
    requires cfg.tokens[p] == DEFAULT_LOCK_ID
    ensures !ExclusiveInEveryRun(cfg)
  {
    var run := RunToWrite(cfg, [], p, 0.0);
    run := RunToWrite(cfg, run, q, 0.0);
    if cfg.tokens[q] != DEFAULT_LOCK_ID {
      run := RunRead(cfg, run, q, cfg.rereadAfter);
    }
    var s := Execute(cfg, Init(cfg), run).value;
    assert s.pcs[p].Inside? && s.pcs[q].Inside?;
  }

  /** Two processors with one token both take the byte for their own. */
  lemma SharedTokenFails(cfg: Config, p: nat, q: nat)
    requires ValidConfig(cfg) && p < |cfg.tokens| && q < |cfg.tokens| && p != q
    requires cfg.tokens[p] == cfg.tokens[q] != DEFAULT_LOCK_ID
    ensures !ExclusiveInEveryRun(cfg)
  {
    var run := RunToWrite(cfg, [], p, 0.0);
    run := RunRead(cfg, run, p, cfg.rereadAfter);
    run := RunRead(cfg, run, q, cfg.rereadAfter);
    var s := Execute(cfg, Init(cfg), run).value;
    assert s.pcs[p].Inside? && s.pcs[q].Inside?;
  }

  /** If a confirming read may come before a pending write, both processors get in. */
  lemma LateWriteFails(cfg: Config, p: nat, q: nat)
    requires ValidConfig(cfg) && GoodTokens(cfg) && p < |cfg.tokens| && q < |cfg.tokens| && p != q
    requires cfg.rereadAfter <= cfg.writeWithin
    ensures !ExclusiveInEveryRun(cfg)
  {
    var e := cfg.rereadAfter;
    ExecuteSnoc(cfg, Init(cfg), [], Label(q, Call, 0.0));
    var run := [] + [Label(q, Call, 0.0)];
    ExecuteSnoc(cfg, Init(cfg), run, Label(q, Read, 0.0));
    run := run + [Label(q, Read, 0.0)];
    run := RunToWrite(cfg, run, p, 0.0);
    run := RunRead(cfg, run, p, e);
    ExecuteSnoc(cfg, Init(cfg), run, Label(q, Write, e));
    run := run + [Label(q, Write, e)];
    run := RunRead(cfg, run, q, e + e);
    var s := Execute(cfg, Init(cfg), run).value;
    assert s.pcs[p].Inside? && s.pcs[q].Inside?;
  }

  /** Main result: with two processors or more, the lock is exclusive in every run exactly when the
      tokens are distinct and not the default ID and every pending write comes before every
      confirming read; and then everything in Safe holds in every run. */
  lemma LockIsSafeExactlyWhen(cfg: Config)
    requires ValidConfig(cfg) && |cfg.tokens| >= 2
    ensures ExclusiveInEveryRun(cfg) <==> GoodTokens(cfg) && cfg.writeWithin < cfg.rereadAfter
    ensures ExclusiveInEveryRun(cfg) <==> SafeInEveryRun(cfg)
  {
    if GoodTokens(cfg) && cfg.writeWithin < cfg.rereadAfter {
      TimelyTokensAreSafe(cfg);
    } else if GoodTokens(cfg) {
      LateWriteFails(cfg, 0, 1);
    } else if p :| 0 <= p < |cfg.tokens| && cfg.tokens[p] == DEFAULT_LOCK_ID {
      DefaultTokenFails(cfg, p, if p == 0 then 1 else 0);
    } else {
      var p, q :| 0 <= p < q < |cfg.tokens| && cfg.tokens[p] == cfg.tokens[q];
      SharedTokenFails(cfg, p, q);
    }
    if SafeInEveryRun(cfg) {
      assert ExclusiveInEveryRun(cfg);
    }
  }

  /** The spin loop itself takes no time: who sees another processor's token may read again at once, as often
      as it likes, and gets no further while the token is there. */
  lemma {:induction false} SpinsFreely(cfg: Config, s: State, p: nat, n: nat, at: real) returns (run: seq<Label>)
    requires p < |cfg.tokens| && p < |s.pcs| && s.pcs[p].AtRead? && s.pcs[p].notBefore <= at && s.now <= at
    requires s.lock != DEFAULT_LOCK_ID && s.lock != cfg.tokens[p]
    ensures |run| == n && (forall i :: 0 <= i < n ==> run[i] == Label(p, Read, at))
    ensures n > 0 ==> Execute(cfg, s, run) == Some(State(at, s.lock, s.pcs[p := AtRead(at)]))
    decreases n
  {
    if n == 0 {
      run := [];
    } else {
      var l := Label(p, Read, at);
      var t := State(at, s.lock, s.pcs[p := AtRead(at)]);
      assert Next(cfg, s, l) == Some(t);
      var more := SpinsFreely(cfg, t, p, n - 1, at);
      run := [l] + more;
      assert run[1..] == more && t.pcs[p := AtRead(at)] == t.pcs;
    }
  }
}
