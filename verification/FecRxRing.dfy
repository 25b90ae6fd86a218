/** The receive ring of the FEC driver (staging/edrv/EdrvFec.c): descriptors that own a buffer each, a
    stack of free buffers, and an upper layer that may keep a received buffer and return it later,
    from another processor even before its handler has returned. */
module FecRxRing {
  import opened Common

  const EDRV_MAX_RX_BUFFERS := 256

  const BD_ENET_RX_EMPTY: bv16 := 0x8000
  const BD_ENET_RX_WRAP: bv16 := 0x2000
  const BD_ENET_RX_CL: bv16 := 0x0001
  const BD_ENET_RX_STATS: bv16 := 0x013f

  type Addr = int

  /** What the controller stores: the contents, and the length it writes to the descriptor, which counts the
      four bytes of the frame check sequence. */
  datatype Frame = Frame(data: nat, datlen: nat)

  /** What the Rx handler is given. */
  datatype Received = Received(data: nat, msgLen: nat)

  /** `pkt_len - 4`, in 32 bits */
  function Handed(f: Frame): Received {
    Received(f.data, (f.datlen + 0xFFFF_FFFC) % 0x1_0000_0000)
  }

  const NO_FRAME := Frame(0, 0)

  /** A descriptor, its buffer and the frame the controller last wrote there. */
  datatype Descriptor = Descriptor(sc: bv16, buf: Addr, frame: Frame)

  predicate Empty(sc: bv16) {
    sc & BD_ENET_RX_EMPTY != 0
  }

  predicate Wraps(sc: bv16) {
    sc & BD_ENET_RX_WRAP != 0
  }

  /** A late collision: the frame is dropped. */
  predicate Collided(sc: bv16) {
    sc & BD_ENET_RX_CL != 0
  }

  /** The status word the controller leaves with a frame, stats being arbitrary. */
  function FilledStatus(sc: bv16, stats: bv16): (r: bv16)
    ensures !Empty(r) && (Wraps(r) <==> Wraps(sc)) && (Collided(r) <==> Collided(stats))
  {
    (sc & BD_ENET_RX_WRAP) | (stats & !BD_ENET_RX_WRAP & !BD_ENET_RX_EMPTY)
  }

  /** The status word with which the driver gives the descriptor back. */
  function EmptiedStatus(sc: bv16): (r: bv16)
    ensures Empty(r) && (Wraps(r) <==> Wraps(sc)) && r & BD_ENET_RX_STATS == 0
  {
    (sc & !BD_ENET_RX_STATS) | BD_ENET_RX_EMPTY
  }

  /** Where the interrupt stands with the descriptor at cur_rx.  Handling: inside the Rx handler, whose
      answer will be to keep the buffer or not.  Swapping: the handler answered "later" and the stack
      was found not empty, but the free buffer has not been popped yet. */
  datatype Phase = Polling | Handling(keep: bool) | Swapping

  datatype State = State(ring: seq<Descriptor>, curRx: nat, freeStack: seq<Addr>, held: multiset<Addr>, phase: Phase,
                         filled: seq<(Frame, bool)>, done: nat, delivered: seq<Received>)

  predicate WellFormed(s: State) {
    && 0 < |s.ring| < EDRV_MAX_RX_BUFFERS
    && s.curRx < |s.ring|
    && s.done <= |s.filled| <= s.done + |s.ring|
    && (s.phase != Polling ==> s.done < |s.filled|)
    && (forall i :: 0 <= i < |s.ring| ==> (Wraps(s.ring[i].sc) <==> i == |s.ring| - 1))
  }

  /** Number of buffers that are not in the ring at the start. */
  function Reserve(s: State): nat
    requires WellFormed(s)
  {
    EDRV_MAX_RX_BUFFERS - |s.ring|
  }

  /** The descriptor the controller fills next. */
  function HwPos(s: State): nat
    requires WellFormed(s)
  {
    var i := s.curRx + (|s.filled| - s.done);
    if i < |s.ring| then i else i - |s.ring|
  }

  /** The interrupt is through with its descriptor: mark it empty and go on to the next. */
  function Finish(s: State, buf: Addr): State
    requires WellFormed(s)
  {
    var d := s.ring[s.curRx];
    s.(ring := s.ring[s.curRx := Descriptor(EmptiedStatus(d.sc), buf, d.frame)],
       curRx := if Wraps(d.sc) then 0 else s.curRx + 1,
       phase := Polling,
       done := s.done + 1)
  }

  datatype Label =
    | Fill(frame: Frame, stats: bv16)  // the controller writes a frame to the next descriptor
    | Deliver(keep: bool)              // the interrupt calls the Rx handler
    | Drop                             // the interrupt skips a frame with a late collision
    | Return                           // the handler returns
    | Swap                             // a free buffer replaces the kept one
    | Release(buf: Addr)               // EdrvReleaseRxBuffer, on any processor

  function Next(s: State, l: Label): Option<State>
    requires WellFormed(s)
  {
    match l
    case Fill(frame, stats) =>
      var i := HwPos(s);
      if |s.filled| < s.done + |s.ring| && Empty(s.ring[i].sc)
      then Some(s.(ring := s.ring[i := s.ring[i].(sc := FilledStatus(s.ring[i].sc, stats), frame := frame)],
                   filled := s.filled + [(frame, Collided(stats))]))
      else None
    case Deliver(keep) =>
      var d := s.ring[s.curRx];
      if s.phase == Polling && s.done < |s.filled| && !Empty(d.sc) && !Collided(d.sc)
      then Some(s.(phase := Handling(keep), delivered := s.delivered + [Handed(d.frame)],
                   held := if keep then s.held + multiset{d.buf} else s.held))
      else None
    case Drop =>
      var d := s.ring[s.curRx];
      if s.phase == Polling && s.done < |s.filled| && !Empty(d.sc) && Collided(d.sc)
      then Some(Finish(s, d.buf)) else None
    case Return =>
      if !s.phase.Handling? then None
      else if s.phase.keep && |s.freeStack| > 0 then Some(s.(phase := Swapping))
      else Some(Finish(s, s.ring[s.curRx].buf))
    case Swap =>
      if s.phase == Swapping && |s.freeStack| > 0
      then Some(Finish(s, s.freeStack[|s.freeStack| - 1]).(freeStack := s.freeStack[..|s.freeStack| - 1]))
      else None
    case Release(buf) =>
      if buf !in s.held then None
      else if |s.freeStack| < EDRV_MAX_RX_BUFFERS
      then Some(s.(held := s.held - multiset{buf}, freeStack := s.freeStack + [buf]))
      else Some(s)
  }

  lemma NextIsWellFormed(s: State, l: Label)
    requires WellFormed(s) && Next(s, l).Some?
    ensures WellFormed(Next(s, l).value) && |Next(s, l).value.ring| == |s.ring|
  {
  }

  function Execute(s: State, run: seq<Label>): (r: Option<State>)
    requires WellFormed(s)
    ensures r.Some? ==> WellFormed(r.value) && |r.value.ring| == |s.ring|
    decreases |run|
  {
    if run == [] then Some(s) else
    match Next(s, run[0])
    case None => None
    case Some(t) =>
      NextIsWellFormed(s, run[0]);
      Execute(t, run[1..])
  }

  // ----- conservation of buffers

  function Buffers(ring: seq<Descriptor>): seq<Addr> {
    seq(|ring|, i requires 0 <= i < |ring| => ring[i].buf)
  }

  /** While a buffer is being kept, it is still in the ring and already with the upper layer or, if
      that was quick, on the stack. */
  predicate Keeping(s: State) {
    s.phase == Handling(true) || s.phase == Swapping
  }

  ghost function InRing(s: State, b: Addr): int {
    multiset(Buffers(s.ring))[b] as int
  }

  /** Every place where buffer b is, less the second place of the one being kept. */
  ghost function Places(s: State, b: Addr): int
    requires WellFormed(s)
  {
    InRing(s, b) + multiset(s.freeStack)[b] as int + s.held[b] as int
      - (if Keeping(s) && s.ring[s.curRx].buf == b then 1 else 0)
  }

  /** All places together. */
  ghost function Count(s: State): int
    requires WellFormed(s)
  {
    |s.ring| + |s.freeStack| + |s.held| - (if Keeping(s) then 1 else 0)
  }

  /** The handler kept a buffer and there is none to replace it: ring and upper layer now share it. */
  predicate Exhausted(s: State, l: Label) {
    l == Return && s.phase == Handling(true) && |s.freeStack| == 0
  }

  lemma FinishPlaces(s: State, buf: Addr, b: Addr)
    requires WellFormed(s)
    ensures InRing(Finish(s, buf), b)
         == InRing(s, b) - (if s.ring[s.curRx].buf == b then 1 else 0) + (if buf == b then 1 else 0)
  {
    assert Buffers(Finish(s, buf).ring) == Buffers(s.ring)[s.curRx := buf];
    assert Buffers(s.ring)[s.curRx] == s.ring[s.curRx].buf;
  }

  lemma FillPlaces(s: State, l: Label, b: Addr)
    requires WellFormed(s) && l.Fill? && Next(s, l).Some?
    ensures WellFormed(Next(s, l).value)
    ensures Places(Next(s, l).value, b) == Places(s, b)
  {
    NextIsWellFormed(s, l);
    assert Buffers(Next(s, l).value.ring) == Buffers(s.ring);
  }

  lemma DropPlaces(s: State, b: Addr)
    requires WellFormed(s) && Next(s, Drop).Some?
    ensures WellFormed(Next(s, Drop).value)
    ensures Places(Next(s, Drop).value, b) == Places(s, b)
  {
    NextIsWellFormed(s, Drop);
    FinishPlaces(s, s.ring[s.curRx].buf, b);
  }

  lemma ReturnPlaces(s: State, b: Addr)
    requires WellFormed(s) && Next(s, Return).Some?
    ensures WellFormed(Next(s, Return).value)
    ensures Places(Next(s, Return).value, b)
         == Places(s, b) + if Exhausted(s, Return) && s.ring[s.curRx].buf == b then 1 else 0
  {
    NextIsWellFormed(s, Return);
    FinishPlaces(s, s.ring[s.curRx].buf, b);
  }

  lemma SwapPlaces(s: State, b: Addr)
    requires WellFormed(s) && Next(s, Swap).Some?
    ensures WellFormed(Next(s, Swap).value)
    ensures Places(Next(s, Swap).value, b) == Places(s, b)
  {
    NextIsWellFormed(s, Swap);
    FinishPlaces(s, s.freeStack[|s.freeStack| - 1], b);
    PopPlaces(s.freeStack, b);
  }

  lemma ReleasePlaces(s: State, buf: Addr, b: Addr)
    requires WellFormed(s) && Next(s, Release(buf)).Some?
    ensures WellFormed(Next(s, Release(buf)).value)
    ensures Places(Next(s, Release(buf)).value, b) == Places(s, b)
  {
    NextIsWellFormed(s, Release(buf));
    assert multiset(s.freeStack + [buf])[b] == multiset(s.freeStack)[b] + (if b == buf then 1 else 0);
  }

  lemma PopPlaces(stack: seq<Addr>, b: Addr)
    requires |stack| > 0
    ensures multiset(stack[..|stack| - 1])[b] == multiset(stack)[b] - (if stack[|stack| - 1] == b then 1 else 0)
  {
    assert stack == stack[..|stack| - 1] + [stack[|stack| - 1]];
  }

  /** One step neither loses nor duplicates a buffer, except when the reserve is exhausted. */
  lemma PlacesStep(s: State, l: Label, b: Addr)
    requires WellFormed(s) && Next(s, l).Some?
    ensures WellFormed(Next(s, l).value)
    ensures Places(Next(s, l).value, b)
         == Places(s, b) + if Exhausted(s, l) && s.ring[s.curRx].buf == b then 1 else 0
  {
    match l
    case Fill(_, _) => FillPlaces(s, l, b);
    case Deliver(keep) => NextIsWellFormed(s, l);
    case Drop => DropPlaces(s, b);
    case Return => ReturnPlaces(s, b);
    case Swap => SwapPlaces(s, b);
    case Release(buf) => ReleasePlaces(s, buf, b);
  }

  lemma CountStep(s: State, l: Label)
    requires WellFormed(s) && Next(s, l).Some?
    ensures WellFormed(Next(s, l).value)
    ensures Count(Next(s, l).value) == Count(s) + if Exhausted(s, l) then 1 else 0
  {
    NextIsWellFormed(s, l);
  }

  /** The start: every buffer once, in the ring or on the stack, all descriptors empty. */
  ghost predicate Start(s: State, all: set<Addr>) {
    && WellFormed(s)
    && s.phase == Polling && s.filled == [] && s.done == 0 && s.delivered == []
    && (forall i :: 0 <= i < |s.ring| ==> Empty(s.ring[i].sc))
    && s.held == multiset{}
    && multiset(Buffers(s.ring)) + multiset(s.freeStack) == multiset(all)
    && |all| == EDRV_MAX_RX_BUFFERS
  }

  /** Every buffer is at exactly one place, not counting the second place of the one being kept. */
  ghost predicate Conserved(s: State, all: set<Addr>)
    requires WellFormed(s)
  {
    forall b :: Places(s, b) == if b in all then 1 else 0
  }

  /** Whenever the handler returns keeping a buffer, the upper layer holds no more buffers than the
      reserve has. */
  predicate WithinReserve(s: State, run: seq<Label>)
    requires WellFormed(s) && Execute(s, run).Some?
    decreases |run|
  {
    run == [] ||
    (&& (run[0] == Return && s.phase == Handling(true) ==> |s.held| <= Reserve(s))
     && WithinReserve(Next(s, run[0]).value, run[1..]))
  }

  lemma StartIsConserved(s: State, all: set<Addr>)
    requires Start(s, all)
    ensures Conserved(s, all) && Count(s) == EDRV_MAX_RX_BUFFERS
  {
    assert |multiset(all)| == |all|;
    assert |multiset(Buffers(s.ring))| == |s.ring| && |multiset(s.freeStack)| == |s.freeStack|;
    forall b
      ensures Places(s, b) == if b in all then 1 else 0
    {
      assert (multiset(Buffers(s.ring)) + multiset(s.freeStack))[b] == multiset(all)[b];
    }
  }

  lemma ConservedStep(s: State, l: Label, all: set<Addr>)
    requires WellFormed(s) && Next(s, l).Some? && !Exhausted(s, l) && Conserved(s, all)
    ensures WellFormed(Next(s, l).value) && Conserved(Next(s, l).value, all)
  {
    NextIsWellFormed(s, l);
    forall b
      ensures Places(Next(s, l).value, b) == if b in all then 1 else 0
    {
      PlacesStep(s, l, b);
    }
  }

  lemma {:induction false} ConservedRun(s: State, run: seq<Label>, all: set<Addr>)
    requires WellFormed(s) && Execute(s, run).Some? && WithinReserve(s, run)
    requires Conserved(s, all) && Count(s) == EDRV_MAX_RX_BUFFERS
    ensures Conserved(Execute(s, run).value, all)
    ensures Count(Execute(s, run).value) == EDRV_MAX_RX_BUFFERS
    decreases |run|
  {
    if run != [] {
      CountStep(s, run[0]);
      ConservedStep(s, run[0], all);
      ConservedRun(Next(s, run[0]).value, run[1..], all);
    }
  }

  lemma {:induction false} PlacesGrow(s: State, run: seq<Label>, b: Addr)
    requires WellFormed(s) && Execute(s, run).Some?
    ensures Places(Execute(s, run).value, b) >= Places(s, b)
    decreases |run|
  {
    if run != [] {
      PlacesStep(s, run[0], b);
      PlacesGrow(Next(s, run[0]).value, run[1..], b);
    }
  }

  /** Beyond the reserve some buffer ends up at two places for good. */
  lemma {:induction false} BeyondReserve(s: State, run: seq<Label>, all: set<Addr>) returns (b: Addr)
    requires WellFormed(s) && Execute(s, run).Some? && !WithinReserve(s, run)
    requires Conserved(s, all) && Count(s) == EDRV_MAX_RX_BUFFERS
    ensures Places(Execute(s, run).value, b) > if b in all then 1 else 0
    decreases |run|
  {
    CountStep(s, run[0]);
    var t := Next(s, run[0]).value;
    if run[0] == Return && s.phase == Handling(true) && |s.held| > Reserve(s) {
      b := s.ring[s.curRx].buf;
      PlacesStep(s, run[0], b);
      PlacesGrow(t, run[1..], b);
    } else {
      ConservedStep(s, run[0], all);
      b := BeyondReserve(t, run[1..], all);
    }
  }

  /** Main result: buffers are conserved in a run, early releases included, exactly when the upper
      layer never comes out of a handler with more kept buffers than the reserve. */
  lemma ConservedExactlyWhen(s: State, run: seq<Label>, all: set<Addr>)
    requires Start(s, all) && Execute(s, run).Some?
    ensures Conserved(Execute(s, run).value, all) <==> WithinReserve(s, run)
  {
    StartIsConserved(s, all);
    if WithinReserve(s, run) {
      ConservedRun(s, run, all);
    } else {
      var b := BeyondReserve(s, run, all);
    }
  }

  /** In those runs the stack needs one slot more than the reserve and no further one, and between
      frames not even that; and a handler that keeps a buffer within the reserve finds a free one. */
  lemma StackBounds(s: State, run: seq<Label>, all: set<Addr>)
    requires Start(s, all) && Execute(s, run).Some? && WithinReserve(s, run)
    ensures var t := Execute(s, run).value;
            && |t.freeStack| <= Reserve(s) + 1
            && (!Keeping(t) ==> |t.freeStack| <= Reserve(s))
            && (t.phase == Handling(true) ==> (|t.held| <= Reserve(s) <==> |t.freeStack| > 0))
  {
    StartIsConserved(s, all);
    ConservedRun(s, run, all);
  }

  /** Between interrupts, all frames processed. */
  predicate Calm(s: State) {
    && WellFormed(s) && s.phase == Polling && s.done == |s.filled|
    && (forall i :: 0 <= i < |s.ring| ==> Empty(s.ring[i].sc))
  }

  /** A good frame whose buffer the handler keeps, the handler not having returned yet. */
  lemma FrameKept(s: State, frame: Frame, stats: bv16) returns (t: State)
    requires Calm(s) && !Collided(stats)
    ensures WellFormed(t) && |t.ring| == |s.ring| && t.phase == Handling(true) && t.done == s.done
    ensures t.freeStack == s.freeStack && t.held == s.held + multiset{s.ring[s.curRx].buf}
    ensures t.curRx == s.curRx && |t.filled| == |s.filled| + 1 && t.ring[t.curRx].buf == s.ring[s.curRx].buf
    ensures forall i :: 0 <= i < |t.ring| && i != t.curRx ==> Empty(t.ring[i].sc)
    ensures Execute(s, [Fill(frame, stats), Deliver(true)]) == Some(t)
  {
    var run := [Fill(frame, stats), Deliver(true)];
    var s1 := Next(s, run[0]).value;
    NextIsWellFormed(s, run[0]);
    t := Next(s1, run[1]).value;
    assert run[1..] == [run[1]] && run[1..][1..] == [];
    assert Execute(s1, run[1..]) == Some(t);
  }

  lemma {:induction false} ExecuteSnoc(s: State, run: seq<Label>, l: Label)
    requires WellFormed(s) && Execute(s, run).Some?
    ensures Execute(s, run + [l]) == Next(Execute(s, run).value, l)
    decreases |run|
  {
    if run == [] {
      assert (run + [l])[1..] == [];
      if Next(s, l).Some? {
        NextIsWellFormed(s, l);
      }
    } else {
      assert (run + [l])[1..] == run[1..] + [l];
      NextIsWellFormed(s, run[0]);
      ExecuteSnoc(Next(s, run[0]).value, run[1..], l);
    }
  }

  lemma {:induction false} ReserveSnoc(s: State, run: seq<Label>, l: Label)
    requires WellFormed(s) && Execute(s, run).Some? && WithinReserve(s, run) && l != Return
    requires Execute(s, run + [l]).Some?
    ensures WithinReserve(s, run + [l])
    decreases |run|
  {
    if run == [] {
      assert (run + [l])[1..] == [];
    } else {
      assert (run + [l])[1..] == run[1..] + [l];
      NextIsWellFormed(s, run[0]);
      ReserveSnoc(Next(s, run[0]).value, run[1..], l);
    }
  }

  /** The extra slot is used: keep the first frame's buffer and return it before the handler does. */
  lemma ExtraSlotIsUsed(s: State, all: set<Addr>, frame: Frame, stats: bv16) returns (run: seq<Label>)
    requires Start(s, all) && !Collided(stats)
    ensures Execute(s, run).Some? && WithinReserve(s, run)
    ensures |Execute(s, run).value.freeStack| == Reserve(s) + 1
  {
    StartIsConserved(s, all);
    var t := FrameKept(s, frame, stats);
    var b := s.ring[s.curRx].buf;
    run := [Fill(frame, stats), Deliver(true)];
    assert run[1..] == [Deliver(true)] && run[1..][1..] == [];
    assert WithinReserve(s, run);
    ExecuteSnoc(s, run, Release(b));
    ReserveSnoc(s, run, Release(b));
    run := run + [Release(b)];
  }

  // ----- beyond the reserve

  /** How often a handler kept a buffer with no free one to replace it. */
  function Exhaustions(s: State, run: seq<Label>): nat
    requires WellFormed(s) && Execute(s, run).Some?
    decreases |run|
  {
    if run == [] then 0
    else (if Exhausted(s, run[0]) then 1 else 0) + Exhaustions(Next(s, run[0]).value, run[1..])
  }

  function OneIf(b: bool): nat {
    if b then 1 else 0
  }

  lemma {:induction false} CountRun(s: State, run: seq<Label>)
    requires WellFormed(s) && Execute(s, run).Some?
    ensures Count(Execute(s, run).value) == Count(s) + Exhaustions(s, run)
    decreases |run|
  {
    if run != [] {
      CountStep(s, run[0]);
      CountRun(Next(s, run[0]).value, run[1..]);
    }
  }

  /** Keeping within the reserve is the same as never finding the stack empty. */
  lemma {:induction false} NeverExhausted(s: State, run: seq<Label>)
    requires WellFormed(s) && Execute(s, run).Some? && Count(s) == EDRV_MAX_RX_BUFFERS
    ensures WithinReserve(s, run) <==> Exhaustions(s, run) == 0
    decreases |run|
  {
    if run != [] {
      CountStep(s, run[0]);
      if !Exhausted(s, run[0]) {
        NeverExhausted(Next(s, run[0]).value, run[1..]);
      }
    }
  }

  /** The array has the slot that a release writes to. */
  predicate HasRoom(s: State)
    requires WellFormed(s)
  {
    |s.freeStack| <= Reserve(s)
  }

  /** Main result on the stack, for every run: its size is the reserve and what came on top of it by
      exhaustion, less what is held.  So a release stays inside the array exactly if the upper layer
      holds at least as many buffers as the stack was found empty, and one more while it keeps one. */
  lemma ReleaseFitsExactlyWhen(s: State, run: seq<Label>, all: set<Addr>)
    requires Start(s, all) && Execute(s, run).Some?
    ensures var t := Execute(s, run).value;
            && |t.freeStack| == Reserve(s) + Exhaustions(s, run) + OneIf(Keeping(t)) - |t.held|
            && (HasRoom(t) <==> |t.held| >= Exhaustions(s, run) + OneIf(Keeping(t)))
  {
    StartIsConserved(s, all);
    CountRun(s, run);
  }

  lemma {:induction false} ExecuteConcat(s: State, run: seq<Label>, more: seq<Label>)
    requires WellFormed(s) && Execute(s, run).Some?
    ensures Execute(s, run + more) == Execute(Execute(s, run).value, more)
    decreases |run|
  {
    if run == [] {
      assert run + more == more;
    } else {
      NextIsWellFormed(s, run[0]);
      assert (run + more)[1..] == run[1..] + more;
      ExecuteConcat(Next(s, run[0]).value, run[1..], more);
    }
  }

  lemma FinishIsCalm(s: State, buf: Addr)
    requires WellFormed(s) && s.phase != Polling && |s.filled| == s.done + 1
    requires forall i :: 0 <= i < |s.ring| && i != s.curRx ==> Empty(s.ring[i].sc)
    ensures Calm(Finish(s, buf))
  {
  }

  /** Keeping one buffer: a free one replaces it, if there is one. */
  lemma KeepOne(s: State) returns (run: seq<Label>, t: State)
    requires Calm(s)
    ensures Execute(s, run) == Some(t) && Calm(t) && |t.ring| == |s.ring| && |t.held| == |s.held| + 1
    ensures |t.freeStack| == if |s.freeStack| > 0 then |s.freeStack| - 1 else 0
    ensures t.held == s.held + multiset{s.ring[s.curRx].buf}
    ensures t.ring[s.curRx].buf == if |s.freeStack| > 0 then s.freeStack[|s.freeStack| - 1] else s.ring[s.curRx].buf
  {
    var u := FrameKept(s, NO_FRAME, 0);
    run := [Fill(NO_FRAME, 0), Deliver(true)];
    ExecuteSnoc(s, run, Return);
    if |s.freeStack| == 0 {
      t := Next(u, Return).value;
      FinishIsCalm(u, u.ring[u.curRx].buf);
      run := run + [Return];
    } else {
      var v := u.(phase := Swapping);
      assert Execute(s, run + [Return]) == Some(v);
      ExecuteSnoc(s, run + [Return], Swap);
      t := Next(v, Swap).value;
      FinishIsCalm(v, v.freeStack[|v.freeStack| - 1]);
      run := run + [Return] + [Swap];
    }
  }

  lemma {:induction false} KeepMany(s: State, n: nat) returns (run: seq<Label>, t: State)
    requires Calm(s)
    ensures Execute(s, run) == Some(t) && Calm(t) && |t.ring| == |s.ring| && |t.held| == |s.held| + n
    ensures |t.freeStack| == if n <= |s.freeStack| then |s.freeStack| - n else 0
    decreases n
  {
    if n == 0 {
      run, t := [], s;
    } else {
      var before, u := KeepMany(s, n - 1);
      var more;
      more, t := KeepOne(u);
      ExecuteConcat(s, before, more);
      run := before + more;
    }
  }

  lemma NoneHeld(held: multiset<Addr>)
    requires forall b: Addr :: b !in held
    ensures |held| == 0
  {
    forall b: Addr
      ensures held[b] == multiset{}[b]
    {
      assert b !in held;
    }
    assert held == multiset{};
  }

  lemma SomeHeld(held: multiset<Addr>) returns (b: Addr)
    requires |held| > 0
    ensures b in held
  {
    if forall x: Addr :: x !in held {
      NoneHeld(held);
    }
    b :| b in held;
  }

  lemma {:induction false} ReleaseMany(s: State, n: nat) returns (run: seq<Label>, t: State)
    requires Calm(s) && n <= |s.held| && |s.freeStack| + n <= EDRV_MAX_RX_BUFFERS
    ensures Execute(s, run) == Some(t) && Calm(t) && |t.ring| == |s.ring| && |t.held| == |s.held| - n
    ensures |t.freeStack| == |s.freeStack| + n
    decreases n
  {
    if n == 0 {
      run, t := [], s;
    } else {
      var b := SomeHeld(s.held);
      assert multiset{b} <= s.held && |s.held - multiset{b}| == |s.held| - 1;
      var u := Next(s, Release(b)).value;
      var more;
      more, t := ReleaseMany(u, n - 1);
      run := [Release(b)] + more;
      assert run[1..] == more;
    }
  }

  /** A buffer kept with the stack empty, and then returned, is in the ring and on the stack. */
  lemma KeptAndReturned(s: State) returns (run: seq<Label>, t: State)
    requires Calm(s) && s.freeStack == []
    ensures Execute(s, run) == Some(t) && Calm(t)
    ensures var b := s.ring[s.curRx].buf; InRing(t, b) >= 1 && t.freeStack == [b]
  {
    var u := FrameKept(s, NO_FRAME, 0);
    var b := s.ring[s.curRx].buf;
    run := [Fill(NO_FRAME, 0), Deliver(true)];
    ExecuteSnoc(s, run, Return);
    var v := Next(u, Return).value;
    FinishIsCalm(u, b);
    assert Buffers(v.ring)[u.curRx] == b;
    ExecuteSnoc(s, run + [Return], Release(b));
    t := Next(v, Release(b)).value;
    assert t.ring == v.ring && [] + [b] == [b];
    run := run + [Return] + [Release(b)];
  }

  /** A good frame whose buffer the handler does not keep: the ring goes on by one descriptor. */
  lemma PassOne(s: State) returns (run: seq<Label>, t: State)
    requires Calm(s)
    ensures Execute(s, run) == Some(t) && Calm(t) && t.freeStack == s.freeStack && t.held == s.held && |t.ring| == |s.ring|
    ensures forall i :: 0 <= i < |s.ring| ==> t.ring[i].buf == s.ring[i].buf
    ensures t.curRx == if s.curRx == |s.ring| - 1 then 0 else s.curRx + 1
  {
    var u := Next(s, Fill(NO_FRAME, 0)).value;
    NextIsWellFormed(s, Fill(NO_FRAME, 0));
    ExecuteSnoc(s, [], Fill(NO_FRAME, 0));
    var v := Next(u, Deliver(false)).value;
    ExecuteSnoc(s, [Fill(NO_FRAME, 0)], Deliver(false));
    run := [Fill(NO_FRAME, 0), Deliver(false)];
    assert [Fill(NO_FRAME, 0)] + [Deliver(false)] == run && [] + [Fill(NO_FRAME, 0)] == [Fill(NO_FRAME, 0)];
    ExecuteSnoc(s, run, Return);
    t := Next(v, Return).value;
    FinishIsCalm(v, v.ring[v.curRx].buf);
    run := run + [Return];
  }

  /** Frames that are not kept bring the interrupt to any descriptor. */
  lemma {:induction false} TurnTo(s: State, i: nat) returns (run: seq<Label>, t: State)
    requires Calm(s) && i < |s.ring|
    ensures Execute(s, run) == Some(t) && Calm(t) && t.freeStack == s.freeStack && t.held == s.held && |t.ring| == |s.ring|
    ensures t.curRx == i && t.ring[i].buf == s.ring[i].buf
    decreases if s.curRx <= i then i - s.curRx else i + |s.ring| - s.curRx
  {
    if s.curRx == i {
      run, t := [], s;
    } else {
      var one, u := PassOne(s);
      var more;
      more, t := TurnTo(u, i);
      ExecuteConcat(s, one, more);
      run := one + more;
    }
  }

  /** With the stack empty, a held buffer is brought back into the ring: returned, and then put in the
      place of another one. */
  lemma BringBack(s: State, b: Addr) returns (run: seq<Label>, t: State, i: nat)
    requires Calm(s) && s.freeStack == [] && b in s.held
    ensures Execute(s, run) == Some(t) && Calm(t) && t.freeStack == [] && i < |t.ring| && t.ring[i].buf == b
  {
    var u := Next(s, Release(b)).value;
    assert u.freeStack == [b];
    var more;
    more, t := KeepOne(u);
    run, i := [Release(b)] + more, s.curRx;
    assert run[1..] == more;
  }

  /** With the stack empty, any buffer in the ring or held can come to be next. */
  lemma ComesNext(s: State, b: Addr) returns (run: seq<Label>, t: State)
    requires Calm(s) && s.freeStack == [] && Places(s, b) >= 1
    ensures Execute(s, run) == Some(t) && Calm(t) && t.freeStack == [] && t.ring[t.curRx].buf == b
  {
    var back, u, i;
    if b in Buffers(s.ring) {
      back, u := [], s;
      i :| 0 <= i < |s.ring| && Buffers(s.ring)[i] == b;
    } else {
      back, u, i := BringBack(s, b);
    }
    var turn;
    turn, t := TurnTo(u, i);
    ExecuteConcat(s, back, turn);
    run := back + turn;
  }

  /** From any start, every buffer can come to be next with the stack empty. */
  lemma ComesNextFromStart(s: State, all: set<Addr>, b: Addr) returns (run: seq<Label>, t: State)
    requires Start(s, all) && b in all
    ensures Execute(s, run) == Some(t) && Calm(t) && t.freeStack == [] && t.ring[t.curRx].buf == b
  {
    StartIsConserved(s, all);
    var kept, u := KeepMany(s, |s.freeStack|);
    PlacesGrow(s, kept, b);
    var more;
    more, t := ComesNext(u, b);
    ExecuteConcat(s, kept, more);
    run := kept + more;
  }

  /** From any start and for every buffer there is a run that ends with it in the ring and on the stack. */
  lemma BufferIsDoubled(s: State, all: set<Addr>, b: Addr) returns (run: seq<Label>, t: State)
    requires Start(s, all) && b in all
    ensures Execute(s, run) == Some(t) && Calm(t) && InRing(t, b) >= 1 && t.freeStack == [b]
  {
    var before, u := ComesNextFromStart(s, all, b);
    var more;
    more, t := KeptAndReturned(u);
    ExecuteConcat(s, before, more);
    run := before + more;
  }

  /** And one in which the controller is about to write to it while the upper layer holds it. */
  lemma HeldIsOverwritten(s: State, all: set<Addr>, b: Addr, frame: Frame, stats: bv16)
    returns (run: seq<Label>, t: State)
    requires Start(s, all) && b in all
    ensures Execute(s, run) == Some(t) && WellFormed(t) && b in t.held
    ensures Next(t, Fill(frame, stats)).Some? && t.ring[HwPos(t)].buf == b
  {
    var before, u := ComesNextFromStart(s, all, b);
    var keep, v := KeepOne(u);
    var turn;
    turn, t := TurnTo(v, u.curRx);
    ExecuteConcat(s, before, keep);
    ExecuteConcat(s, before + keep, turn);
    run := before + keep + turn;
  }

  /** The guard of EdrvReleaseRxBuffer does not see it: from any start with two descriptors or more,
      keeping one buffer more than the reserve, returning them all, and then keeping one and returning
      it before the handler does, the guard lets a release pass for which the array has no slot. */
  lemma GuardIsTooLoose(s: State, all: set<Addr>) returns (run: seq<Label>, b: Addr)
    requires Start(s, all) && |s.ring| >= 2
    ensures Execute(s, run).Some?
    ensures var t := Execute(s, run).value;
            b in t.held && !HasRoom(t) && |t.freeStack| < EDRV_MAX_RX_BUFFERS
            && |Next(t, Release(b)).value.freeStack| == Reserve(s) + 2
  {
    StartIsConserved(s, all);
    var kept, u := KeepMany(s, |s.freeStack| + 1);
    var released, v := ReleaseMany(u, |u.held|);
    ExecuteConcat(s, kept, released);
    var w := FrameKept(v, NO_FRAME, 0);
    ExecuteConcat(s, kept + released, [Fill(NO_FRAME, 0), Deliver(true)]);
    run, b := kept + released + [Fill(NO_FRAME, 0), Deliver(true)], v.ring[v.curRx].buf;
  }

  // ----- order of delivery

  /** The descriptors from cur_rx on, once around. */
  function Ahead(s: State): seq<Descriptor>
    requires WellFormed(s)
  {
    s.ring[s.curRx..] + s.ring[..s.curRx]
  }

  /** What the handler is to see of these frames: not the dropped ones. */
  function Good(frames: seq<(Frame, bool)>): seq<Received> {
    if frames == [] then []
    else
      var (f, collided) := frames[|frames| - 1];
      Good(frames[..|frames| - 1]) + (if collided then [] else [Handed(f)])
  }

  /** There are as many as frames without a late collision. */
  lemma {:induction false} GoodCount(frames: seq<(Frame, bool)>)
    ensures |Good(frames)| == |set i | 0 <= i < |frames| && !frames[i].1|
    decreases |frames|
  {
    if frames != [] {
      var n := |frames| - 1;
      var front := frames[..n];
      GoodCount(front);
      var before := set i | 0 <= i < |front| && !front[i].1;
      assert (set i | 0 <= i < |frames| && !frames[i].1) == if frames[n].1 then before else before + {n};
      assert Good(frames) == Good(front) + if frames[n].1 then [] else [Handed(frames[n].0)];
    }
  }

  /** In the order stored: frame k, if it is not dropped, comes right behind those before it, with its
      contents and its length without the check sequence. */
  lemma {:induction false} GoodInOrder(frames: seq<(Frame, bool)>, k: nat)
    requires k < |frames| && !frames[k].1 && 4 <= frames[k].0.datlen < 0x1_0000
    ensures Good(frames[..k]) + [Received(frames[k].0.data, frames[k].0.datlen - 4)] <= Good(frames)
    decreases |frames|
  {
    var front := frames[..|frames| - 1];
    assert frames[..k] == front[..k];
    if k < |front| {
      GoodInOrder(front, k);
    }
  }

  /** The filled descriptors are one window from cur_rx on, holding the frames not yet processed in the
      order of their arrival, and what was delivered is what came before. */
  predicate InOrder(s: State) {
    && WellFormed(s)
    && (forall k :: 0 <= k < |s.ring| ==> (Empty(Ahead(s)[k].sc) <==> k >= |s.filled| - s.done))
    && (forall k :: 0 <= k < |s.filled| - s.done ==>
          Ahead(s)[k].frame == s.filled[s.done + k].0 && Collided(Ahead(s)[k].sc) == s.filled[s.done + k].1)
    && s.delivered == Good(s.filled[..s.done + if s.phase == Polling then 0 else 1])
    && (s.phase != Polling ==> !s.filled[s.done].1)
  }

  lemma FillInOrder(s: State, frame: Frame, stats: bv16)
    requires InOrder(s) && Next(s, Fill(frame, stats)).Some?
    ensures InOrder(Next(s, Fill(frame, stats)).value)
  {
    var t := Next(s, Fill(frame, stats)).value;
    NextIsWellFormed(s, Fill(frame, stats));
    var n := |s.filled| - s.done;
    assert Ahead(t) == Ahead(s)[n := t.ring[HwPos(s)]];
    assert t.filled[..|s.filled|] == s.filled;
    var m := s.done + if s.phase == Polling then 0 else 1;
    assert t.filled[..m] == s.filled[..m];
  }

  /** The processed descriptor goes to the end of the line, empty. */
  lemma FinishAhead(s: State, buf: Addr)
    requires WellFormed(s) && s.done < |s.filled|
    ensures |Ahead(Finish(s, buf))| == |s.ring| && Empty(Ahead(Finish(s, buf))[|s.ring| - 1].sc)
    ensures forall k :: 0 <= k < |s.ring| - 1 ==> Ahead(Finish(s, buf))[k] == Ahead(s)[k + 1]
  {
    var t := Finish(s, buf);
    assert Ahead(t) == Ahead(s)[1..] + [t.ring[s.curRx]];
  }

  lemma FinishWindow(s: State, buf: Addr, k: nat)
    requires InOrder(s) && s.done < |s.filled| && k < |s.ring|
    ensures var t := Finish(s, buf);
            && (Empty(Ahead(t)[k].sc) <==> k >= |t.filled| - t.done)
            && (k < |t.filled| - t.done ==>
                  Ahead(t)[k].frame == t.filled[t.done + k].0 && Collided(Ahead(t)[k].sc) == t.filled[t.done + k].1)
  {
    FinishAhead(s, buf);
    if k < |s.ring| - 1 {
      assert Ahead(Finish(s, buf))[k] == Ahead(s)[k + 1];
    }
  }

  lemma FinishInOrder(s: State, buf: Addr)
    requires InOrder(s) && s.done < |s.filled|
    requires s.phase == Polling ==> s.filled[s.done].1
    ensures InOrder(Finish(s, buf))
  {
    var t := Finish(s, buf);
    forall k | 0 <= k < |t.ring|
      ensures Empty(Ahead(t)[k].sc) <==> k >= |t.filled| - t.done
      ensures k < |t.filled| - t.done ==>
                Ahead(t)[k].frame == t.filled[t.done + k].0 && Collided(Ahead(t)[k].sc) == t.filled[t.done + k].1
    {
      FinishWindow(s, buf, k);
    }
    assert s.filled[..s.done + 1][..s.done] == s.filled[..s.done];
  }

  lemma DeliverInOrder(s: State, keep: bool)
    requires InOrder(s) && Next(s, Deliver(keep)).Some?
    ensures InOrder(Next(s, Deliver(keep)).value)
  {
    var t := Next(s, Deliver(keep)).value;
    assert Ahead(s)[0] == s.ring[s.curRx] && Ahead(t) == Ahead(s);
    assert s.filled[..s.done + 1][..s.done] == s.filled[..s.done];
  }

  lemma ReturnInOrder(s: State)
    requires InOrder(s) && Next(s, Return).Some?
    ensures InOrder(Next(s, Return).value)
  {
    FinishInOrder(s, s.ring[s.curRx].buf);
    assert Ahead(s.(phase := Swapping)) == Ahead(s);
  }

  lemma SwapInOrder(s: State)
    requires InOrder(s) && Next(s, Swap).Some?
    ensures InOrder(Next(s, Swap).value)
  {
    var t := Finish(s, s.freeStack[|s.freeStack| - 1]);
    FinishInOrder(s, s.freeStack[|s.freeStack| - 1]);
    assert Ahead(Next(s, Swap).value) == Ahead(t);
  }

  lemma InOrderStep(s: State, l: Label)
    requires InOrder(s) && Next(s, l).Some?
    ensures InOrder(Next(s, l).value)
  {
    assert Ahead(s)[0] == s.ring[s.curRx];
    match l
    case Fill(frame, stats) => FillInOrder(s, frame, stats);
    case Deliver(keep) => DeliverInOrder(s, keep);
    case Drop => FinishInOrder(s, s.ring[s.curRx].buf);
    case Return => ReturnInOrder(s);
    case Swap => SwapInOrder(s);
    case Release(buf) =>
      assert Ahead(Next(s, l).value) == Ahead(s);
  }

  lemma {:induction false} InOrderRun(s: State, run: seq<Label>)
    requires InOrder(s) && Execute(s, run).Some?
    ensures InOrder(Execute(s, run).value)
    decreases |run|
  {
    if run != [] {
      InOrderStep(s, run[0]);
      InOrderRun(Next(s, run[0]).value, run[1..]);
    }
  }

  lemma StartIsInOrder(s: State, all: set<Addr>)
    requires Start(s, all)
    ensures InOrder(s)
  {
  }

  /** Main result: in every run from the start, whatever the upper layer does, the handler sees the
      frames in the order the controller stored them, each once, except the collided ones, and the
      filled descriptors are one window that starts at cur_rx. */
  lemma DeliveredInOrder(s: State, run: seq<Label>, all: set<Addr>)
    requires Start(s, all) && Execute(s, run).Some?
    ensures InOrder(Execute(s, run).value)
  {
    StartIsInOrder(s, all);
    InOrderRun(s, run);
  }

  /** Main result for the upper layer: within the reserve the controller never writes to a buffer that the
      upper layer holds. */
  lemma HeldIsNotOverwritten(s: State, run: seq<Label>, all: set<Addr>, frame: Frame, stats: bv16)
    requires Start(s, all) && Execute(s, run).Some? && WithinReserve(s, run)
    requires Next(Execute(s, run).value, Fill(frame, stats)).Some?
    ensures var t := Execute(s, run).value;
            t.ring[HwPos(t)].buf !in t.held && t.ring[HwPos(t)].buf !in t.freeStack
  {
    var t := Execute(s, run).value;
    StartIsConserved(s, all);
    ConservedRun(s, run, all);
    StartIsInOrder(s, all);
    InOrderRun(s, run);
    var b := t.ring[HwPos(t)].buf;
    assert Ahead(t)[0] == t.ring[t.curRx];
    assert Places(t, b) <= 1;
    if Keeping(t) {
      assert HwPos(t) != t.curRx;
      TwiceInRing(t, b);
    }
    assert Buffers(t.ring)[HwPos(t)] == b;
  }

  /** A buffer that two descriptors have counts twice in the ring. */
  lemma TwiceInRing(t: State, b: Addr)
    requires WellFormed(t) && HwPos(t) != t.curRx && t.ring[HwPos(t)].buf == b
    ensures t.ring[t.curRx].buf == b ==> InRing(t, b) >= 2
  {
    var bufs, i, j := Buffers(t.ring), HwPos(t), t.curRx;
    if bufs[j] == b {
      var lo, hi := if i < j then i else j, if i < j then j else i;
      assert bufs == bufs[..hi] + bufs[hi..];
      assert bufs[..hi][lo] == b && bufs[hi..][0] == b;
      assert multiset(bufs)[b] == multiset(bufs[..hi])[b] + multiset(bufs[hi..])[b];
    }
  }

  // ----- the driver

  /** Every release in the run finds a slot in the array. */
  predicate AlwaysRoom(s: State, run: seq<Label>)
    requires WellFormed(s) && Execute(s, run).Some?
    decreases |run|
  {
    run == [] || ((run[0].Release? ==> HasRoom(s)) && AlwaysRoom(Next(s, run[0]).value, run[1..]))
  }

  /** A run inside the array leads from s to t. */
  predicate RoomyRun(s: State, run: seq<Label>, t: State) {
    && WellFormed(s) && WellFormed(t)
    && Execute(s, run) == Some(t)
    && AlwaysRoom(s, run)
  }

  lemma RoomyRunConcat(s: State, run: seq<Label>, t: State, more: seq<Label>, u: State)
    requires RoomyRun(s, run, t) && RoomyRun(t, more, u)
    ensures RoomyRun(s, run + more, u)
    ensures Exhaustions(s, run + more) == Exhaustions(s, run) + Exhaustions(t, more)
  {
    ExecuteConcat(s, run, more);
    RoomConcat(s, run, more);
    ExhaustionsConcat(s, run, more);
  }

  lemma {:induction false} RoomConcat(s: State, run: seq<Label>, more: seq<Label>)
    requires WellFormed(s) && Execute(s, run).Some? && AlwaysRoom(s, run) && Execute(s, run + more).Some?
    requires Execute(Execute(s, run).value, more).Some? && AlwaysRoom(Execute(s, run).value, more)
    ensures AlwaysRoom(s, run + more)
    decreases |run|
  {
    if run == [] {
      assert run + more == more;
    } else {
      NextIsWellFormed(s, run[0]);
      assert (run + more)[1..] == run[1..] + more;
      RoomConcat(Next(s, run[0]).value, run[1..], more);
    }
  }

  lemma {:induction false} ExhaustionsConcat(s: State, run: seq<Label>, more: seq<Label>)
    requires WellFormed(s) && Execute(s, run).Some? && Execute(s, run + more).Some?
    requires Execute(Execute(s, run).value, more).Some?
    ensures Exhaustions(s, run + more) == Exhaustions(s, run) + Exhaustions(Execute(s, run).value, more)
    decreases |run|
  {
    if run == [] {
      assert run + more == more;
    } else {
      NextIsWellFormed(s, run[0]);
      assert (run + more)[1..] == run[1..] + more;
      ExhaustionsConcat(Next(s, run[0]).value, run[1..], more);
    }
  }

  lemma RoomyStep(s: State, l: Label, t: State)
    requires WellFormed(s) && Next(s, l) == Some(t) && (l.Release? ==> HasRoom(s))
    ensures RoomyRun(s, [l], t) && Exhaustions(s, [l]) == OneIf(Exhausted(s, l))
  {
    NextIsWellFormed(s, l);
    assert [l][1..] == [];
  }

  /** And finds the stack empty n times. */
  predicate Reaches(s: State, run: seq<Label>, t: State, n: int) {
    RoomyRun(s, run, t) && Exhaustions(s, run) == n
  }

  lemma ReachesConcat(s: State, run: seq<Label>, t: State, n: int, more: seq<Label>, u: State, m: int)
    requires Reaches(s, run, t, n) && Reaches(t, more, u, m)
    ensures Reaches(s, run + more, u, n + m)
  {
    RoomyRunConcat(s, run, t, more, u);
  }

  /** What happens beside the interrupt: the controller stores frames, other processors give buffers back. */
  predicate OutsideRun(s: State, run: seq<Label>, t: State) {
    RoomyRun(s, run, t) && (forall l :: l in run ==> l.Fill? || l.Release?)
  }

  /** It leaves the interrupt's own descriptor and progress alone. */
  lemma {:induction false} OutsideKeeps(s: State, run: seq<Label>, t: State)
    requires OutsideRun(s, run, t)
    ensures t.phase == s.phase && t.curRx == s.curRx && t.done == s.done && t.delivered == s.delivered
    ensures |t.ring| == |s.ring| && Exhaustions(s, run) == 0
    ensures !Empty(s.ring[s.curRx].sc) ==> t.ring[s.curRx] == s.ring[s.curRx]
    ensures |t.filled| >= |s.filled|
    ensures |t.freeStack| >= |s.freeStack|
    decreases |run|
  {
    if run != [] {
      NextIsWellFormed(s, run[0]);
      OutsideKeeps(Next(s, run[0]).value, run[1..], t);
    }
  }

  /** What the driver relies on: the frames lie in order, the stack is inside its array, and the buffers
      are those there were, plus one for each time the stack was found empty. */
  predicate Sound(s: State, exhausted: nat) {
    && InOrder(s)
    && |s.freeStack| <= Reserve(s) + 1
    && |s.ring| + |s.freeStack| + |s.held| - OneIf(Keeping(s)) == EDRV_MAX_RX_BUFFERS + exhausted
  }

  lemma SoundStep(s: State, l: Label, exhausted: nat)
    requires Sound(s, exhausted) && Next(s, l).Some? && (l.Release? ==> HasRoom(s))
    ensures Sound(Next(s, l).value, exhausted + OneIf(Exhausted(s, l)))
  {
    InOrderStep(s, l);
    CountStep(s, l);
  }

  lemma {:induction false} SoundRun(s: State, run: seq<Label>, t: State, exhausted: nat)
    requires RoomyRun(s, run, t) && Sound(s, exhausted)
    ensures Sound(t, exhausted + Exhaustions(s, run))
    decreases |run|
  {
    if run != [] {
      SoundStep(s, run[0], exhausted);
      SoundRun(Next(s, run[0]).value, run[1..], t, exhausted + OneIf(Exhausted(s, run[0])));
    }
  }

  /** An empty descriptor at cur_rx means that everything has been delivered. */
  lemma AllDelivered(s: State)
    requires InOrder(s) && s.phase == Polling && Empty(s.ring[s.curRx].sc)
    ensures s.done == |s.filled| && s.delivered == Good(s.filled)
  {
    assert Ahead(s)[0] == s.ring[s.curRx];
    assert s.filled[..|s.filled|] == s.filled;
  }

  /** Pop and give back, as the one step Swap. */
  lemma SwapIsFinish(s: State, popped: State, t: State)
    requires WellFormed(s) && s.phase == Swapping && |s.freeStack| > 0
    requires var top := |s.freeStack| - 1;
             popped == s.(freeStack := s.freeStack[..top],
                          ring := s.ring[s.curRx := s.ring[s.curRx].(buf := s.freeStack[top])])
    requires WellFormed(popped) && t == Finish(popped, popped.ring[s.curRx].buf)
    ensures Next(s, Swap) == Some(t)
  {
    assert t.ring == Next(s, Swap).value.ring;
  }

  /** The receive part of the driver's private structure. */
  class FecEnet {
    const rxBd: array<Descriptor>
    const apbFreeRxBuffer: array<Addr>
    var iFreeRxBufferTop: int
    var curRx: nat
    // what the driver does not store: the interrupt's progress and the other side
    ghost var phase: Phase
    ghost var held: multiset<Addr>
    ghost var filled: seq<(Frame, bool)>
    ghost var done: nat
    ghost var delivered: seq<Received>
    ghost var exhausted: nat             // how often the stack was found empty

    /** The state, with cur standing for cur_rx while the interrupt keeps it in a local variable. */
    ghost function StateAt(cur: nat): State
      requires -1 <= iFreeRxBufferTop < apbFreeRxBuffer.Length
      reads this, rxBd, apbFreeRxBuffer
    {
      State(rxBd[..], cur, apbFreeRxBuffer[..iFreeRxBufferTop + 1], held, phase, filled, done, delivered)
    }

    /** The stack array has one slot more than the reserve. */
    ghost predicate ValidAt(cur: nat)
      reads this, rxBd, apbFreeRxBuffer
    {
      && rxBd.Length < EDRV_MAX_RX_BUFFERS
      && apbFreeRxBuffer.Length == EDRV_MAX_RX_BUFFERS - rxBd.Length + 1
      && -1 <= iFreeRxBufferTop < apbFreeRxBuffer.Length
      && Sound(StateAt(cur), exhausted)
    }

    /** The ring after fec_alloc_buffers and fec_restart, given the buffers it put where. */
    constructor (ringBuffers: seq<Addr>, freeBuffers: seq<Addr>)
      requires 0 < |ringBuffers| < EDRV_MAX_RX_BUFFERS == |ringBuffers| + |freeBuffers|
      ensures ValidAt(curRx) && phase == Polling && exhausted == 0 && fresh(rxBd) && fresh(apbFreeRxBuffer)
      ensures Buffers(rxBd[..]) == ringBuffers && StateAt(curRx).freeStack == freeBuffers
      ensures forall all: set<Addr> :: multiset(ringBuffers) + multiset(freeBuffers) == multiset(all)
                                    ==> Start(StateAt(curRx), all)
    {
      var r := |ringBuffers|;
      rxBd := new Descriptor[r](i requires 0 <= i < r =>
        Descriptor(if i == r - 1 then BD_ENET_RX_EMPTY | BD_ENET_RX_WRAP else BD_ENET_RX_EMPTY, ringBuffers[i], NO_FRAME));
      apbFreeRxBuffer := new Addr[|freeBuffers| + 1](i requires 0 <= i < |freeBuffers| + 1 =>
        if i < |freeBuffers| then freeBuffers[i] else 0);
      iFreeRxBufferTop, curRx := |freeBuffers| - 1, 0;
      phase, held, filled, done, delivered, exhausted := Polling, multiset{}, [], 0, [], 0;
      new;
      assert apbFreeRxBuffer[..iFreeRxBufferTop + 1] == freeBuffers;
      assert Buffers(rxBd[..]) == ringBuffers;
      forall all: set<Addr> | multiset(ringBuffers) + multiset(freeBuffers) == multiset(all)
        ensures |all| == EDRV_MAX_RX_BUFFERS
      {
        assert |multiset(ringBuffers) + multiset(freeBuffers)| == EDRV_MAX_RX_BUFFERS;
        assert |multiset(all)| == |all|;
      }
    }

    /** A buffer the upper layer holds goes back to the stack, at any time.  The array has a slot for it
        exactly under the condition on what is held. */
    method EdrvReleaseRxBuffer(pbBuffer: Addr, ghost cur: nat) returns (ok: bool)
      requires ValidAt(cur) && pbBuffer in held
      requires |held| >= exhausted + OneIf(Keeping(StateAt(cur)))
      modifies this`iFreeRxBufferTop, this`held, apbFreeRxBuffer
      ensures ok && ValidAt(cur)
      ensures Next(old(StateAt(cur)), Release(pbBuffer)) == Some(StateAt(cur))
    {
      ghost var s := StateAt(cur);
      ok := false;
      assert multiset{pbBuffer} <= held && |held - multiset{pbBuffer}| == |held| - 1;
      if iFreeRxBufferTop < EDRV_MAX_RX_BUFFERS - 1 {
        iFreeRxBufferTop := iFreeRxBufferTop + 1;
        apbFreeRxBuffer[iFreeRxBufferTop] := pbBuffer;
        held := held - multiset{pbBuffer};
        ok := true;
      }
      assert StateAt(cur).freeStack == s.freeStack + [pbBuffer];
      SoundStep(s, Release(pbBuffer), exhausted);
    }

    /** The controller and other processors act, the controller storing at most the given number of
        frames, the others giving buffers back as far as the array has room. */
    method Meanwhile(ghost cur: nat, ghost budget: nat) returns (ghost left: nat, ghost run: seq<Label>)
      requires ValidAt(cur)
      modifies this`iFreeRxBufferTop, this`held, this`filled, rxBd, apbFreeRxBuffer
      ensures ValidAt(cur)
      ensures OutsideRun(old(StateAt(cur)), run, StateAt(cur))
      ensures |filled| + left == old(|filled|) + budget
    {
      left, run := budget, [];
    }

    /** The upper layer's Rx handler.  It takes the frame and either keeps the buffer or not; buffers it
        holds, this one included, may be released before it returns. */
    method RxHandler(cur: nat, ghost budget: nat) returns (keep: bool, ghost left: nat, ghost run: seq<Label>)
      requires ValidAt(cur) && Next(StateAt(cur), Deliver(false)).Some?
      modifies this`iFreeRxBufferTop, this`held, this`filled, this`phase, this`delivered, rxBd, apbFreeRxBuffer
      ensures ValidAt(cur) && phase == Handling(keep)
      ensures RoomyRun(old(StateAt(cur)), run, StateAt(cur)) && Exhaustions(old(StateAt(cur)), run) == 0
      ensures rxBd[cur] == old(rxBd[cur])
      ensures |filled| + left == old(|filled|) + budget
    {
      ghost var s := StateAt(cur);
      keep, left, run := false, budget, [Deliver(false)];
      delivered := delivered + [Handed(rxBd[cur].frame)];
      phase := Handling(keep);
      RoomyStep(s, Deliver(false), StateAt(cur));
      SoundRun(s, run, StateAt(cur), exhausted);
    }

    /** rx_processing_done: mark the descriptor empty and go on to the next one. */
    method Recycle(bdp: nat, status: bv16) returns (next: nat)
      requires -1 <= iFreeRxBufferTop < apbFreeRxBuffer.Length
      requires WellFormed(StateAt(bdp)) && status == rxBd[bdp].sc
      modifies this`phase, this`done, rxBd
      ensures StateAt(next) == Finish(old(StateAt(bdp)), old(rxBd[bdp].buf))
    {
      ghost var s := StateAt(bdp);
      var newStatus := EmptiedStatus(status);
      rxBd[bdp] := rxBd[bdp].(sc := newStatus);
      if Wraps(newStatus) {
        next := 0;
      } else {
        next := bdp + 1;
      }
      phase, done := Polling, done + 1;
      assert StateAt(next).ring == Finish(s, s.ring[bdp].buf).ring;
    }

    /** Pop a free buffer into the descriptor and give the descriptor back. */
    method Swap(bdp: nat, status: bv16) returns (next: nat)
      requires ValidAt(bdp) && phase == Swapping && iFreeRxBufferTop >= 0 && status == rxBd[bdp].sc
      modifies this`iFreeRxBufferTop, this`phase, this`done, rxBd
      ensures ValidAt(next) && phase == Polling && done == old(done) + 1
      ensures RoomyRun(old(StateAt(bdp)), [Label.Swap], StateAt(next))
      ensures Exhaustions(old(StateAt(bdp)), [Label.Swap]) == 0
    {
      ghost var s := StateAt(bdp);
      var pbFreeBuffer := apbFreeRxBuffer[iFreeRxBufferTop];
      iFreeRxBufferTop := iFreeRxBufferTop - 1;
      rxBd[bdp] := rxBd[bdp].(buf := pbFreeBuffer);
      ghost var popped := StateAt(bdp);
      assert popped.freeStack == s.freeStack[..|s.freeStack| - 1];
      next := Recycle(bdp, status);
      SwapIsFinish(s, popped, StateAt(next));
      RoomyStep(s, Label.Swap, StateAt(next));
      SoundRun(s, [Label.Swap], StateAt(next), exhausted);
    }

    /** The handler has kept the buffer and the stack was found not empty; then others act. */
    method FindFree(bdp: nat, status: bv16, ghost budget: nat) returns (ghost left: nat, ghost run: seq<Label>)
      requires ValidAt(bdp) && phase == Handling(true) && status == rxBd[bdp].sc && !Empty(status)
      requires iFreeRxBufferTop >= 0
      modifies this`iFreeRxBufferTop, this`held, this`filled, this`phase, rxBd, apbFreeRxBuffer
      ensures ValidAt(bdp) && phase == Swapping && iFreeRxBufferTop >= 0 && rxBd[bdp] == old(rxBd[bdp])
      ensures RoomyRun(old(StateAt(bdp)), run, StateAt(bdp)) && Exhaustions(old(StateAt(bdp)), run) == 0
      ensures |filled| + left == old(|filled|) + budget
    {
      ghost var s := StateAt(bdp);
      phase := Swapping;
      ghost var s1 := StateAt(bdp);
      RoomyStep(s, Return, s1);
      SoundRun(s, [Return], s1, exhausted);
      ghost var outside;
      left, outside := Meanwhile(bdp, budget);
      OutsideKeeps(s1, outside, StateAt(bdp));
      run := [Return] + outside;
      RoomyRunConcat(s, [Return], s1, outside, StateAt(bdp));
    }

    /** Replace the kept buffer by a free one, others acting between the look at the stack and the pop. */
    method Replace(bdp: nat, status: bv16, ghost budget: nat)
      returns (next: nat, ghost left: nat, ghost run: seq<Label>)
      requires ValidAt(bdp) && phase == Handling(true) && status == rxBd[bdp].sc && !Empty(status)
      requires iFreeRxBufferTop >= 0
      modifies this`iFreeRxBufferTop, this`held, this`filled, this`phase, this`done, rxBd, apbFreeRxBuffer
      ensures ValidAt(next) && phase == Polling
      ensures RoomyRun(old(StateAt(bdp)), run, StateAt(next)) && Exhaustions(old(StateAt(bdp)), run) == 0
      ensures |filled| + left == old(|filled|) + budget && done == old(done) + 1
    {
      ghost var s := StateAt(bdp);
      left, run := FindFree(bdp, status, budget);
      ghost var s1 := StateAt(bdp);
      next := Swap(bdp, status);
      RoomyRunConcat(s, run, s1, [Label.Swap], StateAt(next));
      run := run + [Label.Swap];
    }

    /** The handler has returned and the descriptor keeps its buffer: because the handler is through with
        it, or because the stack is empty, and then ring and upper layer share it from now on. */
    method KeepInRing(bdp: nat, status: bv16) returns (next: nat)
      requires ValidAt(bdp) && phase.Handling? && status == rxBd[bdp].sc && !Empty(status)
      requires phase.keep ==> iFreeRxBufferTop < 0
      modifies this`phase, this`done, this`exhausted, rxBd
      ensures ValidAt(next) && phase == Polling && done == old(done) + 1
      ensures exhausted == old(exhausted) + OneIf(old(phase) == Handling(true))
      ensures RoomyRun(old(StateAt(bdp)), [Return], StateAt(next))
      ensures Exhaustions(old(StateAt(bdp)), [Return]) == OneIf(old(phase) == Handling(true))
    {
      ghost var s := StateAt(bdp);
      next := Recycle(bdp, status);
      RoomyStep(s, Return, StateAt(next));
      SoundRun(s, [Return], StateAt(next), exhausted);
      exhausted := exhausted + OneIf(s.phase == Handling(true));
    }

    /** What follows the Rx handler: the stack may be empty. */
    method AfterHandler(bdp: nat, status: bv16, keep: bool, ghost budget: nat)
      returns (next: nat, ghost left: nat, ghost run: seq<Label>)
      requires ValidAt(bdp) && phase == Handling(keep) && status == rxBd[bdp].sc && !Empty(status)
      modifies this`iFreeRxBufferTop, this`held, this`filled, this`phase, this`done, this`exhausted, rxBd, apbFreeRxBuffer
      ensures ValidAt(next) && phase == Polling
      ensures RoomyRun(old(StateAt(bdp)), run, StateAt(next))
      ensures exhausted == old(exhausted) + Exhaustions(old(StateAt(bdp)), run)
      ensures |filled| + left == old(|filled|) + budget && done == old(done) + 1
    {
      if keep && iFreeRxBufferTop >= 0 {
        next, left, run := Replace(bdp, status, budget);
      } else {
        next := KeepInRing(bdp, status);
        left, run := budget, [Return];
      }
    }

    /** A frame without a late collision. */
    method Process(bdp: nat, status: bv16, ghost budget: nat)
      returns (next: nat, ghost left: nat, ghost run: seq<Label>)
      requires ValidAt(bdp) && phase == Polling && status == rxBd[bdp].sc && !Empty(status) && !Collided(status)
      modifies this, rxBd, apbFreeRxBuffer
      ensures ValidAt(next) && phase == Polling && curRx == old(curRx)
      ensures RoomyRun(old(StateAt(bdp)), run, StateAt(next))
      ensures exhausted == old(exhausted) + Exhaustions(old(StateAt(bdp)), run)
      ensures |filled| + left == old(|filled|) + budget && done == old(done) + 1
    {
      ghost var s := StateAt(bdp);
      assert Ahead(s)[0] == s.ring[bdp];
      var keep;
      keep, left, run := RxHandler(bdp, budget);
      ghost var s1 := StateAt(bdp);
      ghost var more;
      next, left, more := AfterHandler(bdp, status, keep, left);
      RoomyRunConcat(s, run, s1, more, StateAt(next));
      run := run + more;
    }

    /** A frame with a late collision. */
    method Skip(bdp: nat, status: bv16) returns (next: nat)
      requires ValidAt(bdp) && phase == Polling && status == rxBd[bdp].sc && !Empty(status) && Collided(status)
      modifies this`phase, this`done, rxBd
      ensures ValidAt(next) && phase == Polling && done == old(done) + 1
      ensures RoomyRun(old(StateAt(bdp)), [Drop], StateAt(next)) && Exhaustions(old(StateAt(bdp)), [Drop]) == 0
    {
      ghost var s := StateAt(bdp);
      assert Ahead(s)[0] == s.ring[bdp];
      next := Recycle(bdp, status);
      RoomyStep(s, Drop, StateAt(next));
      SoundRun(s, [Drop], StateAt(next), exhausted);
    }

    /** One evaluation of the loop condition and, unless it ends the loop, one pass. */
    method OnePass(bdp: nat, ghost budget: nat)
      returns (goesOn: bool, next: nat, ghost left: nat, ghost run: seq<Label>)
      requires ValidAt(bdp) && phase == Polling
      modifies this, rxBd, apbFreeRxBuffer
      ensures ValidAt(next) && phase == Polling && curRx == old(curRx)
      ensures RoomyRun(old(StateAt(bdp)), run, StateAt(next))
      ensures exhausted == old(exhausted) + Exhaustions(old(StateAt(bdp)), run)
      ensures !goesOn ==> Empty(rxBd[next].sc) && done == old(done)
      ensures goesOn ==> done == old(done) + 1
      ensures |filled| + left == old(|filled|) + budget
    {
      ghost var s := StateAt(bdp);
      ghost var pass;
      left, run := Meanwhile(bdp, budget);
      ghost var s1 := StateAt(bdp);
      OutsideKeeps(s, run, s1);
      var status := rxBd[bdp].sc;
      if Empty(status) {
        return false, bdp, left, run;
      }
      if Collided(status) {
        next := Skip(bdp, status);
        pass := [Drop];
      } else {
        next, left, pass := Process(bdp, status, left);
      }
      RoomyRunConcat(s, run, s1, pass, StateAt(next));
      run := run + pass;
      goesOn := true;
    }

    /** The same, behind what happened since state s. */
    method PassFrom(bdp: nat, ghost budget: nat, ghost s: State, ghost soFar: seq<Label>, ghost before: nat)
      returns (goesOn: bool, next: nat, ghost left: nat, ghost run: seq<Label>)
      requires ValidAt(bdp) && phase == Polling && Reaches(s, soFar, StateAt(bdp), exhausted - before)
      modifies this, rxBd, apbFreeRxBuffer
      ensures ValidAt(next) && phase == Polling && Reaches(s, run, StateAt(next), exhausted - before)
      ensures if goesOn then done == old(done) + 1 else Empty(rxBd[next].sc) && done == old(done)
      ensures |filled| + left == old(|filled|) + budget && done <= |filled|
    {
      ghost var s1, n := StateAt(bdp), exhausted;
      ghost var more;
      goesOn, next, left, more := OnePass(bdp, budget);
      ReachesConcat(s, soFar, s1, n - before, more, StateAt(next), exhausted - n);
      run := soFar + more;
    }

    /** The receive interrupt, with at most the given number of frames arriving while it runs: it goes
        through the filled descriptors from cur_rx on until it meets an empty one, however many buffers
        the upper layer keeps, as long as releases find room. */
    method FecEnetRx(ghost budget: nat) returns (ghost run: seq<Label>)
      requires ValidAt(curRx) && phase == Polling
      modifies this, rxBd, apbFreeRxBuffer
      ensures ValidAt(curRx) && phase == Polling
      ensures RoomyRun(old(StateAt(curRx)), run, StateAt(curRx))
      ensures exhausted == old(exhausted) + Exhaustions(old(StateAt(curRx)), run)
      ensures done == |filled| && delivered == Good(filled)
      ensures |filled| <= old(|filled|) + budget
    {
      var bdp: nat := curRx;
      var goesOn := true;
      ghost var s := StateAt(curRx);
      ghost var left: nat := budget;
      ghost var before := exhausted;
      run := [];
      while goesOn
        invariant ValidAt(bdp) && phase == Polling
        invariant Reaches(s, run, StateAt(bdp), exhausted - before)
        invariant !goesOn ==> Empty(rxBd[bdp].sc)
        invariant |filled| + left == |s.filled| + budget
        invariant done <= |filled|
        decreases goesOn, |filled| + left - done
      {
        goesOn, bdp, left, run := PassFrom(bdp, left, s, run, before);
      }
      StoreCursor(bdp);
    }

    /** The end of the interrupt. */
    method StoreCursor(bdp: nat)
      requires ValidAt(bdp) && phase == Polling && Empty(rxBd[bdp].sc)
      modifies this`curRx
      ensures curRx == bdp && StateAt(curRx) == old(StateAt(bdp)) && ValidAt(curRx)
      ensures done == |filled| && delivered == Good(filled)
    {
      AllDelivered(StateAt(bdp));
      curRx := bdp;
    }

    /** Whatever happens between two points at which no interrupt is under way. */
    method Operate() returns (ghost run: seq<Label>)
      requires ValidAt(curRx) && phase == Polling
      modifies this, rxBd, apbFreeRxBuffer
      ensures ValidAt(curRx) && phase == Polling
      ensures RoomyRun(old(StateAt(curRx)), run, StateAt(curRx))
    {
      run := [];
    }
  }
}
