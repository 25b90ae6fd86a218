/** The transmit ring of the FEC driver (staging/edrv/EdrvFec.c): descriptors, two cursors kept twice
    (as descriptor pointers and as masked indices) and a bit that tells a full ring from an empty one.
    The driver, its interrupt and the Ethernet controller act on it in turns. */
module FecTxRing {
  import opened Common

  const TX_RING_SIZE := 16
  const TX_RING_MOD_MASK := 15

  const BD_ENET_TX_READY: bv16 := 0x8000
  const BD_ENET_TX_WRAP: bv16 := 0x2000
  const BD_ENET_TX_INTR: bv16 := 0x1000
  const BD_ENET_TX_LAST: bv16 := 0x0800
  const BD_ENET_TX_TC: bv16 := 0x0400
  const BD_ENET_TX_STATS: bv16 := 0x03ff

  /** The caller's buffer structure, known here by its address. */
  datatype TxBuffer = TxBuffer(number: nat, data: nat, msgLen: nat, hasTxHandler: bool)

  datatype Descriptor = Descriptor(sc: bv16, datlen: nat, bufaddr: nat)

  datatype Ring = Ring(bd: seq<Descriptor>, apTxBuffer: seq<Option<TxBuffer>>,
                       curTx: nat, dirtyTx: nat, txbCur: nat, txbDirty: nat, txFull: bool)

  predicate Ready(sc: bv16) {
    sc & BD_ENET_TX_READY != 0
  }

  predicate Wraps(sc: bv16) {
    sc & BD_ENET_TX_WRAP != 0
  }

  /** The status word with which a frame is handed to the controller. */
  function SendStatus(sc: bv16): (r: bv16)
    ensures Ready(r) && (Wraps(r) <==> Wraps(sc))
    ensures Ordered(r) && r & BD_ENET_TX_STATS == 0
  {
    (sc & !BD_ENET_TX_STATS) | (BD_ENET_TX_READY | BD_ENET_TX_INTR | BD_ENET_TX_LAST | BD_ENET_TX_TC)
  }

  /** The driver computes it in two steps. */
  lemma SendStatusInSteps(sc: bv16)
    ensures (sc & !BD_ENET_TX_STATS) | (BD_ENET_TX_READY | BD_ENET_TX_INTR | BD_ENET_TX_LAST | BD_ENET_TX_TC) == SendStatus(sc)
  {
  }

  /** The controller is to raise an interrupt, to end the frame here and to append the check sum. */
  predicate Ordered(sc: bv16) {
    sc & BD_ENET_TX_INTR != 0 && sc & BD_ENET_TX_LAST != 0 && sc & BD_ENET_TX_TC != 0
  }

  /** The status word with which the controller hands it back, with any status bits. */
  function DoneStatus(sc: bv16, stats: bv16): (r: bv16)
    ensures !Ready(r) && (Wraps(r) <==> Wraps(sc))
  {
    (sc & !BD_ENET_TX_READY & !BD_ENET_TX_STATS) | (stats & BD_ENET_TX_STATS)
  }

  /** The controller leaves its orders in place. */
  lemma DoneIsOrdered(sc: bv16, stats: bv16)
    ensures Ordered(DoneStatus(sc, stats)) <==> Ordered(sc)
  {
    var r := DoneStatus(sc, stats);
    DoneKeeps(sc, stats, BD_ENET_TX_INTR);
    DoneKeeps(sc, stats, BD_ENET_TX_LAST);
    DoneKeeps(sc, stats, BD_ENET_TX_TC);
  }

  lemma DoneKeeps(sc: bv16, stats: bv16, bit: bv16)
    requires bit & (BD_ENET_TX_READY | BD_ENET_TX_STATS) == 0
    ensures DoneStatus(sc, stats) & bit == sc & bit
  {
  }

  /** Sizes, cursors in the ring and in lockstep, and the WRAP flag on the last descriptor only. */
  predicate WellFormed(r: Ring) {
    && |r.bd| == TX_RING_SIZE && |r.apTxBuffer| == TX_RING_SIZE
    && r.curTx < TX_RING_SIZE && r.dirtyTx < TX_RING_SIZE
    && r.txbCur == r.curTx && r.txbDirty == r.dirtyTx
    && (forall i :: 0 <= i < TX_RING_SIZE ==> (Wraps(r.bd[i].sc) <==> i == TX_RING_SIZE - 1))
  }

  /** `bdp++`, or back to the base after the descriptor with the WRAP flag. */
  function Advance(r: Ring, i: nat): nat
    requires i < |r.bd|
  {
    if Wraps(r.bd[i].sc) then 0 else i + 1
  }

  /** The ring after EdrvSendTxMsg took a buffer. */
  function Enqueue(r: Ring, b: TxBuffer): Ring
    requires WellFormed(r)
  {
    var next := Advance(r, r.curTx);
    r.(bd := r.bd[r.curTx := Descriptor(SendStatus(r.bd[r.curTx].sc), b.msgLen % 0x1_0000, b.data)],
       apTxBuffer := r.apTxBuffer[r.txbCur := Some(b)],
       txbCur := (r.txbCur + 1) % TX_RING_SIZE,
       txFull := r.txFull || next == r.dirtyTx,
       curTx := next)
  }

  /** Whether the loop of fec_enet_tx goes on. */
  predicate CanRetire(r: Ring)
    requires WellFormed(r)
  {
    !Ready(r.bd[r.dirtyTx].sc) && !(r.dirtyTx == r.curTx && !r.txFull)
  }

  /** One pass of the loop of fec_enet_tx. */
  function Retire(r: Ring): Ring
    requires WellFormed(r)
  {
    r.(bd := r.bd[r.dirtyTx := r.bd[r.dirtyTx].(bufaddr := 0)],
       apTxBuffer := r.apTxBuffer[r.txbDirty := None],
       txbDirty := (r.txbDirty + 1) % TX_RING_SIZE,
       txFull := false,
       dirtyTx := Advance(r, r.dirtyTx))
  }

  function Finish(r: Ring, i: nat, stats: bv16): Ring
    requires i < |r.bd|
  {
    r.(bd := r.bd[i := r.bd[i].(sc := DoneStatus(r.bd[i].sc, stats))])
  }

  // ----- runs

  /** The ring with its history: the buffers accepted so far and the entries taken out so far. */
  datatype State = State(ring: Ring, accepted: seq<Option<TxBuffer>>, retired: seq<Option<TxBuffer>>)

  /** A send, the controller finishing descriptor i, one pass of the interrupt's loop. */
  datatype Label = Send(b: TxBuffer) | Finished(i: nat, stats: bv16) | Retired

  function Next(s: State, l: Label): Option<State>
    requires WellFormed(s.ring)
  {
    match l
    case Send(b) =>
      // a READY descriptor at the cursor is reported as kEplEdrvNoFreeTxDesc
      if Ready(s.ring.bd[s.ring.curTx].sc) then Some(s)
      else Some(s.(ring := Enqueue(s.ring, b), accepted := s.accepted + [Some(b)]))
    case Finished(i, stats) =>
      if i < TX_RING_SIZE && Ready(s.ring.bd[i].sc) then Some(s.(ring := Finish(s.ring, i, stats))) else None
    case Retired =>
      if CanRetire(s.ring)
      then Some(s.(ring := Retire(s.ring), retired := s.retired + [s.ring.apTxBuffer[s.ring.txbDirty]]))
      else None
  }

  lemma NextIsWellFormed(s: State, l: Label)
    requires WellFormed(s.ring) && Next(s, l).Some?
    ensures WellFormed(Next(s, l).value.ring)
  {
  }

  /** Main result on the ring's shape: every run keeps it well formed. */
  function Execute(s: State, run: seq<Label>): (r: Option<State>)
    requires WellFormed(s.ring)
    ensures r.Some? ==> WellFormed(r.value.ring)
    decreases |run|
  {
    if run == [] then Some(s) else
    match Next(s, run[0])
    case None => None
    case Some(t) =>
      NextIsWellFormed(s, run[0]);
      Execute(t, run[1..])
  }

  // ----- the window of outstanding buffers

  /** How many buffers the driver takes to be outstanding. */
  function Outstanding(r: Ring): nat
    requires WellFormed(r)
  {
    if r.curTx == r.dirtyTx then (if r.txFull then TX_RING_SIZE else 0)
    else (r.curTx + TX_RING_SIZE - r.dirtyTx) % TX_RING_SIZE
  }

  function Slot(r: Ring, k: nat): nat {
    (r.dirtyTx + k) % TX_RING_SIZE
  }

  /** The entries from dirty_tx up to cur_tx. */
  function Window(r: Ring): seq<Option<TxBuffer>>
    requires WellFormed(r)
  {
    seq(Outstanding(r), k requires 0 <= k => r.apTxBuffer[Slot(r, k)])
  }

  /** First in, first out, each exactly once: what was accepted is what came out, in the same order,
      followed by what is in the window. */
  predicate Fifo(s: State)
    requires WellFormed(s.ring)
  {
    s.accepted == s.retired + Window(s.ring)
  }

  predicate InWindow(r: Ring, i: nat)
    requires WellFormed(r)
  {
    (i + TX_RING_SIZE - r.dirtyTx) % TX_RING_SIZE < Outstanding(r)
  }

  predicate Inv(s: State) {
    && WellFormed(s.ring)
    && Fifo(s)
    && (s.ring.txFull ==> s.ring.curTx == s.ring.dirtyTx)
    && ReadyInWindow(s.ring)
  }

  /** Every buffer was taken while the driver's tx_full bit was clear. */
  predicate NoSendWhenFull(s: State, run: seq<Label>)
    requires WellFormed(s.ring) && Execute(s, run).Some?
    decreases |run|
  {
    run == [] ||
    (&& (run[0].Send? && s.ring.txFull ==> Ready(s.ring.bd[s.ring.curTx].sc))
     && NoSendWhenFull(Next(s, run[0]).value, run[1..]))
  }

  predicate Idle(s: State) {
    && WellFormed(s.ring)
    && s.ring.curTx == s.ring.dirtyTx && !s.ring.txFull
    && (forall i :: 0 <= i < TX_RING_SIZE ==> !Ready(s.ring.bd[i].sc))
    && s.accepted == [] && s.retired == []
  }

  lemma EnqueueShape(r: Ring, b: TxBuffer)
    requires WellFormed(r)
    ensures WellFormed(Enqueue(r, b))
    ensures Outstanding(r) < TX_RING_SIZE ==> Outstanding(Enqueue(r, b)) == Outstanding(r) + 1
    ensures Outstanding(r) == TX_RING_SIZE ==> Outstanding(Enqueue(r, b)) == 1
    ensures Slot(r, Outstanding(r)) == r.curTx
  {
  }

  lemma RetireShape(r: Ring)
    requires WellFormed(r) && Outstanding(r) > 0
    ensures WellFormed(Retire(r))
    ensures Outstanding(Retire(r)) == Outstanding(r) - 1
    ensures Retire(r).dirtyTx == (r.dirtyTx + 1) % TX_RING_SIZE
  {
  }

  lemma SlotsDiffer(r: Ring, j: nat, k: nat)
    requires r.dirtyTx < TX_RING_SIZE && j < k < TX_RING_SIZE
    ensures Slot(r, j) != Slot(r, k)
  {
  }

  lemma EnqueueExtendsWindow(r: Ring, b: TxBuffer)
    requires WellFormed(r) && Outstanding(r) < TX_RING_SIZE
    ensures WellFormed(Enqueue(r, b))
    ensures Window(Enqueue(r, b)) == Window(r) + [Some(b)]
  {
    EnqueueShape(r, b);
    var w, w' := Window(r), Window(Enqueue(r, b));
    forall k | 0 <= k < |w|
      ensures w'[k] == w[k]
    {
      SlotsDiffer(r, k, |w|);
    }
    assert w'[|w|] == Some(b);
  }

  lemma RetireShortensWindow(r: Ring)
    requires WellFormed(r) && Outstanding(r) > 0
    ensures WellFormed(Retire(r))
    ensures Window(r) == [r.apTxBuffer[r.txbDirty]] + Window(Retire(r))
  {
    RetireShape(r);
    var w, w' := Window(r), Window(Retire(r));
    assert Slot(r, 0) == r.dirtyTx;
    forall k | 0 <= k < |w'|
      ensures w[k + 1] == w'[k]
    {
      SlotsDiffer(r, 0, k + 1);
      assert Slot(Retire(r), k) == Slot(r, k + 1);
    }
  }

  /** A READY descriptor belongs to the window. */
  predicate ReadyInWindow(r: Ring)
    requires WellFormed(r)
  {
    forall i :: 0 <= i < TX_RING_SIZE && Ready(r.bd[i].sc) ==> InWindow(r, i)
  }

  lemma EnqueueKeepsReady(r: Ring, b: TxBuffer)
    requires WellFormed(r) && Outstanding(r) < TX_RING_SIZE && ReadyInWindow(r)
    ensures WellFormed(Enqueue(r, b)) && ReadyInWindow(Enqueue(r, b))
  {
    EnqueueShape(r, b);
    var r' := Enqueue(r, b);
    forall i | 0 <= i < TX_RING_SIZE && Ready(r'.bd[i].sc)
      ensures InWindow(r', i)
    {
      if i != r.curTx {
        assert InWindow(r, i);
      }
    }
  }

  lemma DistanceShrinks(i: nat, dirty: nat)
    requires i < TX_RING_SIZE && dirty < TX_RING_SIZE && i != dirty
    ensures (i + TX_RING_SIZE - (dirty + 1) % TX_RING_SIZE) % TX_RING_SIZE
         == (i + TX_RING_SIZE - dirty) % TX_RING_SIZE - 1
  {
  }

  lemma RetireKeepsReady(r: Ring)
    requires WellFormed(r) && CanRetire(r) && ReadyInWindow(r)
    ensures WellFormed(Retire(r)) && ReadyInWindow(Retire(r))
  {
    RetireShape(r);
    var r' := Retire(r);
    forall i | 0 <= i < TX_RING_SIZE && Ready(r'.bd[i].sc)
      ensures InWindow(r', i)
    {
      assert InWindow(r, i) && i != r.dirtyTx;
      DistanceShrinks(i, r.dirtyTx);
    }
  }

  lemma InvSend(s: State, b: TxBuffer)
    requires Inv(s) && !s.ring.txFull
    ensures Inv(State(Enqueue(s.ring, b), s.accepted + [Some(b)], s.retired))
  {
    EnqueueShape(s.ring, b);
    EnqueueExtendsWindow(s.ring, b);
    EnqueueKeepsReady(s.ring, b);
    assert s.accepted + [Some(b)] == s.retired + (Window(s.ring) + [Some(b)]);
  }

  lemma InvFinished(s: State, i: nat, stats: bv16)
    requires Inv(s) && i < TX_RING_SIZE
    ensures Inv(s.(ring := Finish(s.ring, i, stats)))
  {
    assert Window(Finish(s.ring, i, stats)) == Window(s.ring);
  }

  lemma InvRetired(s: State)
    requires Inv(s) && CanRetire(s.ring)
    ensures Inv(s.(ring := Retire(s.ring), retired := s.retired + [s.ring.apTxBuffer[s.ring.txbDirty]]))
  {
    var entry := s.ring.apTxBuffer[s.ring.txbDirty];
    RetireShape(s.ring);
    RetireShortensWindow(s.ring);
    RetireKeepsReady(s.ring);
    assert (s.retired + [entry]) + Window(Retire(s.ring)) == s.retired + ([entry] + Window(Retire(s.ring)));
  }

  lemma InvStep(s: State, l: Label)
    requires Inv(s) && Next(s, l).Some?
    requires l.Send? && s.ring.txFull ==> Ready(s.ring.bd[s.ring.curTx].sc)
    ensures Inv(Next(s, l).value)
  {
    match l
    case Send(b) =>
      if !Ready(s.ring.bd[s.ring.curTx].sc) {
        InvSend(s, b);
      }
    case Finished(i, stats) => InvFinished(s, i, stats);
    case Retired => InvRetired(s);
  }

  lemma {:induction false} InvRun(s: State, run: seq<Label>)
    requires Inv(s) && Execute(s, run).Some? && NoSendWhenFull(s, run)
    ensures Inv(Execute(s, run).value)
    decreases |run|
  {
    if run != [] {
      InvStep(s, run[0]);
      InvRun(Next(s, run[0]).value, run[1..]);
    }
  }

  /** Accepted buffers that are neither retired nor in the window any more. */
  function Lost(s: State): int
    requires WellFormed(s.ring)
  {
    |s.accepted| - |s.retired| - Outstanding(s.ring)
  }

  /** Nothing brings a lost buffer back; a send into a full ring loses a ring full of them. */
  lemma LostStep(s: State, l: Label)
    requires WellFormed(s.ring) && Next(s, l).Some?
    ensures WellFormed(Next(s, l).value.ring)
    ensures Lost(Next(s, l).value)
         == Lost(s) + if l.Send? && Outstanding(s.ring) == TX_RING_SIZE && Next(s, l).value != s
                      then TX_RING_SIZE else 0
  {
    var t := Next(s, l).value;
    NextIsWellFormed(s, l);
    if l.Send? && t != s {
      EnqueueShape(s.ring, l.b);
    } else if l.Retired? {
      RetireShape(s.ring);
    }
  }

  lemma {:induction false} LostRun(s: State, run: seq<Label>)
    requires WellFormed(s.ring) && Execute(s, run).Some?
    ensures Lost(Execute(s, run).value) >= Lost(s)
    decreases |run|
  {
    if run != [] {
      LostStep(s, run[0]);
      LostRun(Next(s, run[0]).value, run[1..]);
    }
  }

  lemma {:induction false} SendWhenFullLoses(s: State, run: seq<Label>)
    requires Inv(s) && Execute(s, run).Some? && !NoSendWhenFull(s, run)
    ensures Lost(Execute(s, run).value) > 0
    decreases |run|
  {
    var t := Next(s, run[0]).value;
    LostStep(s, run[0]);
    if run[0].Send? && s.ring.txFull && !Ready(s.ring.bd[s.ring.curTx].sc) {
      assert |t.accepted| == |s.accepted| + 1;
      LostRun(t, run[1..]);
    } else {
      InvStep(s, run[0]);
      SendWhenFullLoses(t, run[1..]);
    }
  }

  /** Main result: from an idle ring, a run of sends, completions and interrupts leaves an exactly-once
      FIFO if and only if no send was accepted while tx_full was set. */
  lemma FifoExactlyWhen(s: State, run: seq<Label>)
    requires Idle(s) && Execute(s, run).Some?
    ensures Fifo(Execute(s, run).value) <==> NoSendWhenFull(s, run)
  {
    assert Window(s.ring) == [];
    if NoSendWhenFull(s, run) {
      InvRun(s, run);
    } else {
      SendWhenFullLoses(s, run);
    }
  }

  /** The driver reports a lack of descriptors only with the whole ring outstanding, and then
      cur_tx = dirty_tx means full; in such runs tx_full says exactly that. */
  lemma RefusedOnlyWhenFull(s: State, run: seq<Label>)
    requires Idle(s) && Execute(s, run).Some? && NoSendWhenFull(s, run)
    ensures var r := Execute(s, run).value.ring;
            && (Ready(r.bd[r.curTx].sc) ==> Outstanding(r) == TX_RING_SIZE)
            && (r.txFull <==> Outstanding(r) == TX_RING_SIZE)
            && (r.curTx == r.dirtyTx <==> Outstanding(r) == 0 || Outstanding(r) == TX_RING_SIZE)
  {
    assert Window(s.ring) == [];
    InvRun(s, run);
  }

  /** A pass takes an entry out exactly while something is outstanding and the oldest is not READY. */
  lemma RetiresExactlyWhen(s: State, run: seq<Label>)
    requires Idle(s) && Execute(s, run).Some? && NoSendWhenFull(s, run)
    ensures var t := Execute(s, run).value;
            Next(t, Retired).Some? <==> |t.retired| < |t.accepted| && !Ready(t.ring.bd[t.ring.dirtyTx].sc)
  {
    assert Window(s.ring) == [];
    InvRun(s, run);
  }

  // ----- what the controller is given

  /** The descriptor leads the controller to this buffer and its length, and says what to do with it; while
      it is READY no status of an earlier frame is left in it. */
  predicate Describes(d: Descriptor, entry: Option<TxBuffer>) {
    && entry.Some? && d.bufaddr == entry.value.data && d.datlen == entry.value.msgLen % 0x1_0000
    && Ordered(d.sc) && (Ready(d.sc) ==> d.sc & BD_ENET_TX_STATS == 0)
  }

  predicate WindowDescribed(r: Ring)
    requires WellFormed(r)
  {
    forall k :: 0 <= k < Outstanding(r) ==> Describes(r.bd[Slot(r, k)], r.apTxBuffer[Slot(r, k)])
  }

  /** Nothing outside the window leads to a buffer. */
  predicate RestIsClear(r: Ring)
    requires WellFormed(r)
  {
    forall i :: 0 <= i < TX_RING_SIZE && !InWindow(r, i) ==> r.bd[i].bufaddr == 0 && r.apTxBuffer[i] == None
  }

  lemma EnqueueDescribes(r: Ring, b: TxBuffer)
    requires WellFormed(r) && Outstanding(r) < TX_RING_SIZE && WindowDescribed(r)
    ensures WellFormed(Enqueue(r, b)) && WindowDescribed(Enqueue(r, b))
  {
    EnqueueShape(r, b);
    var r' := Enqueue(r, b);
    forall k | 0 <= k < Outstanding(r')
      ensures Describes(r'.bd[Slot(r', k)], r'.apTxBuffer[Slot(r', k)])
    {
      assert Slot(r', k) == Slot(r, k);
      if k < Outstanding(r) {
        SlotsDiffer(r, k, Outstanding(r));
      }
    }
  }

  lemma RetireDescribes(r: Ring)
    requires WellFormed(r) && Outstanding(r) > 0 && WindowDescribed(r)
    ensures WellFormed(Retire(r)) && WindowDescribed(Retire(r))
  {
    RetireShape(r);
    var r' := Retire(r);
    assert Slot(r, 0) == r.dirtyTx;
    forall k | 0 <= k < Outstanding(r')
      ensures Describes(r'.bd[Slot(r', k)], r'.apTxBuffer[Slot(r', k)])
    {
      SlotsDiffer(r, 0, k + 1);
      assert Slot(r', k) == Slot(r, k + 1);
    }
  }

  lemma EnqueueClear(r: Ring, b: TxBuffer)
    requires WellFormed(r) && Outstanding(r) < TX_RING_SIZE && RestIsClear(r)
    ensures WellFormed(Enqueue(r, b)) && RestIsClear(Enqueue(r, b))
  {
    EnqueueShape(r, b);
    var r' := Enqueue(r, b);
    forall i | 0 <= i < TX_RING_SIZE && !InWindow(r', i)
      ensures r'.bd[i].bufaddr == 0 && r'.apTxBuffer[i] == None
    {
      assert i != r.curTx && !InWindow(r, i);
    }
  }

  lemma RetireClear(r: Ring)
    requires WellFormed(r) && Outstanding(r) > 0 && RestIsClear(r)
    ensures WellFormed(Retire(r)) && RestIsClear(Retire(r))
  {
    RetireShape(r);
    var r' := Retire(r);
    forall i | 0 <= i < TX_RING_SIZE && !InWindow(r', i)
      ensures r'.bd[i].bufaddr == 0 && r'.apTxBuffer[i] == None
    {
      if i != r.dirtyTx {
        DistanceShrinks(i, r.dirtyTx);
        assert !InWindow(r, i);
      }
    }
  }

  lemma DescribedStep(s: State, l: Label)
    requires Inv(s) && Next(s, l).Some? && WindowDescribed(s.ring)
    requires l.Send? && s.ring.txFull ==> Ready(s.ring.bd[s.ring.curTx].sc)
    ensures WellFormed(Next(s, l).value.ring) && WindowDescribed(Next(s, l).value.ring)
    ensures RestIsClear(s.ring) ==> RestIsClear(Next(s, l).value.ring)
  {
    NextIsWellFormed(s, l);
    match l
    case Send(b) =>
      if !Ready(s.ring.bd[s.ring.curTx].sc) {
        EnqueueDescribes(s.ring, b);
        if RestIsClear(s.ring) {
          EnqueueClear(s.ring, b);
        }
      }
    case Finished(i, stats) =>
      DoneIsOrdered(s.ring.bd[i].sc, stats);
      assert Outstanding(Finish(s.ring, i, stats)) == Outstanding(s.ring);
      assert forall k :: 0 <= k < Outstanding(s.ring) ==> Slot(Finish(s.ring, i, stats), k) == Slot(s.ring, k);
      assert forall j :: 0 <= j < TX_RING_SIZE ==> InWindow(Finish(s.ring, i, stats), j) == InWindow(s.ring, j);
    case Retired =>
      RetireDescribes(s.ring);
      if RestIsClear(s.ring) {
        RetireClear(s.ring);
      }
  }

  lemma {:induction false} DescribedRun(s: State, run: seq<Label>)
    requires Inv(s) && Execute(s, run).Some? && NoSendWhenFull(s, run) && WindowDescribed(s.ring)
    ensures WindowDescribed(Execute(s, run).value.ring)
    ensures RestIsClear(s.ring) ==> RestIsClear(Execute(s, run).value.ring)
    decreases |run|
  {
    if run != [] {
      InvStep(s, run[0]);
      DescribedStep(s, run[0]);
      DescribedRun(Next(s, run[0]).value, run[1..]);
    }
  }

  /** Main result on the descriptors: in those runs descriptor number k of the outstanding ones leads to the
      buffer accepted as number k after those that came out, with its length, and if the ring was clear at
      first, nothing else leads anywhere. */
  lemma DescribesWhatWasAccepted(s: State, run: seq<Label>, k: nat)
    requires Idle(s) && Execute(s, run).Some? && NoSendWhenFull(s, run)
    requires k < |Execute(s, run).value.accepted| - |Execute(s, run).value.retired|
    ensures var t := Execute(s, run).value;
            var slot, entry := (t.ring.dirtyTx + k) % TX_RING_SIZE, t.accepted[|t.retired| + k];
            && entry.Some? && t.ring.apTxBuffer[slot] == entry
            && t.ring.bd[slot].bufaddr == entry.value.data
            && t.ring.bd[slot].datlen == entry.value.msgLen % 0x1_0000
            && Ordered(t.ring.bd[slot].sc)
            && (Ready(t.ring.bd[slot].sc) ==> t.ring.bd[slot].sc & BD_ENET_TX_STATS == 0)
  {
    assert Window(s.ring) == [];
    InvRun(s, run);
    DescribedRun(s, run);
    var t := Execute(s, run).value;
    assert t.accepted[|t.retired| + k] == Window(t.ring)[k];
    assert Describes(t.ring.bd[Slot(t.ring, k)], t.ring.apTxBuffer[Slot(t.ring, k)]);
  }

  /** If nothing in the ring leads to a buffer at first, then never anything outside the window: slot i is
      clear unless it is one of the outstanding ones. */
  lemma RestStaysClear(s: State, run: seq<Label>, i: nat)
    requires Idle(s) && Execute(s, run).Some? && NoSendWhenFull(s, run) && i < TX_RING_SIZE
    requires forall j :: 0 <= j < TX_RING_SIZE ==> s.ring.bd[j].bufaddr == 0 && s.ring.apTxBuffer[j] == None
    ensures var t := Execute(s, run).value;
            (t.ring.bd[i].bufaddr == 0 && t.ring.apTxBuffer[i] == None)
            || (i + TX_RING_SIZE - t.ring.dirtyTx) % TX_RING_SIZE < |t.accepted| - |t.retired|
  {
    assert Window(s.ring) == [];
    InvRun(s, run);
    DescribedRun(s, run);
    var t := Execute(s, run).value;
    assert InWindow(t.ring, i) || t.ring.bd[i].bufaddr == 0;
  }

  // ----- a run in which a completion is lost

  lemma {:induction false} ExecuteSnoc(s: State, run: seq<Label>, l: Label)
    requires WellFormed(s.ring) && Execute(s, run).Some?
    ensures Execute(s, run + [l]) == Next(Execute(s, run).value, l)
    decreases |run|
  {
    if run == [] {
      assert (run + [l])[1..] == [];
      assert Next(s, l).Some? ==> WellFormed(Next(s, l).value.ring) by {
        if Next(s, l).Some? { NextIsWellFormed(s, l); }
      }
    } else {
      assert (run + [l])[1..] == run[1..] + [l] && (run + [l])[0] == run[0];
      NextIsWellFormed(s, run[0]);
      ExecuteSnoc(Next(s, run[0]).value, run[1..], l);
    }
  }

  predicate AllReady(r: Ring)
    requires WellFormed(r)
  {
    forall k :: 0 <= k < Outstanding(r) ==> Ready(r.bd[Slot(r, k)].sc)
  }

  lemma EnqueueAllReady(r: Ring, b: TxBuffer)
    requires WellFormed(r) && Outstanding(r) < TX_RING_SIZE && AllReady(r)
    ensures WellFormed(Enqueue(r, b)) && AllReady(Enqueue(r, b))
  {
    EnqueueShape(r, b);
    forall k | 0 <= k < Outstanding(Enqueue(r, b))
      ensures Ready(Enqueue(r, b).bd[Slot(Enqueue(r, b), k)].sc)
    {
      assert Slot(Enqueue(r, b), k) == Slot(r, k);
      if k < Outstanding(r) {
        SlotsDiffer(r, k, Outstanding(r));
      }
    }
  }

  function Entries(bs: seq<TxBuffer>): seq<Option<TxBuffer>> {
    if bs == [] then [] else Entries(bs[..|bs| - 1]) + [Some(bs[|bs| - 1])]
  }

  lemma {:induction false} EntryAt(bs: seq<TxBuffer>, k: nat)
    requires k < |bs|
    ensures |Entries(bs)| == |bs| && Entries(bs)[k] == Some(bs[k])
    decreases |bs|
  {
    if |bs| > 1 {
      EntryAt(bs[..|bs| - 1], if k < |bs| - 1 then k else 0);
    }
  }

  lemma SendOne(s: State, b: TxBuffer) returns (u: State)
    requires Inv(s) && AllReady(s.ring) && Outstanding(s.ring) < TX_RING_SIZE
    ensures Next(s, Send(b)) == Some(u) && Inv(u) && AllReady(u.ring)
    ensures Outstanding(u.ring) == Outstanding(s.ring) + 1 && u.ring.dirtyTx == s.ring.dirtyTx
    ensures u.retired == s.retired && u.accepted == s.accepted + [Some(b)]
  {
    assert !Ready(s.ring.bd[s.ring.curTx].sc);
    u := Next(s, Send(b)).value;
    InvStep(s, Send(b));
    EnqueueShape(s.ring, b);
    EnqueueAllReady(s.ring, b);
  }

  /** Sending as many buffers as the ring holds puts exactly those into the window, each READY. */
  lemma FillRing(s: State, bs: seq<TxBuffer>) returns (run: seq<Label>, t: State)
    requires Idle(s) && |bs| == TX_RING_SIZE
    ensures Execute(s, run) == Some(t) && Inv(t) && AllReady(t.ring)
    ensures Outstanding(t.ring) == TX_RING_SIZE && t.ring.dirtyTx == s.ring.dirtyTx
    ensures t.retired == [] && t.accepted == Entries(bs)
  {
    assert Window(s.ring) == [];
    run, t := [], s;
    for n := 0 to TX_RING_SIZE
      invariant Execute(s, run) == Some(t) && Inv(t) && AllReady(t.ring)
      invariant Outstanding(t.ring) == n && t.ring.dirtyTx == s.ring.dirtyTx
      invariant t.retired == [] && t.accepted == Entries(bs[..n])
    {
      var u := SendOne(t, bs[n]);
      ExecuteSnoc(s, run, Send(bs[n]));
      assert bs[..n + 1][..n] == bs[..n];
      run, t := run + [Send(bs[n])], u;
    }
    assert bs[..TX_RING_SIZE] == bs;
  }

  /** The entry at the head of a full ring is not found anywhere once the slot has been reused. */
  lemma HeadIsGone(full: Ring, r: Ring, last: TxBuffer)
    requires WellFormed(full) && Outstanding(full) == TX_RING_SIZE
    requires r.apTxBuffer == full.apTxBuffer[full.dirtyTx := Some(last)]
    requires Window(full)[0] != Some(last)
    requires forall j :: 0 < j < TX_RING_SIZE ==> Window(full)[j] != Window(full)[0]
    ensures Window(full)[0] !in r.apTxBuffer
  {
    assert Slot(full, 0) == full.dirtyTx;
    forall i | 0 <= i < TX_RING_SIZE && i != full.dirtyTx
      ensures full.apTxBuffer[i] != Window(full)[0]
    {
      var k := (i + TX_RING_SIZE - full.dirtyTx) % TX_RING_SIZE;
      assert Slot(full, k) == i && full.apTxBuffer[i] == Window(full)[k];
    }
  }

  /** After the run the oldest of the buffers bs was accepted, is found nowhere in the ring, and was not
      handed back. */
  predicate LosesOldest(s: State, run: seq<Label>, bs: seq<TxBuffer>, last: TxBuffer)
    requires WellFormed(s.ring) && bs != []
  {
    && Execute(s, run).Some?
    && var t := Execute(s, run).value;
       && t.accepted == Entries(bs) + [Some(last)] && t.retired == []
       && Some(bs[0]) !in t.ring.apTxBuffer
       && !Fifo(t)
  }

  /** A full ring whose oldest frame is finished but not yet retired takes one more buffer.  That
      buffer replaces the oldest one, which will never be handed back. */
  lemma CompletionLost(s: State, bs: seq<TxBuffer>, last: TxBuffer, stats: bv16)
    requires Idle(s) && |bs| == TX_RING_SIZE && last != bs[0]
    requires forall j :: 0 < j < |bs| ==> bs[j] != bs[0]
    ensures exists run :: LosesOldest(s, run, bs, last)
  {
    var head := s.ring.dirtyTx;
    var r, full := FillRing(s, bs);
    EntryAt(bs, 0);
    assert full.retired + Window(full.ring) == Window(full.ring);
    assert Slot(full.ring, 0) == head;
    var finished := Next(full, Finished(head, stats)).value;
    ExecuteSnoc(s, r, Finished(head, stats));
    NextIsWellFormed(full, Finished(head, stats));
    var run := r + [Finished(head, stats)];
    var t := Next(finished, Send(last)).value;
    ExecuteSnoc(s, run, Send(last));
    forall j | 0 < j < TX_RING_SIZE
      ensures Entries(bs)[j] != Entries(bs)[0]
    {
      EntryAt(bs, j);
    }
    HeadIsGone(full.ring, t.ring, last);
    EnqueueShape(finished.ring, last);
    assert LosesOldest(s, run + [Send(last)], bs, last);
  }

  // ----- the driver

  const EDRV_MAX_TX_BUFFERS := 42

  datatype EplKernel = EplSuccessful | EplEdrvBufNotExisting | EplEdrvNoFreeTxDesc

  /** The buffers whose handler is called when these entries are retired. */
  function HandlerCalls(entries: seq<Option<TxBuffer>>): seq<TxBuffer> {
    if entries == [] then []
    else
      var e := entries[|entries| - 1];
      HandlerCalls(entries[..|entries| - 1]) + (if e.Some? && e.value.hasTxHandler then [e.value] else [])
  }

  /** Independently of how they are collected: the handler of every entry that has one is called, in order,
      and no other. */
  lemma {:induction false} HandlerCallsExactly(entries: seq<Option<TxBuffer>>, b: TxBuffer)
    ensures multiset(HandlerCalls(entries))[b] == if b.hasTxHandler then multiset(entries)[Some(b)] else 0
    decreases |entries|
  {
    if entries != [] {
      var front, last := entries[..|entries| - 1], entries[|entries| - 1];
      HandlerCallsExactly(front, b);
      assert entries == front + [last];
    }
  }

  lemma {:induction false} HandlerCallsInOrder(entries: seq<Option<TxBuffer>>, k: nat)
    requires k < |entries|
    ensures HandlerCalls(entries[..k]) <= HandlerCalls(entries)
    ensures entries[k].Some? && entries[k].value.hasTxHandler ==>
      HandlerCalls(entries[..k]) + [entries[k].value] <= HandlerCalls(entries)
    decreases |entries|
  {
    var front := entries[..|entries| - 1];
    assert entries[..k] == front[..k];
    if k < |front| {
      HandlerCallsInOrder(front, k);
    }
  }

  lemma HandlerCallsSnoc(entries: seq<Option<TxBuffer>>, e: Option<TxBuffer>)
    ensures HandlerCalls(entries + [e]) == HandlerCalls(entries) + HandlerCalls([e])
  {
    assert (entries + [e])[..|entries|] == entries;
    assert HandlerCalls([e]) == [] + (if e.Some? && e.value.hasTxHandler then [e.value] else []);
  }

  lemma SuffixGrows(before: seq<Option<TxBuffer>>, after: seq<Option<TxBuffer>>, k: nat)
    requires |after| == |before| + 1 && after[..|before|] == before && k <= |before|
    ensures after[k..] == before[k..] + [after[|after| - 1]]
  {
    assert after == before + [after[|before|]];
  }

  /** Descriptors after the controller finished some of them. */
  function FinishAll(bd: seq<Descriptor>, run: seq<Label>): Option<seq<Descriptor>>
    decreases |run|
  {
    if run == [] then Some(bd)
    else if run[0].Finished? && run[0].i < |bd| && Ready(bd[run[0].i].sc)
    then FinishAll(bd[run[0].i := bd[run[0].i].(sc := DoneStatus(bd[run[0].i].sc, run[0].stats))], run[1..])
    else None
  }

  lemma {:induction false} FinishAllRuns(s: State, run: seq<Label>)
    requires WellFormed(s.ring) && FinishAll(s.ring.bd, run).Some?
    ensures Execute(s, run) == Some(s.(ring := s.ring.(bd := FinishAll(s.ring.bd, run).value)))
    decreases |run|
  {
    if run != [] {
      NextIsWellFormed(s, run[0]);
      FinishAllRuns(Next(s, run[0]).value, run[1..]);
    }
  }

  lemma {:induction false} ExecuteConcat(s: State, run: seq<Label>, more: seq<Label>)
    requires WellFormed(s.ring) && Execute(s, run).Some?
    ensures Execute(s, run + more) == Execute(Execute(s, run).value, more)
    decreases |more|
  {
    if more == [] {
      assert run + more == run;
    } else {
      ExecuteSnoc(s, run, more[0]);
      assert run + more == (run + [more[0]]) + more[1..];
      var t := Execute(s, run).value;
      if Next(t, more[0]).Some? {
        ExecuteConcat(s, run + [more[0]], more[1..]);
      } else {
        StuckRun(s, run + [more[0]], more[1..]);
      }
    }
  }

  lemma {:induction false} StuckRun(s: State, run: seq<Label>, more: seq<Label>)
    requires WellFormed(s.ring) && Execute(s, run).None?
    ensures Execute(s, run + more).None?
    decreases |run|
  {
    assert (run + more)[0] == run[0] && (run + more)[1..] == run[1..] + more;
    if Next(s, run[0]).Some? {
      NextIsWellFormed(s, run[0]);
      StuckRun(Next(s, run[0]).value, run[1..], more);
    }
  }

  /** A run without sends leads from s to t. */
  predicate InterruptRun(s: State, run: seq<Label>, t: State) {
    && WellFormed(s.ring) && WellFormed(t.ring)
    && Execute(s, run) == Some(t)
    && (forall l :: l in run ==> !l.Send?)
  }

  lemma InterruptRunConcat(s: State, run: seq<Label>, t: State, more: seq<Label>, u: State)
    requires InterruptRun(s, run, t) && InterruptRun(t, more, u)
    ensures InterruptRun(s, run + more, u)
  {
    ExecuteConcat(s, run, more);
  }

  /** The transmit part of the driver's private structure. */
  class FecEnet {
    const txBd: array<Descriptor>
    const apTxBuffer: array<Option<TxBuffer>>
    const afTxBufferUsed: array<bool>
    var curTx: nat
    var dirtyTx: nat
    var txbCur: nat
    var txbDirty: nat
    var txFull: bool
    ghost var accepted: seq<Option<TxBuffer>>
    ghost var retired: seq<Option<TxBuffer>>

    /** The state, with dirty standing for dirty_tx while the interrupt keeps it in a local variable. */
    ghost function StateWith(dirty: nat): State
      reads this, txBd, apTxBuffer
    {
      State(Ring(txBd[..], apTxBuffer[..], curTx, dirty, txbCur, txbDirty, txFull), accepted, retired)
    }

    ghost function TheState(): State
      reads this, txBd, apTxBuffer
    {
      StateWith(dirtyTx)
    }

    ghost predicate Valid()
      reads this, txBd, apTxBuffer
    {
      afTxBufferUsed.Length == EDRV_MAX_TX_BUFFERS && WellFormed(TheState().ring)
    }

    /** fec_alloc_buffers and the first fec_restart. */
    constructor ()
      ensures Valid() && Idle(TheState())
      ensures forall i :: 0 <= i < TX_RING_SIZE ==> txBd[i].bufaddr == 0 && apTxBuffer[i] == None
    {
      txBd := new Descriptor[TX_RING_SIZE](i => Descriptor(if i == TX_RING_SIZE - 1 then BD_ENET_TX_WRAP else 0, 0, 0));
      apTxBuffer := new Option<TxBuffer>[TX_RING_SIZE](_ => None);
      afTxBufferUsed := new bool[EDRV_MAX_TX_BUFFERS](_ => false);
      curTx, dirtyTx, txbCur, txbDirty, txFull := 0, 0, 0, 0, false;
      accepted, retired := [], [];
    }

    method EdrvSendTxMsg(pTxBuffer: TxBuffer) returns (ret: EplKernel)
      requires Valid()
      modifies this, txBd, apTxBuffer
      ensures Valid()
      ensures ret == EplEdrvBufNotExisting
         <==> pTxBuffer.number >= EDRV_MAX_TX_BUFFERS || !old(afTxBufferUsed[pTxBuffer.number])
      ensures ret == EplEdrvBufNotExisting ==> TheState() == old(TheState())
      ensures ret != EplEdrvBufNotExisting ==> Next(old(TheState()), Send(pTxBuffer)) == Some(TheState())
      ensures ret != EplEdrvBufNotExisting ==> (ret == EplSuccessful <==> !Ready(old(txBd[curTx].sc)))
      ensures ret == EplSuccessful ==>
        var d := txBd[old(curTx)];
        && d.bufaddr == pTxBuffer.data && d.datlen == pTxBuffer.msgLen % 0x1_0000
        && apTxBuffer[old(curTx)] == Some(pTxBuffer)
    {
      if pTxBuffer.number >= EDRV_MAX_TX_BUFFERS || !afTxBufferUsed[pTxBuffer.number] {
        return EplEdrvBufNotExisting;
      }
      var bdp := curTx;
      var status := txBd[bdp].sc;
      if Ready(status) {
        return EplEdrvNoFreeTxDesc;
      }
      ghost var r := TheState().ring;
      status := status & !BD_ENET_TX_STATS;
      apTxBuffer[txbCur] := Some(pTxBuffer);
      txbCur := (txbCur + 1) % TX_RING_SIZE;
      status := status | (BD_ENET_TX_READY | BD_ENET_TX_INTR | BD_ENET_TX_LAST | BD_ENET_TX_TC);
      SendStatusInSteps(r.bd[bdp].sc);
      txBd[bdp] := Descriptor(status, pTxBuffer.msgLen % 0x1_0000, pTxBuffer.data);
      if Wraps(status) {
        bdp := 0;
      } else {
        bdp := bdp + 1;
      }
      if bdp == dirtyTx {
        txFull := true;
      }
      curTx := bdp;
      accepted := accepted + [Some(pTxBuffer)];
      EnqueueShape(r, pTxBuffer);
      assert TheState().ring == Enqueue(r, pTxBuffer);
      return EplSuccessful;
    }

    /** Whatever the controller does meanwhile: it finishes some READY descriptors. */
    method ControllerTransmits() returns (ghost run: seq<Label>)
      modifies txBd
      ensures FinishAll(old(txBd[..]), run) == Some(txBd[..])
      ensures forall l :: l in run ==> l.Finished?
    {
      run := [];
    }

    /** The same, as a run of the whole ring. */
    method Meanwhile(bdp: nat) returns (ghost run: seq<Label>)
      requires WellFormed(StateWith(bdp).ring)
      modifies txBd
      ensures Execute(old(StateWith(bdp)), run) == Some(StateWith(bdp))
      ensures forall l :: l in run ==> l.Finished?
    {
      run := ControllerTransmits();
      FinishAllRuns(old(StateWith(bdp)), run);
    }

    /** The body of the interrupt's loop for a descriptor that can be retired. */
    method RetireEntry(bdp: nat, status: bv16) returns (next: nat, call: seq<TxBuffer>)
      requires WellFormed(StateWith(bdp).ring) && CanRetire(StateWith(bdp).ring)
      requires status == txBd[bdp].sc
      modifies this, txBd, apTxBuffer
      ensures curTx == old(curTx)
      ensures WellFormed(StateWith(next).ring)
      ensures Next(old(StateWith(bdp)), Retired) == Some(StateWith(next))
      ensures Outstanding(StateWith(next).ring) == old(Outstanding(StateWith(bdp).ring)) - 1
      ensures |retired| == |old(retired)| + 1 && retired[..|old(retired)|] == old(retired)
      ensures call == HandlerCalls([retired[|old(retired)|]])
    {
      ghost var s := StateWith(bdp);
      RetireShape(s.ring);
      txBd[bdp] := txBd[bdp].(bufaddr := 0);
      var pTxBuffer := apTxBuffer[txbDirty];
      apTxBuffer[txbDirty] := None;
      retired := retired + [pTxBuffer];
      call := [];
      if pTxBuffer.Some? && pTxBuffer.value.hasTxHandler {
        call := [pTxBuffer.value];
      }
      txbDirty := (txbDirty + 1) % TX_RING_SIZE;
      if Wraps(status) {
        next := 0;
      } else {
        next := bdp + 1;
      }
      txFull := false;
      assert StateWith(next).ring == Retire(s.ring);
      assert HandlerCalls([pTxBuffer]) == [] + call;
    }

    /** One evaluation of the loop condition and, unless it ends the loop, one pass. */
    method OnePass(bdp: nat) returns (goesOn: bool, next: nat, call: seq<TxBuffer>, ghost run: seq<Label>)
      requires WellFormed(StateWith(bdp).ring)
      modifies this, txBd, apTxBuffer
      ensures InterruptRun(old(StateWith(bdp)), run, StateWith(next))
      ensures !goesOn ==> !CanRetire(StateWith(next).ring) && retired == old(retired) && call == []
      ensures goesOn ==> |retired| == |old(retired)| + 1 && retired[..|old(retired)|] == old(retired)
      ensures goesOn ==> call == HandlerCalls([retired[|old(retired)|]])
      ensures Outstanding(StateWith(next).ring) == old(Outstanding(StateWith(bdp).ring)) - (if goesOn then 1 else 0)
    {
      run := Meanwhile(bdp);
      var status := txBd[bdp].sc;
      if Ready(status) || (bdp == curTx && !txFull) {
        return false, bdp, [], run;
      }
      next, call := RetireEntry(bdp, status);
      ExecuteSnoc(old(StateWith(bdp)), run, Retired);
      return true, next, call, run + [Retired];
    }

    /** The transmit interrupt.  Whatever the controller finishes while it runs, it is a run of
        completions and retirements, it makes at most one pass per outstanding buffer, and it calls
        the handlers of the buffers it retires in order. */
    method FecEnetTx() returns (calls: seq<TxBuffer>, passes: nat, ghost run: seq<Label>)
      requires Valid()
      modifies this, txBd, apTxBuffer
      ensures Valid()
      ensures InterruptRun(old(TheState()), run, TheState())
      ensures Outstanding(TheState().ring) == 0 || Ready(txBd[dirtyTx].sc)
      ensures passes <= old(Outstanding(TheState().ring)) <= TX_RING_SIZE
      ensures |retired| == |old(retired)| + passes && calls == HandlerCalls(retired[|old(retired)|..])
    {
      var bdp: nat := dirtyTx;
      var goesOn := true;
      calls, passes, run := [], 0, [];
      ghost var before := TheState();
      while goesOn
        invariant InterruptRun(before, run, StateWith(bdp))
        invariant !goesOn ==> !CanRetire(StateWith(bdp).ring)
        invariant Outstanding(StateWith(bdp).ring) + passes == Outstanding(before.ring)
        invariant |retired| == |before.retired| + passes
        invariant calls == HandlerCalls(retired[|before.retired|..])
        decreases goesOn, Outstanding(StateWith(bdp).ring)
      {
        ghost var done := retired[|before.retired|..];
        var next, call;
        ghost var more;
        ghost var s := StateWith(bdp);
        goesOn, next, call, more := OnePass(bdp);
        InterruptRunConcat(before, run, s, more, StateWith(next));
        run, bdp := run + more, next;
        if goesOn {
          HandlerCallsSnoc(done, retired[|retired| - 1]);
          SuffixGrows(s.retired, retired, |before.retired|);
          calls, passes := calls + call, passes + 1;
        }
      }
      dirtyTx := bdp;
    }
  }
}
