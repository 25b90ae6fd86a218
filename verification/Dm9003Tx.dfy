/** Who starts the next frame on the DM9003 (staging/edrv/Edrv9003.c).  The sender looks at the link of
    its buffer, queues the buffer in one locked section, copies the frame to the controller, and counts
    it in a second locked section.  The transmit interrupt takes the oldest buffer off the queue and
    counts down in a locked section, and clears the link of that buffer after it.  Either of them may
    have to start the transmission of the next frame in the controller's memory, and then tells the
    controller the length that the buffer has by then. */
module Dm9003Tx {
  import opened Common
  import opened TxList

  const UINT_MAX := 0xFFFF_FFFF

  /** A buffer structure, known by its address. */
  type Buffer = int

  /** What was copied to the controller: the frame of a buffer, with the length the buffer had then. */
  datatype Frame = Frame(buffer: Buffer, msgLen: nat)

  /** A transmission: the frame the controller took from its memory, and what the registers TXPLLR and
      TXPLHR, a byte each, held then. */
  datatype Start = Start(frame: Option<Frame>, txPllr: nat, txPlhr: nat)

  /** The length the controller reads from its two registers. */
  function LengthTold(start: Start): nat {
    start.txPllr + 0x100 * start.txPlhr
  }

  /** Low byte and next byte of the length are written; together they tell it as far as two bytes can. */
  function StartOn(frame: Option<Frame>, msgLen: nat): Start {
    Start(frame, msgLen % 0x100, msgLen / 0x100 % 0x100)
  }

  lemma TwoBytesTell(frame: Option<Frame>, msgLen: nat)
    ensures var r := StartOn(frame, msgLen);
            && r.txPllr < 0x100 && r.txPlhr < 0x100
            && LengthTold(r) == msgLen % 0x1_0000
            && (msgLen < 0x1_0000 ==> LengthTold(r) == msgLen)
  {
  }

  /** Where EdrvSendTxMsg stands: not called, about to queue, to copy, to count the frame. */
  datatype Sender = Outside | Tested(buffer: Buffer) | Copying(buffer: Buffer) | Counting(buffer: Buffer)

  /** Where the interrupt stands with its local variables: not running, past its locked section and about
      to clear the link of the buffer it took off, past that. */
  datatype Interrupt =
    | Idle
    | Clearing(txBuffer: Buffer, curTxCount: nat, nextTxBuffer: Option<Buffer>)
    | Leaving(curTxCount: nat, nextTxBuffer: Option<Buffer>)

  /** list is the queue of transmitted buffers, msgLen the length each buffer has at present, memory the
      frames the controller holds and has not started, busy says that it is transmitting and pending
      that it raised the transmit interrupt.  fault records a null dereference, or a start with nothing
      to send or while busy.  sent, copied, started and retired list what happened so far. */
  datatype State = State(list: List<Buffer>, msgLen: map<Buffer, nat>, txCount: nat, sender: Sender, isr: Interrupt,
                         memory: seq<Frame>, busy: bool, pending: bool, fault: bool,
                         sent: seq<Buffer>, copied: seq<Frame>, started: seq<Start>, retired: seq<Buffer>)

  datatype Label =
    | SetLength(buffer: Buffer, msgLen: nat)  // the upper layer writes m_uiTxMsgLen
    | Test(buffer: Buffer)                    // EdrvSendTxMsg looks at the link
    | Enqueue                                 // EdrvSendTxMsg, first locked section
    | Copy                                    // EdrvSendTxMsg, the copy between the sections
    | Count                                   // EdrvSendTxMsg, second locked section
    | Transmitted                             // the controller is through with a frame
    | TakeOff                                 // the interrupt, locked section
    | Clear                                   // the interrupt clears the link
    | Leave                                   // the interrupt, the Tx handler and the rest

  /** m_uiTxMsgLen of a buffer. */
  function LenOf(msgLen: map<Buffer, nat>, b: Buffer): nat {
    if b in msgLen then msgLen[b] else 0
  }

  /** The frame of a buffer as it is now. */
  function FrameOf(s: State, b: Buffer): Frame {
    Frame(b, LenOf(s.msgLen, b))
  }

  /** Writing the length of buffer b to the controller and setting TXREQ. */
  function StartWith(s: State, b: Buffer): State {
    var msgLen := LenOf(s.msgLen, b);
    if s.memory == [] then
      s.(busy := true, fault := true, started := s.started + [StartOn(None, msgLen)])
    else
      s.(busy := true, fault := s.fault || s.busy, memory := s.memory[1..],
         started := s.started + [StartOn(Some(s.memory[0]), msgLen)])
  }

  /** `++m_uiTxCount`, an unsigned int */
  function Incremented(n: nat): nat {
    if n == UINT_MAX then 0 else n + 1
  }

  /** `--m_uiTxCount` */
  function Decremented(n: nat): nat {
    if n == 0 then UINT_MAX else n - 1
  }

  /** The locked section of the interrupt, without the start. */
  function TakenOff(s: State, b: Buffer): State
    requires s.list.first == Some(b)
  {
    var count := Decremented(s.txCount);
    var next := if count >= 1 then LinkOf(s.list, b) else None;
    s.(list := TxList.TakeOff(s.list), txCount := count, pending := false, isr := Clearing(b, count, next),
       retired := s.retired + [b])
  }

  function Next(s: State, l: Label): Option<State> {
    if s.fault then None else
    match l
    case SetLength(b, msgLen) => Some(s.(msgLen := s.msgLen[b := msgLen]))
    case Test(b) =>
      if s.sender != Outside then None
      else if b in s.list.link then Some(s)  // refused
      else Some(s.(sender := Tested(b)))
    case Enqueue =>
      if !s.sender.Tested? then None
      else
        var b := s.sender.buffer;
        Some(s.(list := Append(s.list, b), sent := s.sent + [b],
                sender := if s.txCount < 2 then Copying(b) else Outside))
    case Copy =>
      if !s.sender.Copying? then None
      else
        var f := FrameOf(s, s.sender.buffer);
        Some(s.(memory := s.memory + [f], copied := s.copied + [f], sender := Counting(s.sender.buffer)))
    case Count =>
      if !s.sender.Counting? then None
      else
        var t := s.(txCount := Incremented(s.txCount), sender := Outside);
        Some(if t.txCount == 1 then StartWith(t, s.sender.buffer) else t)
    case Transmitted =>
      if s.busy && !s.pending then Some(s.(busy := false, pending := true)) else None
    case TakeOff =>
      if !s.pending || s.isr != Idle then None
      else if s.list.first == None then Some(s.(fault := true))
      else
        var t := TakenOff(s, s.list.first.value);
        Some(if t.isr.nextTxBuffer.Some? then StartWith(t, t.isr.nextTxBuffer.value) else t)
    case Clear =>
      if !s.isr.Clearing? then None
      else Some(s.(list := ClearLink(s.list, s.isr.txBuffer), isr := Leaving(s.isr.curTxCount, s.isr.nextTxBuffer)))
    case Leave =>
      if !s.isr.Leaving? then None
      else if s.isr.curTxCount >= 2 && s.isr.nextTxBuffer.Some? && LinkOf(s.list, s.isr.nextTxBuffer.value).Some?
      then Some(s.(isr := Idle, memory := s.memory + [FrameOf(s, LinkOf(s.list, s.isr.nextTxBuffer.value).value)]))
      else Some(s.(isr := Idle))
  }

  function Execute(s: State, run: seq<Label>): Option<State>
    decreases |run|
  {
    if run == [] then Some(s) else
    match Next(s, run[0])
    case None => None
    case Some(t) => Execute(t, run[1..])
  }

  predicate Initial(s: State) {
    && s.list == List(None, None, map[]) && s.txCount == 0 && s.sender == Outside && s.isr == Idle
    && s.memory == [] && !s.busy && !s.pending && !s.fault
    && s.sent == [] && s.copied == [] && s.started == [] && s.retired == []
  }

  function OneIf(b: bool): nat {
    if b then 1 else 0
  }

  /** A frame is being transmitted, or its interrupt has not been served yet. */
  predicate Active(s: State) {
    s.busy || s.pending
  }

  // ----- what holds of the counter, whatever the callers do

  /** m_uiTxCount counts the frames in the controller, but for the one the sender is about to count. */
  predicate Counted(s: State) {
    && s.txCount + OneIf(s.sender.Counting?) == |s.memory| + OneIf(Active(s))
    && !(s.busy && s.pending)
    && (s.sender.Counting? ==> s.memory != [])
    && s.txCount <= (if s.sender.Outside? || s.sender.Tested? then 2 else 1)
    && (s.isr != Idle ==> s.isr.curTxCount <= 1)
  }

  lemma CountedStep(s: State, l: Label)
    requires Counted(s) && Next(s, l).Some?
    ensures Counted(Next(s, l).value)
    ensures Next(s, l).value.fault ==> l == TakeOff && s.list.first == None
  {
  }

  lemma {:induction false} CountedRun(s: State, run: seq<Label>)
    requires Counted(s) && Execute(s, run).Some?
    ensures Counted(Execute(s, run).value)
    decreases |run|
  {
    if run != [] {
      CountedStep(s, run[0]);
      CountedRun(Next(s, run[0]).value, run[1..]);
    }
  }

  /** Whatever the callers do, m_uiTxCount stays between zero and two: the interrupt never counts down
      from zero, and never refills the controller's memory. */
  lemma RefillIsUnreachable(s: State, run: seq<Label>)
    requires Initial(s) && Execute(s, run).Some?
    ensures var t := Execute(s, run).value;
            && t.txCount <= 2 && (t.pending ==> t.txCount >= 1)
            && (Next(t, Leave).Some? ==> Next(t, Leave) == Some(t.(isr := Idle)))
  {
    CountedRun(s, run);
  }

  // ----- what is to hold

  /** The buffer whose frame is still to be copied. */
  function InHand(s: State): seq<Buffer> {
    if s.sender.Copying? then [s.sender.buffer] else []
  }

  /** The frame of each buffer sent is copied once, or the sender is about to; each frame copied is
      started once or in the controller's memory; and the buffers handed back are those whose frames
      were transmitted; all in the order sent. */
  predicate Ordered(s: State) {
    && !s.fault
    && |s.retired| <= |s.started| <= |s.copied| <= |s.sent|
    && s.sent[|s.copied|..] == InHand(s)
    && (forall i :: 0 <= i < |s.copied| ==> s.copied[i].buffer == s.sent[i])
    && s.copied[|s.started|..] == s.memory
    && (forall i :: 0 <= i < |s.started| ==> s.started[i].frame == Some(s.copied[i]))
    && s.retired == s.sent[..|s.retired|]
  }

  /** Each frame was started with the length with which it had been copied. */
  predicate OwnLengths(s: State) {
    forall i :: 0 <= i < |s.started| && s.started[i].frame.Some? ==>
      LengthTold(s.started[i]) == s.started[i].frame.value.msgLen % 0x1_0000
  }

  /** Each frame sent is started exactly once, in order and with its own length, or is on its way. */
  predicate ExactlyOnce(s: State) {
    Ordered(s) && OwnLengths(s)
  }

  /** No call and no interrupt is under way, and the controller does nothing. */
  predicate Quiet(s: State) {
    s.sender == Outside && s.isr == Idle && !Active(s)
  }

  /** And nothing is left lying. */
  predicate Served(s: State) {
    ExactlyOnce(s) && (Quiet(s) ==> |s.started| == |s.sent| && s.retired == s.sent)
  }

  /** The upper layer does not begin anything. */
  predicate ByItself(run: seq<Label>) {
    forall i :: 0 <= i < |run| ==> !run[i].SetLength? && !run[i].Test? && !run[i].Enqueue?
  }

  /** Whatever happens next by itself, the frames sent so far are served. */
  ghost predicate WorksOn(s: State) {
    forall more :: ByItself(more) && Execute(s, more).Some? ==> Served(Execute(s, more).value)
  }

  ghost predicate AlwaysWorks(s: State, run: seq<Label>)
    requires Execute(s, run).Some?
    decreases |run|
  {
    WorksOn(s) && (run == [] || AlwaysWorks(Next(s, run[0]).value, run[1..]))
  }

  /** The buffers sent and not handed back. */
  function Queued(s: State): seq<Buffer> {
    if |s.retired| <= |s.sent| then s.sent[|s.retired|..] else []
  }

  /** The last entry of the queue is a buffer that was taken off and queued again, and its link is still
      to be cleared. */
  predicate LastIsTakenOff(s: State) {
    s.isr.Clearing? && s.list.last == Some(s.isr.txBuffer)
  }

  /** A buffer is queued behind one other at the most, and not behind one that was taken off and whose
      link is still to be cleared. */
  predicate GoodSend(s: State) {
    |Queued(s)| < 2 && !LastIsTakenOff(s)
  }

  /** A buffer whose frame lies in the controller's memory, copied and not started, does not get another
      length, as far as the registers can tell. */
  predicate GoodLength(s: State, b: Buffer, msgLen: nat) {
    forall i :: 0 <= i < |s.memory| && s.memory[i].buffer == b ==>
      msgLen % 0x1_0000 == s.memory[i].msgLen % 0x1_0000
  }

  predicate GoodAct(s: State, l: Label) {
    && (l.Enqueue? ==> GoodSend(s))
    && (l.SetLength? ==> GoodLength(s, l.buffer, l.msgLen))
  }

  predicate GoodActs(s: State, run: seq<Label>)
    requires Execute(s, run).Some?
    decreases |run|
  {
    run == [] || (GoodAct(s, run[0]) && GoodActs(Next(s, run[0]).value, run[1..]))
  }

  predicate GoodSends(s: State, run: seq<Label>)
    requires Execute(s, run).Some?
    decreases |run|
  {
    run == [] || ((run[0].Enqueue? ==> GoodSend(s)) && GoodSends(Next(s, run[0]).value, run[1..]))
  }

  // ----- the invariant

  /** The links of a queue of at most two entries.  An entry may occur twice; a link that leads nowhere
      any more belongs to the buffer whose link is about to be cleared. */
  predicate Linked(s: State) {
    var q := Queued(s);
    && |q| <= 2
    && s.list.first == (if q == [] then None else Some(q[0]))
    && s.list.last == (if q == [] then None else Some(q[|q| - 1]))
    && (|q| == 2 ==> LinkOf(s.list, q[0]) == Some(q[1]) && (s.isr.Clearing? ==> s.isr.txBuffer != q[0]))
    && (forall b :: b in s.list.link ==> (|q| == 2 && b == q[0]) || (s.isr.Clearing? && b == s.isr.txBuffer))
    && (s.sender.Tested? ==> s.sender.buffer !in s.list.link)
  }

  /** Everything but the lengths. */
  predicate Core(s: State) {
    && Ordered(s) && Counted(s) && Linked(s)
    && |s.started| == |s.retired| + OneIf(Active(s))
    && (!Active(s) ==> s.txCount == 0)
    && (s.sender.Counting? ==> s.memory[|s.memory| - 1].buffer == s.sender.buffer)
  }

  /** The buffers of the frames in the controller's memory still have the lengths of these. */
  predicate KeptLengths(s: State) {
    forall i :: 0 <= i < |s.memory| ==>
      LenOf(s.msgLen, s.memory[i].buffer) % 0x1_0000 == s.memory[i].msgLen % 0x1_0000
  }

  predicate Inv(s: State) {
    Core(s) && OwnLengths(s) && KeptLengths(s)
  }

  /** Between sends, the driver's counter is the length of the queue; and the controller's memory never
      holds more than one frame. */
  lemma QueueLength(s: State)
    requires Core(s)
    ensures |Queued(s)| == s.txCount + OneIf(s.sender.Copying? || s.sender.Counting?)
    ensures |s.memory| <= 1
  {
    assert |s.sent[|s.copied|..]| == |InHand(s)| && |s.copied[|s.started|..]| == |s.memory|;
  }

  lemma InvIsServed(s: State)
    requires Inv(s)
    ensures Served(s)
  {
    QueueLength(s);
  }

  /** A step that leaves what was sent, copied, started and handed back. */
  lemma SameHistory(s: State, t: State)
    requires Ordered(s) && !t.fault && InHand(t) == InHand(s) && t.memory == s.memory
    requires t.sent == s.sent && t.copied == s.copied && t.started == s.started && t.retired == s.retired
    ensures Ordered(t) && Queued(t) == Queued(s)
  {
  }

  /** A step that leaves the links and those who are about to change them. */
  lemma SameLinks(s: State, t: State)
    requires Linked(s) && Queued(t) == Queued(s) && t.list == s.list
    requires t.isr == s.isr || (!t.isr.Clearing? && !s.isr.Clearing?)
    requires t.sender.Tested? ==> t.sender == s.sender
    ensures Linked(t)
  {
  }

  lemma SetLengthKeeps(s: State, b: Buffer, msgLen: nat)
    requires Core(s)
    ensures Core(Next(s, SetLength(b, msgLen)).value)
  {
    var t := Next(s, SetLength(b, msgLen)).value;
    SameHistory(s, t);
    SameLinks(s, t);
  }

  lemma TestKeeps(s: State, b: Buffer)
    requires Core(s) && Next(s, Test(b)).Some?
    ensures Core(Next(s, Test(b)).value)
  {
    SameHistory(s, Next(s, Test(b)).value);
  }

  lemma TransmittedKeeps(s: State)
    requires Core(s) && Next(s, Transmitted).Some?
    ensures Core(Next(s, Transmitted).value)
  {
    var t := Next(s, Transmitted).value;
    SameHistory(s, t);
    SameLinks(s, t);
  }

  lemma ClearKeeps(s: State)
    requires Core(s) && s.isr.Clearing?
    ensures Core(Next(s, Clear).value)
  {
    SameHistory(s, Next(s, Clear).value);
  }

  lemma LeaveKeeps(s: State)
    requires Core(s) && s.isr.Leaving?
    ensures Next(s, Leave) == Some(s.(isr := Idle)) && Core(Next(s, Leave).value)
  {
    var t := s.(isr := Idle);
    SameHistory(s, t);
    SameLinks(s, t);
    CountedStep(s, Leave);
  }

  lemma EnqueueQueued(s: State)
    requires !s.fault && s.sender.Tested? && |s.retired| <= |s.sent|
    ensures Queued(Next(s, Enqueue).value) == Queued(s) + [s.sender.buffer]
  {
    var sent := s.sent + [s.sender.buffer];
    assert sent[|s.retired|..] == s.sent[|s.retired|..] + [s.sender.buffer];
  }

  lemma EnqueueOrdered(s: State)
    requires Ordered(s) && s.sender.Tested? && s.txCount < 2
    ensures Ordered(Next(s, Enqueue).value)
  {
    var t, n := Next(s, Enqueue).value, |s.copied|;
    assert t.sent[..|s.retired|] == s.sent[..|s.retired|];
    assert t.sent[n..] == s.sent[n..] + [s.sender.buffer];
  }

  lemma EnqueueLinked(s: State)
    requires Linked(s) && !s.fault && |s.retired| <= |s.sent| && s.sender.Tested? && GoodSend(s)
    ensures Linked(Next(s, Enqueue).value)
  {
    EnqueueQueued(s);
  }

  lemma EnqueueKeeps(s: State)
    requires Core(s) && s.sender.Tested? && GoodSend(s)
    ensures Core(Next(s, Enqueue).value)
  {
    QueueLength(s);
    EnqueueOrdered(s);
    EnqueueLinked(s);
  }

  lemma CopyOrdered(s: State)
    requires Ordered(s) && s.sender.Copying?
    ensures Ordered(Next(s, Copy).value) && Queued(Next(s, Copy).value) == Queued(s)
  {
    var t, n := Next(s, Copy).value, |s.copied|;
    assert s.sent[n..] == [s.sender.buffer];
    assert s.sent[n] == s.sent[n..][0];
    assert t.sent[n + 1..] == s.sent[n..][1..];
    assert t.copied[|s.started|..] == s.copied[|s.started|..] + [FrameOf(s, s.sender.buffer)];
  }

  lemma CopyKeeps(s: State)
    requires Core(s) && s.sender.Copying?
    ensures Core(Next(s, Copy).value)
  {
    CopyOrdered(s);
    CountedStep(s, Copy);
    SameLinks(s, Next(s, Copy).value);
  }

  /** The frame that is started is the next in line. */
  lemma StartOrdered(s: State, b: Buffer)
    requires Ordered(s) && !s.busy && s.memory != []
    ensures Ordered(StartWith(s, b)) && Queued(StartWith(s, b)) == Queued(s)
  {
    var n := |s.started|;
    assert s.copied[n] == s.copied[n..][0] == s.memory[0];
    assert s.copied[n + 1..] == s.copied[n..][1..];
  }

  /** If the buffer given is that of the frame, and still has the frame's length, the length is right. */
  lemma StartLengths(s: State, b: Buffer)
    requires OwnLengths(s) && KeptLengths(s) && s.memory != [] && s.memory[0].buffer == b
    ensures OwnLengths(StartWith(s, b)) && KeptLengths(StartWith(s, b))
  {
    var t := StartWith(s, b);
    TwoBytesTell(Some(s.memory[0]), LenOf(s.msgLen, b));
    assert forall i :: 0 <= i < |t.memory| ==> t.memory[i] == s.memory[i + 1];
  }

  lemma StartKeepsLinks(s: State, b: Buffer)
    requires Linked(s) && Queued(StartWith(s, b)) == Queued(s)
    ensures Linked(StartWith(s, b))
  {
  }

  /** The sender counts its frame and leaves, before a start. */
  lemma CountedKeeps(s: State)
    requires Core(s) && s.sender.Counting?
    ensures var t := s.(txCount := s.txCount + 1, sender := Outside);
            Ordered(t) && Linked(t)
  {
    var t := s.(txCount := s.txCount + 1, sender := Outside);
    SameHistory(s, t);
    SameLinks(s, t);
  }

  lemma CountKeeps(s: State)
    requires Core(s) && s.sender.Counting?
    ensures Core(Next(s, Count).value)
  {
    var t := s.(txCount := s.txCount + 1, sender := Outside);
    QueueLength(s);
    CountedStep(s, Count);
    CountedKeeps(s);
    if t.txCount == 1 {
      StartOrdered(t, s.sender.buffer);
      StartKeepsLinks(t, s.sender.buffer);
    }
  }

  lemma CountKeepsLengths(s: State)
    requires Inv(s) && s.sender.Counting?
    ensures OwnLengths(Next(s, Count).value) && KeptLengths(Next(s, Count).value)
  {
    QueueLength(s);
    if s.txCount == 0 {
      StartLengths(s.(txCount := s.txCount + 1, sender := Outside), s.sender.buffer);
    }
  }

  lemma TakenOffKeeps(s: State)
    requires Core(s) && s.pending && s.isr == Idle
    ensures Queued(s) != [] && s.list.first == Some(Queued(s)[0])
    ensures var t := TakenOff(s, Queued(s)[0]);
            && Ordered(t) && Linked(t)
            && (s.txCount == 2 ==> s.memory != [] && t.isr.nextTxBuffer == Some(s.memory[0].buffer))
            && (s.txCount != 2 ==> t.isr.nextTxBuffer == None)
  {
    QueueLength(s);
    var n, q := |s.retired|, Queued(s);
    assert s.sent[n] == q[0];
    assert s.sent[..n + 1] == s.sent[..n] + [s.sent[n]];
    var t := TakenOff(s, q[0]);
    assert Queued(t) == q[1..];
    if s.txCount == 2 {
      assert s.memory[0] == s.copied[|s.started|..][0];
      assert q[1] == s.sent[n + 1];
    }
  }

  /** The interrupt takes the oldest buffer off and starts the next frame. */
  lemma TakeOffStarts(s: State)
    requires Core(s) && s.pending && s.isr == Idle && s.txCount == 2
    ensures s.memory != [] && s.list.first == Some(Queued(s)[0])
    ensures Next(s, TakeOff) == Some(StartWith(TakenOff(s, Queued(s)[0]), s.memory[0].buffer))
    ensures Core(Next(s, TakeOff).value)
  {
    TakenOffKeeps(s);
    CountedStep(s, TakeOff);
    var t, b := TakenOff(s, Queued(s)[0]), s.memory[0].buffer;
    StartOrdered(t, b);
    StartKeepsLinks(t, b);
  }

  lemma TakeOffKeeps(s: State)
    requires Core(s) && s.pending && s.isr == Idle
    ensures Next(s, TakeOff).Some? && Core(Next(s, TakeOff).value)
    ensures OwnLengths(s) && KeptLengths(s) ==>
              OwnLengths(Next(s, TakeOff).value) && KeptLengths(Next(s, TakeOff).value)
  {
    if s.txCount == 2 {
      TakeOffStarts(s);
      if OwnLengths(s) && KeptLengths(s) {
        StartLengths(TakenOff(s, Queued(s)[0]), s.memory[0].buffer);
      }
    } else {
      TakenOffKeeps(s);
      CountedStep(s, TakeOff);
      assert Next(s, TakeOff) == Some(TakenOff(s, Queued(s)[0]));
    }
  }

  lemma NextKeepsCore(s: State, l: Label)
    requires Core(s) && Next(s, l).Some? && (l.Enqueue? ==> GoodSend(s))
    ensures Core(Next(s, l).value)
  {
    match l
    case Enqueue => EnqueueKeeps(s);
    case Copy => CopyKeeps(s);
    case Count => CountKeeps(s);
    case TakeOff => TakeOffKeeps(s);
    case Clear => ClearKeeps(s);
    case Leave => LeaveKeeps(s);
    case SetLength(b, msgLen) => SetLengthKeeps(s, b, msgLen);
    case Test(b) => TestKeeps(s, b);
    case Transmitted => TransmittedKeeps(s);
  }

  lemma NextKeepsLengths(s: State, l: Label)
    requires Inv(s) && Next(s, l).Some? && GoodAct(s, l)
    ensures OwnLengths(Next(s, l).value) && KeptLengths(Next(s, l).value)
  {
    match l
    case Count => CountKeepsLengths(s);
    case TakeOff => TakeOffKeeps(s);
    case Leave => LeaveKeeps(s);
    case _ =>
  }

  lemma NextKeeps(s: State, l: Label)
    requires Inv(s) && Next(s, l).Some? && GoodAct(s, l)
    ensures Inv(Next(s, l).value)
  {
    NextKeepsCore(s, l);
    NextKeepsLengths(s, l);
  }

  lemma {:induction false} GoodRunKeeps(s: State, run: seq<Label>)
    requires Inv(s) && Execute(s, run).Some? && GoodActs(s, run)
    ensures Inv(Execute(s, run).value)
    decreases |run|
  {
    if run != [] {
      NextKeeps(s, run[0]);
      GoodRunKeeps(Next(s, run[0]).value, run[1..]);
    }
  }

  lemma {:induction false} GoodSendsKeepCore(s: State, run: seq<Label>)
    requires Core(s) && Execute(s, run).Some? && GoodSends(s, run)
    ensures Core(Execute(s, run).value)
    decreases |run|
  {
    if run != [] {
      NextKeepsCore(s, run[0]);
      GoodSendsKeepCore(Next(s, run[0]).value, run[1..]);
    }
  }

  lemma {:induction false} ByItselfIsGood(s: State, run: seq<Label>)
    requires ByItself(run) && Execute(s, run).Some?
    ensures GoodActs(s, run)
    decreases |run|
  {
    if run != [] {
      ByItselfIsGood(Next(s, run[0]).value, run[1..]);
    }
  }

  lemma InvWorksOn(s: State)
    requires Inv(s)
    ensures WorksOn(s)
  {
    forall more | ByItself(more) && Execute(s, more).Some?
      ensures Served(Execute(s, more).value)
    {
      ByItselfIsGood(s, more);
      GoodRunKeeps(s, more);
      InvIsServed(Execute(s, more).value);
    }
  }

  // ----- a bad act

  lemma {:induction false} ExecuteConcat(s: State, run: seq<Label>, more: seq<Label>)
    requires Execute(s, run).Some?
    ensures Execute(s, run + more) == Execute(Execute(s, run).value, more)
    decreases |run|
  {
    if run == [] {
      assert run + more == more;
    } else {
      assert (run + more)[1..] == run[1..] + more;
      ExecuteConcat(Next(s, run[0]).value, run[1..], more);
    }
  }

  /** A step behind a run. */
  lemma Step(s: State, run: seq<Label>, t: State, l: Label, u: State)
    requires Execute(s, run) == Some(t) && Next(t, l) == Some(u)
    ensures Execute(s, run + [l]) == Some(u)
  {
    ExecuteConcat(s, run, [l]);
    assert Execute(t, [l]) == Execute(u, [l][1..]);
  }

  /** A third buffer is queued and not copied. */
  lemma ThirdSendFails(s: State)
    requires Core(s) && s.sender.Tested? && |Queued(s)| >= 2
    ensures !Ordered(Next(s, Enqueue).value)
  {
    QueueLength(s);
    var t := Next(s, Enqueue).value;
    assert |t.sent[|s.copied|..]| == |InHand(t)| + 1;
  }

  /** The frame behind a buffer that was taken off: copied and counted, and the link to it cleared. */
  lemma SendBehindTakenOff(s: State) returns (run: seq<Label>, u: State)
    requires Core(s) && s.sender.Tested? && |Queued(s)| < 2 && LastIsTakenOff(s)
    ensures ByItself(run) && Execute(Next(s, Enqueue).value, run) == Some(u)
    ensures u.txCount == 2 && |u.memory| == 1 && Active(u) && !(u.busy && u.pending) && !u.fault
    ensures u.sender == Outside && u.isr == Idle
    ensures u.list.first == Some(s.isr.txBuffer) && s.isr.txBuffer !in u.list.link
    ensures |u.started| == |s.started| < |u.sent|
  {
    QueueLength(s);
    var t := Next(s, Enqueue).value;
    var b, a := s.sender.buffer, s.isr.txBuffer;
    assert t.sender == Copying(b) && s.memory == [];
    var t1 := Next(t, Copy).value;
    assert t1.sender == Counting(b) && |t1.memory| == 1;
    Step(t, [], t, Copy, t1);
    var t2 := t1.(txCount := 2, sender := Outside);
    assert Next(t1, Count) == Some(t2);
    Step(t, [] + [Copy], t1, Count, t2);
    var t3 := Next(t2, Clear).value;
    Step(t, [] + [Copy] + [Count], t2, Clear, t3);
    u := t3.(isr := Idle);
    assert Next(t3, Leave) == Some(u);
    Step(t, [] + [Copy] + [Count] + [Clear], t3, Leave, u);
    run := [] + [Copy] + [Count] + [Clear] + [Leave];
  }

  /** Then the next interrupt finds nothing to start. */
  lemma StallFollows(t: State, run: seq<Label>, u: State, a: Buffer) returns (more: seq<Label>, v: State)
    requires ByItself(run) && Execute(t, run) == Some(u)
    requires u.txCount == 2 && Active(u) && !(u.busy && u.pending) && !u.fault && u.sender == Outside && u.isr == Idle
    requires u.list.first == Some(a) && a !in u.list.link
    ensures ByItself(more) && Execute(t, more) == Some(v)
    ensures Quiet(v) && v.started == u.started && v.sent == u.sent && v.txCount == 1
  {
    more := run;
    var u1 := u;
    if u.busy {
      u1 := u.(busy := false, pending := true);
      Step(t, run, u, Transmitted, u1);
      more := run + [Transmitted];
    }
    var u2 := TakenOff(u1, a);
    assert Next(u1, TakeOff) == Some(u2);
    Step(t, more, u1, TakeOff, u2);
    var u3 := Next(u2, Clear).value;
    Step(t, more + [TakeOff], u2, Clear, u3);
    v := u3.(isr := Idle);
    Step(t, more + [TakeOff] + [Clear], u3, Leave, v);
    more := more + [TakeOff] + [Clear] + [Leave];
  }

  lemma BadSendFails(s: State)
    requires Core(s) && s.sender.Tested? && !GoodSend(s)
    ensures !WorksOn(Next(s, Enqueue).value)
  {
    var t := Next(s, Enqueue).value;
    if |Queued(s)| >= 2 {
      ThirdSendFails(s);
      assert Execute(t, []) == Some(t) && ByItself([]);
    } else {
      var run, u := SendBehindTakenOff(s);
      var more, v := StallFollows(t, run, u, s.isr.txBuffer);
      assert !Served(v);
    }
  }

  /** A frame waits in the controller's memory, and its buffer has another length by now. */
  predicate Mismatch(s: State) {
    && Core(s) && s.memory != []
    && LenOf(s.msgLen, s.memory[0].buffer) % 0x1_0000 != s.memory[0].msgLen % 0x1_0000
  }

  /** How many steps may come before that frame is started. */
  function StepsBefore(s: State): nat {
    OneIf(s.sender.Counting?) + OneIf(s.busy)
      + (match s.isr case Idle => 0 case Clearing(_, _, _) => 2 case Leaving(_, _) => 1)
  }

  /** The start that reads the wrong length. */
  lemma WrongStart(s: State, b: Buffer)
    requires s.memory != [] && s.memory[0].buffer == b
    requires LenOf(s.msgLen, b) % 0x1_0000 != s.memory[0].msgLen % 0x1_0000
    ensures !OwnLengths(StartWith(s, b))
  {
    var t := StartWith(s, b);
    TwoBytesTell(Some(s.memory[0]), LenOf(s.msgLen, b));
    assert t.started[|s.started|] == StartOn(Some(s.memory[0]), LenOf(s.msgLen, b));
  }

  lemma NearerByCount(s: State)
    requires Mismatch(s) && s.sender.Counting?
    ensures var t := Next(s, Count).value;
            !OwnLengths(t) || (Mismatch(t) && StepsBefore(t) < StepsBefore(s))
  {
    QueueLength(s);
    CountKeeps(s);
    if s.txCount == 0 {
      WrongStart(s.(txCount := 1, sender := Outside), s.sender.buffer);
    }
  }

  lemma NearerByTakeOff(s: State)
    requires Mismatch(s) && !s.sender.Counting? && s.isr == Idle && s.pending
    ensures Next(s, TakeOff).Some? && !OwnLengths(Next(s, TakeOff).value)
  {
    QueueLength(s);
    TakeOffStarts(s);
    WrongStart(TakenOff(s, Queued(s)[0]), s.memory[0].buffer);
  }

  lemma SameFrame(s: State, t: State)
    requires Mismatch(s) && Core(t) && t.memory == s.memory && t.msgLen == s.msgLen
    ensures Mismatch(t)
  {
  }

  lemma NearerByOthers(s: State, l: Label)
    requires Mismatch(s) && !s.sender.Counting? && Next(s, l).Some? && (l.Clear? || l.Leave? || l.Transmitted?)
    ensures var t := Next(s, l).value;
            Mismatch(t) && StepsBefore(t) < StepsBefore(s)
  {
    NextKeepsCore(s, l);
    if l.Leave? {
      LeaveKeeps(s);
    }
    SameFrame(s, Next(s, l).value);
  }

  /** The step that comes next by itself: it starts the frame, or brings its start nearer. */
  lemma NearerToStart(s: State) returns (l: Label, t: State)
    requires Mismatch(s)
    ensures Next(s, l) == Some(t) && !l.SetLength? && !l.Test? && !l.Enqueue?
    ensures !OwnLengths(t) || (Mismatch(t) && StepsBefore(t) < StepsBefore(s))
  {
    l := if s.sender.Counting? then Count else if s.isr.Clearing? then Clear else if s.isr.Leaving? then Leave
         else if s.busy then Transmitted else TakeOff;
    QueueLength(s);
    if l.Count? {
      NearerByCount(s);
    } else if l.TakeOff? {
      NearerByTakeOff(s);
    } else {
      NearerByOthers(s, l);
    }
    t := Next(s, l).value;
  }

  lemma {:induction false} MismatchShows(s: State) returns (more: seq<Label>)
    requires Mismatch(s)
    ensures ByItself(more) && Execute(s, more).Some? && !OwnLengths(Execute(s, more).value)
    decreases StepsBefore(s)
  {
    var l, t := NearerToStart(s);
    if OwnLengths(t) {
      var rest := MismatchShows(t);
      more := [l] + rest;
      assert more[1..] == rest;
    } else {
      more := [l];
      assert Execute(t, [l][1..]) == Some(t);
    }
  }

  lemma BadLengthFails(s: State, b: Buffer, msgLen: nat)
    requires Core(s) && !GoodLength(s, b, msgLen)
    ensures !WorksOn(Next(s, SetLength(b, msgLen)).value)
  {
    var t := Next(s, SetLength(b, msgLen)).value;
    SetLengthKeeps(s, b, msgLen);
    QueueLength(s);
    assert Mismatch(t);
    var more := MismatchShows(t);
    assert !Served(Execute(t, more).value);
  }

  lemma {:induction false} RunWorks(s: State, run: seq<Label>)
    requires Inv(s) && Execute(s, run).Some?
    ensures AlwaysWorks(s, run) <==> GoodActs(s, run)
    decreases |run|
  {
    InvWorksOn(s);
    if run != [] {
      var t := Next(s, run[0]).value;
      if GoodAct(s, run[0]) {
        NextKeeps(s, run[0]);
        RunWorks(t, run[1..]);
      } else if run[0].Enqueue? {
        BadSendFails(s);
      } else {
        BadLengthFails(s, run[0].buffer, run[0].msgLen);
      }
    }
  }

  /** Main result: in every interleaving of upper layer, sender, controller and interrupt, each frame is
      started exactly once, in the order sent and with its own length, and nothing is left lying when all
      is quiet, exactly if no third buffer is queued, none behind a buffer that was taken off and whose
      link is still to be cleared, and no buffer gets another length while its frame is copied and not
      started. */
  lemma ExactlyOnceExactlyWhen(s: State, run: seq<Label>)
    requires Initial(s) && Execute(s, run).Some?
    ensures AlwaysWorks(s, run) <==> GoodActs(s, run)
  {
    RunWorks(s, run);
  }

  /** And in such runs, once nothing can move any more, every frame has been started and every buffer
      handed back. */
  lemma QuietMeansDone(s: State, run: seq<Label>)
    requires Initial(s) && Execute(s, run).Some? && GoodActs(s, run)
    requires var t := Execute(s, run).value;
             forall l :: l in {Enqueue, Copy, Count, Transmitted, TakeOff, Clear, Leave} ==> Next(t, l).None?
    ensures var t := Execute(s, run).value;
            ExactlyOnce(t) && |t.started| == |t.sent| && t.retired == t.sent && t.txCount == 0
  {
    GoodRunKeeps(s, run);
    var t := Execute(s, run).value;
    assert Next(t, Enqueue).None? && Next(t, Copy).None? && Next(t, Count).None? && Next(t, Transmitted).None?;
    assert Next(t, TakeOff).None? && Next(t, Clear).None? && Next(t, Leave).None?;
    NothingMoves(t);
    InvIsServed(t);
  }

  lemma NothingMoves(t: State)
    requires !t.fault && !(t.busy && t.pending)
    requires Next(t, Enqueue).None? && Next(t, Copy).None? && Next(t, Count).None? && Next(t, Transmitted).None?
    requires Next(t, TakeOff).None? && Next(t, Clear).None? && Next(t, Leave).None?
    ensures Quiet(t)
  {
  }

  // ----- a third buffer

  /** Buffers sent whose frames are neither copied nor about to be. */
  function Lost(s: State): int {
    |s.sent| - |s.copied| - |InHand(s)|
  }

  /** How often a buffer is queued while the driver counts two frames. */
  function ThirdSends(s: State, run: seq<Label>): nat
    requires Execute(s, run).Some?
    decreases |run|
  {
    if run == [] then 0
    else OneIf(run[0].Enqueue? && s.txCount >= 2) + ThirdSends(Next(s, run[0]).value, run[1..])
  }

  lemma LostStep(s: State, l: Label)
    requires Next(s, l).Some?
    ensures Lost(Next(s, l).value) == Lost(s) + OneIf(l.Enqueue? && s.txCount >= 2)
  {
  }

  /** Each of them is lost for good, whatever the callers do. */
  lemma {:induction false} ThirdFramesAreLost(s: State, run: seq<Label>)
    requires Execute(s, run).Some?
    ensures Lost(Execute(s, run).value) == Lost(s) + ThirdSends(s, run)
    decreases |run|
  {
    if run != [] {
      LostStep(s, run[0]);
      ThirdFramesAreLost(Next(s, run[0]).value, run[1..]);
    }
  }

  /** No buffer is queued behind one whose link is still to be cleared. */
  predicate NeverBehindTakenOff(s: State, run: seq<Label>)
    requires Execute(s, run).Some?
    decreases |run|
  {
    run == [] ||
    ((run[0].Enqueue? ==> !LastIsTakenOff(s)) && NeverBehindTakenOff(Next(s, run[0]).value, run[1..]))
  }

  lemma {:induction false} NoThirdIsGood(s: State, run: seq<Label>)
    requires Core(s) && Execute(s, run).Some? && NeverBehindTakenOff(s, run) && ThirdSends(s, run) == 0
    ensures GoodSends(s, run)
    decreases |run|
  {
    if run != [] {
      QueueLength(s);
      NextKeepsCore(s, run[0]);
      NoThirdIsGood(Next(s, run[0]).value, run[1..]);
    }
  }

  /** No length changes while the frame is copied and not started. */
  predicate KeepsLengths(s: State, run: seq<Label>)
    requires Execute(s, run).Some?
    decreases |run|
  {
    run == [] ||
    (&& (run[0].SetLength? ==> GoodLength(s, run[0].buffer, run[0].msgLen))
     && KeepsLengths(Next(s, run[0]).value, run[1..]))
  }

  lemma {:induction false} GoodInBothWays(s: State, run: seq<Label>)
    requires Execute(s, run).Some? && GoodSends(s, run) && KeepsLengths(s, run)
    ensures GoodActs(s, run)
    decreases |run|
  {
    if run != [] {
      GoodInBothWays(Next(s, run[0]).value, run[1..]);
    }
  }

  /** So at the end of such a run the frames have come out once each and in order exactly if there was no
      third buffer anywhere in it, whatever happened to the lengths; and with their own lengths, if these
      were kept. */
  lemma ExactlyOnceAtTheEnd(s: State, run: seq<Label>)
    requires Initial(s) && Execute(s, run).Some? && NeverBehindTakenOff(s, run)
    ensures Ordered(Execute(s, run).value) <==> ThirdSends(s, run) == 0
    ensures KeepsLengths(s, run) ==> (ExactlyOnce(Execute(s, run).value) <==> ThirdSends(s, run) == 0)
  {
    ThirdFramesAreLost(s, run);
    var t := Execute(s, run).value;
    if Ordered(t) {
      assert |t.sent[|t.copied|..]| == |InHand(t)|;
    }
    if ThirdSends(s, run) == 0 {
      NoThirdIsGood(s, run);
      GoodSendsKeepCore(s, run);
      if KeepsLengths(s, run) {
        GoodInBothWays(s, run);
        GoodRunKeeps(s, run);
      }
    }
  }

  // ----- a stall

  /** Frames are counted, and none is being transmitted. */
  predicate Stalled(s: State) {
    Counted(s) && s.txCount >= 1 && !Active(s)
  }

  /** Then nothing is ever transmitted again. */
  lemma {:induction false} StallIsForGood(s: State, run: seq<Label>)
    requires Stalled(s) && Execute(s, run).Some?
    ensures Stalled(Execute(s, run).value) && Execute(s, run).value.started == s.started
    decreases |run|
  {
    if run != [] {
      CountedStep(s, run[0]);
      StallIsForGood(Next(s, run[0]).value, run[1..]);
    }
  }

  // ----- runs that go wrong

  /** Four labels and the states they lead to. */
  lemma ExecuteFour(s: State, k: Label, t1: State, l: Label, t2: State, m: Label, t3: State, n: Label, t4: State)
    requires Next(s, k) == Some(t1) && Next(t1, l) == Some(t2) && Next(t2, m) == Some(t3) && Next(t3, n) == Some(t4)
    ensures Execute(s, [k, l, m, n]) == Some(t4)
  {
    assert [k, l, m, n][1..] == [l, m, n] && [l, m, n][1..] == [m, n] && [m, n][1..] == [n];
    assert Execute(t3, [n]) == Some(t4);
    assert Execute(t2, [m, n]) == Some(t4);
    assert Execute(t1, [l, m, n]) == Some(t4);
  }

  function SendAll(b: Buffer): seq<Label> {
    [Test(b), Enqueue, Copy, Count]
  }

  const SERVED := [Transmitted, TakeOff, Clear, Leave]

  /** A frame started with its own length. */
  function StartOf(f: Frame): Start {
    StartOn(Some(f), f.msgLen)
  }

  /** A send with nobody in between. */
  lemma SendAlone(s: State, b: Buffer)
    requires s.sender == Outside && !s.fault && b !in s.list.link && s.txCount < 2
    ensures var t := s.(list := Append(s.list, b), sent := s.sent + [b], copied := s.copied + [FrameOf(s, b)],
                        memory := s.memory + [FrameOf(s, b)], txCount := s.txCount + 1);
            Execute(s, SendAll(b)) == Some(if s.txCount == 0 then StartWith(t, b) else t)
  {
    var s1 := s.(sender := Tested(b));
    assert Next(s, Test(b)) == Some(s1);
    var s2 := s.(list := Append(s.list, b), sent := s.sent + [b], sender := Copying(b));
    assert Next(s1, Enqueue) == Some(s2);
    var s3 := s2.(memory := s.memory + [FrameOf(s, b)], copied := s.copied + [FrameOf(s, b)], sender := Counting(b));
    assert Next(s2, Copy) == Some(s3);
    var s4 := Next(s3, Count).value;
    ExecuteFour(s, Test(b), s1, Enqueue, s2, Copy, s3, Count, s4);
  }

  /** An interrupt with nobody in between. */
  lemma ServeAlone(s: State, b: Buffer)
    requires s.busy && !s.pending && !s.fault && s.isr == Idle && s.list.first == Some(b) && 1 <= s.txCount <= 2
    requires s.txCount == 2 && b in s.list.link ==> s.memory != []
    ensures var t := s.(list := ClearLink(TxList.TakeOff(s.list), b), busy := false, txCount := s.txCount - 1,
                        retired := s.retired + [b]);
            Execute(s, SERVED)
              == Some(if s.txCount == 2 && b in s.list.link then StartWith(t, s.list.link[b]) else t)
  {
    var t1 := s.(busy := false, pending := true);
    var u := TakenOff(t1, b);
    var next := u.isr.nextTxBuffer;
    assert next == if s.txCount == 2 then LinkOf(s.list, b) else None;
    var t2 := if next.Some? then StartWith(u, next.value) else u;
    assert Next(t1, TakeOff) == Some(t2);
    var t3 := t2.(list := ClearLink(t2.list, b), isr := Leaving(s.txCount - 1, next));
    assert Next(t2, Clear) == Some(t3);
    var t4 := t3.(isr := Idle);
    assert Next(t3, Leave) == Some(t4);
    ExecuteFour(s, Transmitted, t1, TakeOff, t2, Clear, t3, Leave, t4);
  }

  /** The first send of a run. */
  lemma SendFirst(s: State, a: Buffer)
    requires Initial(s)
    ensures Execute(s, SendAll(a))
         == Some(s.(list := List(Some(a), Some(a), map[]), txCount := 1, busy := true, sent := [a],
                    copied := [FrameOf(s, a)], started := [StartOf(FrameOf(s, a))]))
  {
    SendAlone(s, a);
    var f := FrameOf(s, a);
    assert s.sent + [a] == [a] && s.memory + [f] == [f] && s.copied + [f] == [f] && [f][1..] == [];
    assert s.started + [StartOf(f)] == [StartOf(f)];
  }

  /** Two sends: one frame is being transmitted and another is ready. */
  lemma SendTwo(s: State, a: Buffer, b: Buffer)
    requires Initial(s) && a != b
    ensures Execute(s, SendAll(a) + SendAll(b))
         == Some(s.(list := List(Some(a), Some(b), map[a := b]), txCount := 2, memory := [FrameOf(s, b)], busy := true,
                    sent := [a, b], copied := [FrameOf(s, a), FrameOf(s, b)], started := [StartOf(FrameOf(s, a))]))
  {
    SendFirst(s, a);
    var t := Execute(s, SendAll(a)).value;
    SendAlone(t, b);
    ExecuteConcat(s, SendAll(a), SendAll(b));
    var g := FrameOf(s, b);
    assert t.sent + [b] == [a, b] && t.memory + [g] == [g] && t.copied + [g] == [FrameOf(s, a), g];
    assert map[][a := b] == map[a := b];
  }

  /** A third buffer is queued, never copied. */
  lemma LoseThird(s: State, a: Buffer, b: Buffer, c: Buffer)
    requires Initial(s) && a != b && c !in {a, b}
    ensures Execute(s, SendAll(a) + SendAll(b) + [Test(c), Enqueue])
         == Some(s.(list := List(Some(a), Some(c), map[a := b, b := c]), txCount := 2, memory := [FrameOf(s, b)],
                    busy := true, sent := [a, b, c], copied := [FrameOf(s, a), FrameOf(s, b)],
                    started := [StartOf(FrameOf(s, a))]))
  {
    SendTwo(s, a, b);
    var run := SendAll(a) + SendAll(b);
    var u := Execute(s, run).value;
    var v := u.(sender := Tested(c));
    assert Next(u, Test(c)) == Some(v);
    var w := u.(list := List(Some(a), Some(c), map[a := b, b := c]), sent := [a, b, c]);
    assert u.sent + [c] == [a, b, c] && map[a := b][b := c] == map[a := b, b := c];
    assert Next(v, Enqueue) == Some(w);
    Step(s, run, u, Test(c), v);
    Step(s, run + [Test(c)], v, Enqueue, w);
    assert run + [Test(c)] + [Enqueue] == run + [Test(c), Enqueue];
  }

  /** Once the controller has come to rest, the third buffer is still queued; the next frame sent is
      transmitted, and then the third buffer is handed back in its place. */
  lemma ThirdFrameIsLost(s: State, a: Buffer, b: Buffer, c: Buffer, d: Buffer)
    requires Initial(s) && a != b && c !in {a, b} && d !in {a, b, c}
    ensures var r := Execute(s, SendAll(a) + SendAll(b) + [Test(c), Enqueue] + SERVED + SERVED + SendAll(d) + SERVED);
            r.Some? && Quiet(r.value) && r.value.sent == [a, b, c, d] && r.value.retired == [a, b, c]
            && r.value.started == [StartOf(FrameOf(s, a)), StartOf(FrameOf(s, b)), StartOf(FrameOf(s, d))]
  {
    LoseThird(s, a, b, c);
    var run := SendAll(a) + SendAll(b) + [Test(c), Enqueue];
    var t := Execute(s, run).value;
    var fa, fb, fd := FrameOf(s, a), FrameOf(s, b), FrameOf(s, d);
    ServeAlone(t, a);
    ExecuteConcat(s, run, SERVED);
    var u := t.(list := List(Some(b), Some(c), map[b := c]), txCount := 1, memory := [],
                started := [StartOf(fa), StartOf(fb)], retired := [a]);
    assert map[a := b, b := c] - {a} == map[b := c] && [fb][1..] == [] && t.retired + [a] == [a];
    assert t.started + [StartOf(fb)] == [StartOf(fa), StartOf(fb)];
    assert Execute(s, run + SERVED) == Some(u);
    ServeAlone(u, b);
    ExecuteConcat(s, run + SERVED, SERVED);
    var v := u.(list := List(Some(c), Some(c), map[]), txCount := 0, busy := false, retired := [a, b]);
    assert map[b := c] - {b} == map[] && u.retired + [b] == [a, b];
    assert Execute(s, run + SERVED + SERVED) == Some(v);
    SendFourth(s, run + SERVED + SERVED, v, c, d);
  }

  lemma SendFourth(s: State, run: seq<Label>, v: State, c: Buffer, d: Buffer)
    requires Execute(s, run) == Some(v) && v.list == List(Some(c), Some(c), map[]) && c != d
    requires v.txCount == 0 && v.memory == [] && !v.fault && v.sender == Outside && v.isr == Idle && !v.busy && !v.pending
    ensures var r := Execute(s, run + SendAll(d) + SERVED);
            r.Some? && Quiet(r.value) && r.value.sent == v.sent + [d] && r.value.retired == v.retired + [c]
            && r.value.started == v.started + [StartOf(FrameOf(v, d))]
  {
    SendAlone(v, d);
    ExecuteConcat(s, run, SendAll(d));
    var f := FrameOf(v, d);
    var w := v.(list := List(Some(c), Some(d), map[c := d]), txCount := 1, busy := true, sent := v.sent + [d],
                copied := v.copied + [f], started := v.started + [StartOf(f)]);
    assert map[][c := d] == map[c := d] && v.memory + [f] == [f] && [f][1..] == [];
    assert Execute(s, run + SendAll(d)) == Some(w);
    ServeAlone(w, c);
    ExecuteConcat(s, run + SendAll(d), SERVED);
  }

  /** The length of a buffer whose frame waits in the controller's memory is changed, and the buffer is on
      its way to be sent again: the interrupt starts the waiting frame with the new length. */
  lemma LengthChangedTooEarly(s: State, a: Buffer, b: Buffer, msgLen: nat)
    requires Initial(s) && a != b
    ensures var r := Execute(s, SendAll(a) + SendAll(b) + [SetLength(b, msgLen), Test(b)] + SERVED);
            r.Some? && r.value.started
              == [StartOf(FrameOf(s, a)), StartOn(Some(FrameOf(s, b)), msgLen)]
  {
    SendTwo(s, a, b);
    var run := SendAll(a) + SendAll(b);
    var t := Execute(s, run).value;
    var u := t.(msgLen := s.msgLen[b := msgLen]);
    Step(s, run, t, SetLength(b, msgLen), u);
    var v := u.(sender := Tested(b));
    assert Next(u, Test(b)) == Some(v);
    Step(s, run + [SetLength(b, msgLen)], u, Test(b), v);
    assert run + [SetLength(b, msgLen)] + [Test(b)] == run + [SetLength(b, msgLen), Test(b)];
    ServeAlone(v, a);
    ExecuteConcat(s, run + [SetLength(b, msgLen), Test(b)], SERVED);
  }

  /** A buffer is taken off, gets another length, and is sent again before the interrupt clears its link. */
  lemma SentAgain(s: State, a: Buffer, msgLen: nat)
    requires Initial(s)
    ensures var r := Execute(s, SendAll(a) + [Transmitted, TakeOff, SetLength(a, msgLen)] + SendAll(a));
            r.Some? && r == Some(r.value.(list := List(Some(a), Some(a), map[]), txCount := 1, sender := Outside,
                                          isr := Clearing(a, 0, None), memory := [], busy := true, pending := false,
                                          fault := false, sent := [a, a],
                                          started := [StartOf(FrameOf(s, a)), StartOf(Frame(a, msgLen))]))
  {
    SendFirst(s, a);
    var t := Execute(s, SendAll(a)).value;
    var t1 := t.(busy := false, pending := true);
    Step(s, SendAll(a), t, Transmitted, t1);
    var u := t.(list := List(None, None, map[]), txCount := 0, busy := false, isr := Clearing(a, 0, None), retired := [a]);
    assert t.retired + [a] == [a];
    assert Next(t1, TakeOff) == Some(u);
    Step(s, SendAll(a) + [Transmitted], t1, TakeOff, u);
    var v := u.(msgLen := s.msgLen[a := msgLen]);
    Step(s, SendAll(a) + [Transmitted] + [TakeOff], u, SetLength(a, msgLen), v);
    var run := SendAll(a) + [Transmitted, TakeOff, SetLength(a, msgLen)];
    assert run == SendAll(a) + [Transmitted] + [TakeOff] + [SetLength(a, msgLen)];
    SendAlone(v, a);
    ExecuteConcat(s, run, SendAll(a));
    var f := Frame(a, msgLen);
    assert FrameOf(v, a) == f && v.sent + [a] == [a, a] && v.memory + [f] == [f] && [f][1..] == [];
    assert v.started + [StartOf(f)] == [StartOf(FrameOf(s, a)), StartOf(f)];
  }

  /** If another buffer is sent behind it, the interrupt cuts that one off, and the transmitter stalls
      for good, whatever the lengths. */
  lemma LinkClearedTooLate(s: State, a: Buffer, b: Buffer, msgLen: nat)
    requires Initial(s) && a != b
    ensures var r := Execute(s, SendAll(a) + [Transmitted, TakeOff, SetLength(a, msgLen)] + SendAll(a) + SendAll(b)
                                + [Clear, Leave] + SERVED);
            r.Some? && Stalled(r.value) && r.value.sent == [a, a, b]
            && r.value.started == [StartOf(FrameOf(s, a)), StartOf(Frame(a, msgLen))]
  {
    SentAgain(s, a, msgLen);
    var run := SendAll(a) + [Transmitted, TakeOff, SetLength(a, msgLen)] + SendAll(a);
    var v := Execute(s, run).value;
    SendAlone(v, b);
    ExecuteConcat(s, run, SendAll(b));
    var g := FrameOf(v, b);
    var w := v.(list := List(Some(a), Some(b), map[a := b]), txCount := 2, memory := [g], sent := [a, a, b],
                copied := v.copied + [g]);
    assert v.sent + [b] == [a, a, b] && v.memory + [g] == [g] && map[][a := b] == map[a := b];
    assert Execute(s, run + SendAll(b)) == Some(w);
    ClearAndServe(s, run + SendAll(b), w, a, b);
  }

  lemma ClearAndServe(s: State, run: seq<Label>, w: State, a: Buffer, b: Buffer)
    requires Execute(s, run) == Some(w) && w.isr == Clearing(a, 0, None) && w.sender == Outside && !w.fault
    requires w.list == List(Some(a), Some(b), map[a := b]) && w.txCount == 2 && |w.memory| == 1 && w.busy && !w.pending
    ensures var r := Execute(s, run + [Clear, Leave] + SERVED);
            r.Some? && Stalled(r.value) && r.value.sent == w.sent && r.value.started == w.started
  {
    var w1 := w.(list := List(Some(a), Some(b), map[]), isr := Leaving(0, None));
    assert map[a := b] - {a} == map[];
    Step(s, run, w, Clear, w1);
    var w2 := w1.(isr := Idle);
    Step(s, run + [Clear], w1, Leave, w2);
    assert run + [Clear] + [Leave] == run + [Clear, Leave];
    ServeAlone(w2, a);
    ExecuteConcat(s, run + [Clear, Leave], SERVED);
  }

  // ----- what a caller has to do

  /** A buffer is sent, and its length set, only while it is not queued and its Tx handler is not still
      to be called. */
  predicate WaitsForHandler(s: State, run: seq<Label>)
    requires Execute(s, run).Some?
    decreases |run|
  {
    run == [] || (WaitsWith(s, run[0]) && WaitsForHandler(Next(s, run[0]).value, run[1..]))
  }

  predicate WaitsWith(s: State, l: Label) {
    && (l.Test? ==> Free(s, l.buffer))
    && (l.SetLength? ==> Free(s, l.buffer))
    && (l.Enqueue? ==> |Queued(s)| < 2)
  }

  predicate Free(s: State, b: Buffer) {
    b !in Queued(s) && !(s.isr.Clearing? && s.isr.txBuffer == b)
  }

  /** Every buffer is at one place only. */
  predicate OnePlace(s: State) {
    && (s.sender.Tested? ==> Free(s, s.sender.buffer))
    && (s.isr.Clearing? ==> s.isr.txBuffer !in Queued(s))
    && (|Queued(s)| == 2 ==> Queued(s)[0] != Queued(s)[1])
  }

  lemma EnqueueOnePlace(s: State)
    requires Linked(s) && !s.fault && |s.retired| <= |s.sent|
    requires OnePlace(s) && s.sender.Tested? && |Queued(s)| < 2
    ensures !LastIsTakenOff(s) && OnePlace(Next(s, Enqueue).value)
  {
    var q := Queued(s);
    EnqueueQueued(s);
    assert q != [] ==> q[|q| - 1] in q;
  }

  lemma TakeOffShape(s: State)
    requires Core(s) && s.pending && s.isr == Idle
    ensures Queued(s) != [] && Next(s, TakeOff).Some?
    ensures var t := Next(s, TakeOff).value;
            && Queued(t) == Queued(s)[1..] && t.sender == s.sender
            && t.isr.Clearing? && t.isr.txBuffer == Queued(s)[0]
  {
    TakenOffKeeps(s);
    QueuedTail(s, TakenOff(s, Queued(s)[0]));
    QueuedTail(s, Next(s, TakeOff).value);
  }

  lemma QueuedTail(s: State, t: State)
    requires |s.retired| < |s.sent| && t.sent == s.sent && |t.retired| == |s.retired| + 1
    ensures Queued(t) == Queued(s)[1..]
  {
  }

  lemma FirstGone(s: State, t: State)
    requires OnePlace(s) && Queued(s) != [] && |Queued(s)| <= 2
    requires Queued(t) == Queued(s)[1..] && t.sender == s.sender
    requires t.isr.Clearing? && t.isr.txBuffer == Queued(s)[0]
    ensures OnePlace(t)
  {
    assert forall b :: b in Queued(t) ==> b in Queued(s);
  }

  lemma TakeOffOnePlace(s: State)
    requires Core(s) && OnePlace(s) && s.pending && s.isr == Idle
    ensures OnePlace(Next(s, TakeOff).value)
  {
    TakeOffShape(s);
    FirstGone(s, Next(s, TakeOff).value);
  }

  lemma OtherStep(s: State, l: Label)
    requires Next(s, l).Some? && !l.Enqueue? && !l.TakeOff?
    ensures var t := Next(s, l).value;
            && t.sent == s.sent && t.retired == s.retired
            && (t.isr.Clearing? ==> t.isr == s.isr)
            && (t.sender.Tested? ==> t.sender == s.sender || l == Test(t.sender.buffer))
  {
  }

  /** A frame in the controller's memory belongs to a queued buffer. */
  lemma FreeHasNoFrame(s: State, b: Buffer, msgLen: nat)
    requires Core(s) && Free(s, b)
    ensures GoodLength(s, b, msgLen)
  {
    forall i | 0 <= i < |s.memory|
      ensures s.memory[i].buffer in Queued(s)
    {
      var n := |s.started| + i;
      assert s.copied[n] == s.copied[|s.started|..][i];
      assert Queued(s)[n - |s.retired|] == s.sent[n];
    }
  }

  lemma OnePlaceStep(s: State, l: Label)
    requires Core(s) && OnePlace(s) && Next(s, l).Some? && WaitsWith(s, l)
    ensures GoodAct(s, l) && OnePlace(Next(s, l).value)
  {
    if l.Enqueue? {
      EnqueueOnePlace(s);
    } else if l.TakeOff? {
      TakeOffOnePlace(s);
    } else {
      OtherStep(s, l);
      if l.SetLength? {
        FreeHasNoFrame(s, l.buffer, l.msgLen);
      }
    }
  }

  lemma {:induction false} WaitingIsGood(s: State, run: seq<Label>)
    requires Core(s) && OnePlace(s) && Execute(s, run).Some? && WaitsForHandler(s, run)
    ensures GoodActs(s, run)
    decreases |run|
  {
    if run != [] {
      OnePlaceStep(s, run[0]);
      NextKeepsCore(s, run[0]);
      WaitingIsGood(Next(s, run[0]).value, run[1..]);
    }
  }

  /** So it is enough to have two buffers queued at most, and not to set the length of a buffer or send it
      before its Tx handler has been called. */
  lemma WaitingIsEnough(s: State, run: seq<Label>)
    requires Initial(s) && Execute(s, run).Some? && WaitsForHandler(s, run)
    ensures AlwaysWorks(s, run)
  {
    WaitingIsGood(s, run);
    RunWorks(s, run);
  }

  // ----- the driver

  datatype EplKernel = EplSuccessful | EplInvalidOperation

  /** The run is made by the controller, the interrupt, and those who set lengths. */
  predicate Background(run: seq<Label>) {
    forall i :: 0 <= i < |run| ==>
      run[i].Transmitted? || run[i].TakeOff? || run[i].Clear? || run[i].Leave? || run[i].SetLength?
  }

  /** The run is made by the controller, the sender, and those who set lengths. */
  predicate Foreground(run: seq<Label>) {
    forall i :: 0 <= i < |run| ==> !run[i].TakeOff? && !run[i].Clear? && !run[i].Leave?
  }

  /** The run starts with sending b, and nothing else is sent in it. */
  predicate OneSend(run: seq<Label>, b: Buffer) {
    run != [] && run[0] == Test(b) && (forall i :: 0 < i < |run| ==> !run[i].Test?)
  }

  lemma {:induction false} BackgroundKeepsSender(s: State, run: seq<Label>)
    requires Background(run) && Execute(s, run).Some?
    ensures Execute(s, run).value.sender == s.sender
    decreases |run|
  {
    if run != [] {
      assert Background(run[1..]);
      BackgroundKeepsSender(Next(s, run[0]).value, run[1..]);
    }
  }

  lemma {:induction false} ForegroundKeepsInterrupt(s: State, run: seq<Label>)
    requires Foreground(run) && Execute(s, run).Some?
    ensures Execute(s, run).value.isr == s.isr
    decreases |run|
  {
    if run != [] {
      assert Foreground(run[1..]);
      ForegroundKeepsInterrupt(Next(s, run[0]).value, run[1..]);
    }
  }

  /** The transmit part of the driver, with the controller it drives. */
  class Edrv9003 {
    var firstEntry: Option<Buffer>     // m_pTransmittedTxBufferFirstEntry
    var lastEntry: Option<Buffer>      // m_pTransmittedTxBufferLastEntry
    var pVal: map<Buffer, Buffer>     // m_BufferNumber.m_pVal of the buffers that have it set
    var msgLen: map<Buffer, nat>      // m_uiTxMsgLen of the buffers
    var uiTxCount: nat
    var memory: seq<Frame>
    var busy: bool
    var pending: bool
    ghost var fault: bool
    ghost var sender: Sender
    ghost var isr: Interrupt
    ghost var sent: seq<Buffer>
    ghost var copied: seq<Frame>
    ghost var started: seq<Start>
    ghost var retired: seq<Buffer>

    ghost function TheState(): State
      reads this
    {
      State(List(firstEntry, lastEntry, pVal), msgLen, uiTxCount, sender, isr, memory, busy, pending, fault,
            sent, copied, started, retired)
    }

    constructor ()
      ensures Initial(TheState())
    {
      firstEntry, lastEntry, pVal, msgLen := None, None, map[], map[];
      uiTxCount, memory, busy, pending := 0, [], false, false;
      fault, sender, isr, sent, copied, started, retired := false, Outside, Idle, [], [], [], [];
    }

    /** Whatever controller and interrupt do, short of crashing, while the sender is between its steps. */
    method Interrupted() returns (ghost run: seq<Label>)
      requires !fault
      modifies this
      ensures Execute(old(TheState()), run) == Some(TheState()) && Background(run) && !fault
    {
      run := [];
    }

    /** Whatever controller and sender do while the interrupt is between its steps. */
    method Meanwhile() returns (ghost run: seq<Label>)
      requires !fault
      modifies this
      ensures Execute(old(TheState()), run) == Some(TheState()) && Foreground(run) && !fault
    {
      run := [];
    }

    /** Writes the length and sets TXREQ. */
    method Transmit(pBuffer: Buffer)
      modifies this
      ensures TheState() == StartWith(old(TheState()), pBuffer)
    {
      var uiTxMsgLen := LenOf(msgLen, pBuffer);
      var txPllr := uiTxMsgLen % 0x100;
      var txPlhr := uiTxMsgLen / 0x100 % 0x100;
      started := started + [Start(if memory == [] then None else Some(memory[0]), txPllr, txPlhr)];
      fault := fault || busy || memory == [];
      memory := if memory == [] then [] else memory[1..];
      busy := true;
    }

    method FirstSection(pBuffer: Buffer) returns (uiCurTxCount: nat)
      requires sender == Tested(pBuffer) && !fault
      modifies this
      ensures Next(old(TheState()), Enqueue) == Some(TheState()) && !fault
      ensures sender == if uiCurTxCount < 2 then Copying(pBuffer) else Outside
    {
      if lastEntry == None {
        lastEntry := Some(pBuffer);
        firstEntry := Some(pBuffer);
      } else {
        pVal := pVal[lastEntry.value := pBuffer];
        lastEntry := Some(pBuffer);
      }
      uiCurTxCount := uiTxCount;
      sent := sent + [pBuffer];
      sender := if uiCurTxCount < 2 then Copying(pBuffer) else Outside;
    }

    method CopyFrame(pBuffer: Buffer)
      requires sender == Copying(pBuffer) && !fault
      modifies this
      ensures Next(old(TheState()), Copy) == Some(TheState()) && sender == Counting(pBuffer) && !fault
    {
      var frame := Frame(pBuffer, LenOf(msgLen, pBuffer));
      memory := memory + [frame];
      copied, sender := copied + [frame], Counting(pBuffer);
    }

    method SecondSection(pBuffer: Buffer)
      requires sender == Counting(pBuffer) && !fault
      modifies this
      ensures Next(old(TheState()), Count) == Some(TheState()) && sender == Outside
    {
      uiTxCount, sender := Incremented(uiTxCount), Outside;
      var uiCurTxCount := uiTxCount;
      if uiCurTxCount == 1 {
        Transmit(pBuffer);
      }
    }

    /** The interrupt may come between two steps of the sender. */
    method Between(ghost before: State, ghost soFar: seq<Label>, ghost b: Buffer) returns (ghost run: seq<Label>)
      requires !fault && Execute(before, soFar) == Some(TheState()) && OneSend(soFar, b)
      modifies this
      ensures !fault && Execute(before, run) == Some(TheState()) && OneSend(run, b) && sender == old(sender)
      ensures soFar <= run
    {
      ghost var s := TheState();
      ghost var more := Interrupted();
      BackgroundKeepsSender(s, more);
      ExecuteConcat(before, soFar, more);
      run := soFar + more;
    }

    /** The copy and the second section. */
    method CopyAndCount(pBuffer: Buffer, ghost before: State, ghost soFar: seq<Label>) returns (ghost run: seq<Label>)
      requires !fault && Execute(before, soFar) == Some(TheState()) && OneSend(soFar, pBuffer)
      requires sender == Copying(pBuffer)
      modifies this
      ensures Execute(before, run) == Some(TheState()) && OneSend(run, pBuffer) && sender == Outside
      ensures soFar <= run
    {
      run := Between(before, soFar, pBuffer);
      ghost var s := TheState();
      CopyFrame(pBuffer);
      Step(before, run, s, Copy, TheState());
      run := Between(before, run + [Copy], pBuffer);
      s := TheState();
      SecondSection(pBuffer);
      Step(before, run, s, Count, TheState());
      run := run + [Count];
    }

    /** One call, interrupted anywhere between its steps, is one run of the protocol, at whose end the
        sender is through; a buffer with a link is refused. */
    method EdrvSendTxMsg(pBuffer: Buffer) returns (ret: EplKernel, ghost run: seq<Label>)
      requires sender == Outside && !fault
      modifies this
      ensures Execute(old(TheState()), run) == Some(TheState()) && OneSend(run, pBuffer) && sender == Outside
      ensures ret == EplInvalidOperation <==> pBuffer in old(pVal)
      ensures ret == EplInvalidOperation ==> TheState() == old(TheState())
      ensures ret == EplSuccessful ==> Enqueue in run
    {
      ghost var before := TheState();
      run := [Test(pBuffer)];
      assert [] + run == run;
      if pBuffer in pVal {
        Step(before, [], before, Test(pBuffer), before);
        return EplInvalidOperation, run;
      }
      sender := Tested(pBuffer);
      Step(before, [], before, Test(pBuffer), TheState());
      run := QueueAndSend(pBuffer, before, run);
      return EplSuccessful, run;
    }

    /** What EdrvSendTxMsg does behind its look at the link. */
    method QueueAndSend(pBuffer: Buffer, ghost before: State, ghost soFar: seq<Label>) returns (ghost run: seq<Label>)
      requires !fault && Execute(before, soFar) == Some(TheState()) && OneSend(soFar, pBuffer)
      requires sender == Tested(pBuffer)
      modifies this
      ensures Execute(before, run) == Some(TheState()) && OneSend(run, pBuffer) && sender == Outside
      ensures Enqueue in run
    {
      run := Between(before, soFar, pBuffer);
      ghost var s := TheState();
      var uiCurTxCount := FirstSection(pBuffer);
      Step(before, run, s, Enqueue, TheState());
      ghost var n := |run|;
      run := run + [Enqueue];
      if uiCurTxCount < 2 {
        run := CopyAndCount(pBuffer, before, run);
      }
      assert run[n] == Enqueue;
    }

    method UnlinkFirst() returns (pTxBuffer: Buffer, uiCurTxCount: nat, pNextTxBuffer: Option<Buffer>)
      requires firstEntry.Some?
      modifies this
      ensures Some(pTxBuffer) == old(firstEntry) && TheState() == TakenOff(old(TheState()), pTxBuffer)
      ensures isr == Clearing(pTxBuffer, uiCurTxCount, pNextTxBuffer)
    {
      pTxBuffer, pNextTxBuffer := firstEntry.value, None;
      firstEntry := if pTxBuffer in pVal then Some(pVal[pTxBuffer]) else None;
      if firstEntry == None {
        lastEntry := None;
      }
      uiTxCount := Decremented(uiTxCount);
      uiCurTxCount := uiTxCount;
      if uiCurTxCount >= 1 {
        pNextTxBuffer := if pTxBuffer in pVal then Some(pVal[pTxBuffer]) else None;
      }
      retired, pending := retired + [pTxBuffer], false;
      isr := Clearing(pTxBuffer, uiCurTxCount, pNextTxBuffer);
    }

    /** The locked section of the interrupt. */
    method TakeOffFirst() returns (pTxBuffer: Buffer, uiCurTxCount: nat, pNextTxBuffer: Option<Buffer>)
      requires pending && isr == Idle && firstEntry.Some? && !fault
      modifies this
      ensures Next(old(TheState()), TakeOff) == Some(TheState())
      ensures isr == Clearing(pTxBuffer, uiCurTxCount, pNextTxBuffer) && Some(pTxBuffer) == old(firstEntry)
    {
      pTxBuffer, uiCurTxCount, pNextTxBuffer := UnlinkFirst();
      if pNextTxBuffer.Some? {
        Transmit(pNextTxBuffer.value);
      }
    }

    method ClearTaken(pTxBuffer: Buffer)
      requires isr.Clearing? && isr.txBuffer == pTxBuffer && !fault
      modifies this
      ensures Next(old(TheState()), Clear) == Some(TheState()) && !fault
      ensures isr == Leaving(old(isr).curTxCount, old(isr).nextTxBuffer)
    {
      pVal := pVal - {pTxBuffer};
      isr := Leaving(isr.curTxCount, isr.nextTxBuffer);
    }

    method Refill(uiCurTxCount: nat, pNextTxBuffer: Option<Buffer>)
      requires isr == Leaving(uiCurTxCount, pNextTxBuffer) && !fault
      modifies this
      ensures Next(old(TheState()), Leave) == Some(TheState()) && isr == Idle
    {
      if uiCurTxCount >= 2 && pNextTxBuffer.Some? {
        if pNextTxBuffer.value in pVal {
          var b := pVal[pNextTxBuffer.value];
          memory := memory + [Frame(b, LenOf(msgLen, b))];
        }
      }
      isr := Idle;
    }

    /** The sender may act between two steps of the interrupt. */
    method WhileLeaving(ghost before: State, ghost soFar: seq<Label>) returns (ghost run: seq<Label>)
      requires !fault && Execute(before, soFar) == Some(TheState())
      modifies this
      ensures !fault && Execute(before, run) == Some(TheState()) && soFar <= run && isr == old(isr)
    {
      ghost var s := TheState();
      ghost var more := Meanwhile();
      ForegroundKeepsInterrupt(s, more);
      ExecuteConcat(before, soFar, more);
      run := soFar + more;
    }

    /** The transmit part of the interrupt handler, the sender acting between its steps, is a run too; it
        hands back the oldest buffer.  A start that crashed would end it early. */
    method TgtEthIsr() returns (pTxBuffer: Buffer, ghost run: seq<Label>)
      requires pending && isr == Idle && firstEntry.Some? && Counted(TheState()) && !fault
      modifies this
      ensures Execute(old(TheState()), run) == Some(TheState()) && isr == Idle
      ensures run != [] && run[0] == TakeOff && Some(pTxBuffer) == old(firstEntry)
    {
      ghost var before := TheState();
      var uiCurTxCount, pNextTxBuffer;
      pTxBuffer, uiCurTxCount, pNextTxBuffer := TakeOffFirst();
      CountedStep(before, TakeOff);
      Step(before, [], before, TakeOff, TheState());
      assert [] + [TakeOff] == [TakeOff];
      run := ClearAndLeave(pTxBuffer, uiCurTxCount, pNextTxBuffer, before, [TakeOff]);
    }

    /** What the interrupt does behind its locked section. */
    method ClearAndLeave(pTxBuffer: Buffer, uiCurTxCount: nat, pNextTxBuffer: Option<Buffer>,
                         ghost before: State, ghost soFar: seq<Label>)
      returns (ghost run: seq<Label>)
      requires !fault && Execute(before, soFar) == Some(TheState())
      requires isr == Clearing(pTxBuffer, uiCurTxCount, pNextTxBuffer)
      modifies this
      ensures Execute(before, run) == Some(TheState()) && soFar <= run && isr == Idle
    {
      run := WhileLeaving(before, soFar);
      ghost var s := TheState();
      ClearTaken(pTxBuffer);
      Step(before, run, s, Clear, TheState());
      run := WhileLeaving(before, run + [Clear]);
      s := TheState();
      Refill(uiCurTxCount, pNextTxBuffer);
      Step(before, run, s, Leave, TheState());
      run := run + [Leave];
    }
  }
}
