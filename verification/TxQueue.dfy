/** The queue of transmitted buffers of the WinPcap driver (staging/edrv/EdrvPacketCE.c).  Any number of
    threads send, one worker thread takes a buffer off when its own frame is seen on the wire.  Only
    appending and taking off are locked: the sender's look at the link comes before, and the worker
    clears the link of the buffer it took off after. */
module TxQueue {
  import opened Common
  import opened TxList

  type Byte = bv8

  const EDRV_MAX_FRAME_SIZE := 0x600

  datatype EplKernel = EplSuccessful | EplInvalidOperation | EplEdrvNoFreeBufEntry

  /** The caller's buffer structure with its link, m_BufferNumber.m_pVal. */
  class TxBuffer {
    var pVal: TxBuffer?
    var pbBuffer: seq<Byte>
    var txMsgLen: nat
    var maxBufferLen: nat
    const hasTxHandler: bool

    constructor (maxBufferLen: nat, hasTxHandler: bool)
      ensures this.maxBufferLen == maxBufferLen && this.hasTxHandler == hasTxHandler
    {
      pVal, pbBuffer, txMsgLen := null, [], 0;
      this.maxBufferLen, this.hasTxHandler := maxBufferLen, hasTxHandler;
    }
  }

  /** Where a thread stands in EdrvSendTxMsg: not in it, or past the look at the link. */
  datatype Sender = Outside | Tested(buffer: TxBuffer)

  /** Where the worker stands in EdrvPacketHandler: not in it, about to take off the buffer that it found
      first in the queue, about to clear its link, in its Tx handler. */
  datatype Worker = Idle | Matched(buffer: TxBuffer) | Clearing(buffer: TxBuffer) | Calling(buffer: TxBuffer)

  /** accepted lists the buffers appended so far, returned those taken off. */
  datatype State = State(list: List<TxBuffer>, senders: seq<Sender>, worker: Worker,
                         accepted: seq<TxBuffer>, returned: seq<TxBuffer>)

  datatype Label =
    | Test(p: nat, buffer: TxBuffer)  // EdrvSendTxMsg looks at the link
    | Enter(p: nat)                   // EdrvSendTxMsg, the critical section
    | Look(matches: bool)             // EdrvPacketHandler compares a frame of ours with the first buffer
    | Remove                          // EdrvPacketHandler, the critical section
    | Clear                           // EdrvPacketHandler clears the link
    | Return                          // the Tx handler returns

  function Next(s: State, l: Label): Option<State> {
    match l
    case Test(p, b) =>
      if p >= |s.senders| || s.senders[p] != Outside then None
      else if b in s.list.link then Some(s)  // refused
      else Some(s.(senders := s.senders[p := Tested(b)]))
    case Enter(p) =>
      if p >= |s.senders| || s.senders[p] == Outside then None
      else
        var b := s.senders[p].buffer;
        Some(s.(list := Append(s.list, b), senders := s.senders[p := Outside], accepted := s.accepted + [b]))
    case Look(matches) =>
      if s.worker != Idle then None
      else if matches && s.list.first.Some? then Some(s.(worker := Matched(s.list.first.value)))
      else Some(s)
    case Remove =>
      if !s.worker.Matched? || s.list.first == None then None
      else Some(s.(list := TakeOff(s.list), worker := Clearing(s.worker.buffer),
                   returned := s.returned + [s.worker.buffer]))
    case Clear =>
      if !s.worker.Clearing? then None
      else Some(s.(list := ClearLink(s.list, s.worker.buffer), worker := Calling(s.worker.buffer)))
    case Return =>
      if !s.worker.Calling? then None else Some(s.(worker := Idle))
  }

  function Execute(s: State, run: seq<Label>): Option<State>
    decreases |run|
  {
    if run == [] then Some(s) else
    match Next(s, run[0])
    case None => None
    case Some(t) => Execute(t, run[1..])
  }

  predicate Initial(s: State) {
    && s.list == List(None, None, map[])
    && (forall p :: 0 <= p < |s.senders| ==> s.senders[p] == Outside)
    && s.worker == Idle && s.accepted == [] && s.returned == []
  }

  // ----- what is to hold

  /** The buffers accepted and not yet taken off. */
  function Queued(s: State): seq<TxBuffer> {
    if |s.returned| <= |s.accepted| then s.accepted[|s.returned|..] else []
  }

  /** What was taken off is what was accepted, in order; the links represent the rest, and still will
      when the worker has cleared the link it is about to clear; and no other buffer has a link. */
  predicate Intact(s: State) {
    && s.returned <= s.accepted
    && Represents(s.list, Queued(s))
    && (s.worker.Matched? ==> s.list.first == Some(s.worker.buffer))
    && (s.worker.Clearing? ==> Represents(ClearLink(s.list, s.worker.buffer), Queued(s)))
    && (forall b :: b in s.list.link ==> b in Queued(s) || s.worker == Clearing(b))
  }

  predicate AlwaysIntact(s: State, run: seq<Label>)
    requires Execute(s, run).Some?
    decreases |run|
  {
    Intact(s) && (run == [] || AlwaysIntact(Next(s, run[0]).value, run[1..]))
  }

  /** A buffer is appended that is not in the queue and has no link, and not behind a buffer that was
      taken off and queued again before its link was cleared. */
  predicate GoodEntry(s: State, b: TxBuffer) {
    && b !in Queued(s) && b !in s.list.link
    && (s.worker.Clearing? ==> s.list.last != Some(s.worker.buffer))
  }

  predicate OnlyGoodEntries(s: State, run: seq<Label>)
    requires Execute(s, run).Some?
    decreases |run|
  {
    run == [] ||
    (&& (run[0].Enter? ==> GoodEntry(s, s.senders[run[0].p].buffer))
     && OnlyGoodEntries(Next(s, run[0]).value, run[1..]))
  }

  lemma EnterExactly(s: State, p: nat)
    requires Intact(s) && Next(s, Enter(p)).Some?
    ensures Intact(Next(s, Enter(p)).value) <==> GoodEntry(s, s.senders[p].buffer)
  {
    var t, b, q := Next(s, Enter(p)).value, s.senders[p].buffer, Queued(s);
    assert Queued(t) == q + [b];
    AppendExactly(s.list, q, b, Queued(t));
    if s.worker.Clearing? && b !in q && b !in s.list.link {
      ClearBehindEntry(s.list, q, b, s.worker.buffer);
    }
  }

  /** Appending keeps a pending clear harmless exactly if it is not the last entry that is cleared. */
  lemma ClearBehindEntry(l: List<TxBuffer>, q: seq<TxBuffer>, b: TxBuffer, taken: TxBuffer)
    requires Represents(l, q) && Represents(ClearLink(l, taken), q) && b !in q && b !in l.link
    ensures Represents(ClearLink(Append(l, b), taken), q + [b]) <==> l.last != Some(taken)
  {
    AppendExactly(l, q, b, q);
    ClearLinkExactly(l, q, taken, q);
    ClearLinkExactly(Append(l, b), q + [b], taken, q + [b]);
  }

  lemma RemoveKeeps(s: State)
    requires Intact(s) && Next(s, Remove).Some?
    ensures Intact(Next(s, Remove).value)
  {
    var t, q := Next(s, Remove).value, Queued(s);
    assert q[0] == s.accepted[|s.returned|];
    assert Queued(t) == q[1..];
    TakeOffExactly(s.list, q);
    ClearLinkExactly(TakeOff(s.list), q[1..], q[0], q[1..]);
  }

  lemma OtherStepsKeep(s: State, l: Label)
    requires Intact(s) && Next(s, l).Some? && !l.Enter?
    ensures Intact(Next(s, l).value)
  {
    if l == Remove {
      RemoveKeeps(s);
    }
  }

  lemma {:induction false} RunKeeps(s: State, run: seq<Label>)
    requires Intact(s) && Execute(s, run).Some?
    ensures AlwaysIntact(s, run) <==> OnlyGoodEntries(s, run)
    ensures OnlyGoodEntries(s, run) ==> Intact(Execute(s, run).value)
    decreases |run|
  {
    if run != [] {
      var t := Next(s, run[0]).value;
      if run[0].Enter? {
        EnterExactly(s, run[0].p);
      } else {
        OtherStepsKeep(s, run[0]);
      }
      if Intact(t) {
        RunKeeps(t, run[1..]);
      }
    }
  }

  /** Main result: with any number of sending threads, in every run the links represent the queue all
      along, and buffers come back once each and in order, exactly if every append is a good one. */
  lemma IntactExactlyWhen(s: State, run: seq<Label>)
    requires Initial(s) && Execute(s, run).Some?
    ensures AlwaysIntact(s, run) <==> OnlyGoodEntries(s, run)
  {
    RunKeeps(s, run);
  }

  /** In an intact queue a buffer is refused if others stand behind it, and not refused if it is the
      last entry, or not in the queue and not just being taken off. */
  lemma RefusedWhen(s: State, p: nat, b: TxBuffer)
    requires Intact(s) && p < |s.senders| && s.senders[p] == Outside
    ensures b in Queued(s) && s.list.last != Some(b) ==> Next(s, Test(p, b)) == Some(s)
    ensures s.list.last == Some(b) || (b !in Queued(s) && s.worker != Clearing(b))
        ==> Next(s, Test(p, b)) == Some(s.(senders := s.senders[p := Tested(b)]))
  {
    var q := Queued(s);
    if b in q && s.list.last != Some(b) {
      var i :| 0 <= i < |q| && q[i] == b;
      assert LinkOf(s.list, q[i]) == Some(q[i + 1]);
    }
  }

  // ----- what a caller has to do

  /** A buffer is sent only while it is not in the queue, not taken off with its Tx handler still to be
      called, and not being sent by another thread. */
  predicate SendsFreeBuffers(s: State, run: seq<Label>)
    requires Execute(s, run).Some?
    decreases |run|
  {
    run == [] ||
    (&& (run[0].Test? ==> Free(s, run[0].buffer))
     && SendsFreeBuffers(Next(s, run[0]).value, run[1..]))
  }

  predicate Free(s: State, b: TxBuffer) {
    && b !in Queued(s) && s.worker != Clearing(b)
    && (forall p :: 0 <= p < |s.senders| ==> s.senders[p] != Tested(b))
  }

  /** Every buffer is at one place only: in the queue, with the worker, or with one sender. */
  predicate OnePlace(s: State) {
    && |s.returned| <= |s.accepted|
    && (s.worker.Clearing? ==> s.worker.buffer !in Queued(s))
    && (forall p :: 0 <= p < |s.senders| && s.senders[p].Tested? ==>
          s.senders[p].buffer !in Queued(s) && s.worker != Clearing(s.senders[p].buffer))
    && (forall p, r :: 0 <= p < r < |s.senders| && s.senders[p].Tested? ==> s.senders[p] != s.senders[r])
  }

  lemma EnterOnePlace(s: State, p: nat)
    requires OnePlace(s) && Next(s, Enter(p)).Some?
    ensures OnePlace(Next(s, Enter(p)).value)
  {
    assert Queued(Next(s, Enter(p)).value) == Queued(s) + [s.senders[p].buffer];
  }

  lemma RemoveOnePlace(s: State)
    requires OnePlace(s) && Intact(s) && Next(s, Remove).Some?
    ensures OnePlace(Next(s, Remove).value)
  {
    var t, q := Next(s, Remove).value, Queued(s);
    TakeOffExactly(s.list, q);
    assert q[0] == s.accepted[|s.returned|];
    assert Queued(t) == q[1..];
    assert forall b :: b in q[1..] ==> b in q;
  }

  lemma OnePlaceStep(s: State, l: Label)
    requires Intact(s) && OnePlace(s) && Next(s, l).Some? && (l.Test? ==> Free(s, l.buffer))
    ensures l.Enter? ==> GoodEntry(s, s.senders[l.p].buffer)
    ensures OnePlace(Next(s, l).value)
  {
    if l.Enter? {
      EnterOnePlace(s, l.p);
      EntryIsGood(s, l.p);
    } else if l == Remove {
      RemoveOnePlace(s);
    } else {
      assert Queued(Next(s, l).value) == Queued(s);
    }
  }

  lemma EntryIsGood(s: State, p: nat)
    requires Intact(s) && OnePlace(s) && Next(s, Enter(p)).Some?
    ensures GoodEntry(s, s.senders[p].buffer)
  {
    assert s.senders[p].Tested?;
    var q := Queued(s);
    assert s.list.last.Some? ==> q[|q| - 1] in q;
  }

  lemma {:induction false} OnePlaceRun(s: State, run: seq<Label>)
    requires Intact(s) && OnePlace(s) && Execute(s, run).Some? && SendsFreeBuffers(s, run)
    ensures OnlyGoodEntries(s, run) && OnePlace(Execute(s, run).value)
    decreases |run|
  {
    if run != [] {
      OnePlaceStep(s, run[0]);
      if run[0].Enter? {
        EnterExactly(s, run[0].p);
      } else {
        OtherStepsKeep(s, run[0]);
      }
      OnePlaceRun(Next(s, run[0]).value, run[1..]);
    }
  }

  /** So it is enough not to send a buffer again before its Tx handler has been called. */
  lemma FreeBuffersAreEnough(s: State, run: seq<Label>)
    requires Initial(s) && Execute(s, run).Some? && SendsFreeBuffers(s, run)
    ensures AlwaysIntact(s, run) && OnePlace(Execute(s, run).value)
  {
    OnePlaceRun(s, run);
    RunKeeps(s, run);
  }

  // ----- what goes wrong otherwise

  lemma {:induction false} ExecuteConcat(s: State, run: seq<Label>, more: seq<Label>)
    requires Execute(s, run).Some?
    ensures Execute(s, run + more) == Execute(Execute(s, run).value, more)
    decreases |run|
  {
    if run == [] {
      assert run + more == more;
    } else {
      assert (run + more)[1..] == run[1..] + more;
      ExecuteConcat(Next(s, run[0]).value, run[1..], more);
    }
  }

  lemma ExecuteTwo(s: State, l: Label, m: Label)
    requires Next(s, l).Some?
    ensures Execute(s, [l, m]) == Next(Next(s, l).value, m)
  {
    assert [l, m][1..] == [m];
    assert Execute(Next(s, l).value, [m]) == Next(Next(s, l).value, m);
  }

  function SendOnce(b: TxBuffer): seq<Label> {
    [Test(0, b), Enter(0)]
  }

  lemma SendOnceAppends(s: State, b: TxBuffer)
    requires |s.senders| > 0 && s.senders[0] == Outside && b !in s.list.link
    ensures Execute(s, SendOnce(b)) == Some(s.(list := Append(s.list, b), accepted := s.accepted + [b]))
  {
    ExecuteTwo(s, Test(0, b), Enter(0));
    assert s.senders[0 := Tested(b)][0 := Outside] == s.senders;
  }

  /** A buffer taken off is sent again, and another behind it, before its link is cleared: the second
      buffer cannot be reached any more and never comes back. */
  lemma BufferIsLost(s: State, a: TxBuffer, b: TxBuffer)
    requires Initial(s) && |s.senders| > 0 && a != b
    ensures var r := Execute(s, SendOnce(a) + [Look(true), Remove] + SendOnce(a) + SendOnce(b)
                                + [Clear, Return] + [Look(true), Remove] + [Clear, Return]);
            r.Some? && r.value.accepted == [a, a, b] && r.value.returned == [a, a]
            && r.value.list == List(None, None, map[])
  {
    SendOnceAppends(s, a);
    var s1 := s.(list := List(Some(a), Some(a), map[]), accepted := [a]);
    assert s.accepted + [a] == [a];
    assert Execute(s, SendOnce(a)) == Some(s1);
    ExecuteTwo(s1, Look(true), Remove);
    ExecuteConcat(s, SendOnce(a), [Look(true), Remove]);
    var run2 := SendOnce(a) + [Look(true), Remove];
    var s2 := s1.(list := List(None, None, map[]), worker := Clearing(a), returned := [a]);
    assert Execute(s, run2) == Some(s2);
    SendOnceAppends(s2, a);
    assert [a] + [a] == [a, a] && [a, a] + [b] == [a, a, b];
    ExecuteConcat(s, run2, SendOnce(a));
    var run3, s3 := run2 + SendOnce(a), s2.(list := List(Some(a), Some(a), map[]), accepted := [a, a]);
    assert Execute(s, run3) == Some(s3);
    SendOnceAppends(s3, b);
    assert map[][a := b] == map[a := b] && map[a := b] - {a} == map[];
    ExecuteConcat(s, run3, SendOnce(b));
    var run4, s4 := run3 + SendOnce(b), s3.(list := List(Some(a), Some(b), map[a := b]), accepted := [a, a, b]);
    assert Execute(s, run4) == Some(s4);
    ExecuteTwo(s4, Clear, Return);
    ExecuteConcat(s, run4, [Clear, Return]);
    var run5, s5 := run4 + [Clear, Return], s4.(list := List(Some(a), Some(b), map[]), worker := Idle);
    assert Execute(s, run5) == Some(s5);
    ExecuteTwo(s5, Look(true), Remove);
    ExecuteConcat(s, run5, [Look(true), Remove]);
    var run6, s6 := run5 + [Look(true), Remove],
                    s5.(list := List(None, None, map[]), worker := Clearing(a), returned := [a, a]);
    assert Execute(s, run6) == Some(s6);
    ExecuteTwo(s6, Clear, Return);
    ExecuteConcat(s, run6, [Clear, Return]);
  }

  /** A caller that tries again after the network library failed ruins the queue: the answer is the one
      for a refused buffer, but the buffer is queued, and being the last entry it is not refused. */
  lemma RetryAfterFailure(s: State, b: TxBuffer, q: seq<TxBuffer>)
    requires Intact(s) && |s.senders| > 0 && s.senders[0] == Outside
    requires b !in Queued(s) && b !in s.list.link
    ensures Execute(s, SendOnce(b) + SendOnce(b)).Some?
    ensures !Represents(Execute(s, SendOnce(b) + SendOnce(b)).value.list, q)
  {
    SendOnceAppends(s, b);
    var t := Execute(s, SendOnce(b)).value;
    AppendExactly(s.list, Queued(s), b, q);
    SendOnceAppends(t, b);
    ExecuteConcat(s, SendOnce(b), SendOnce(b));
    AppendExactly(t.list, Queued(s) + [b], b, q);
  }

  // ----- the driver

  /** The worker finds a first entry whenever it takes one off, whatever the callers do. */
  lemma {:induction false} FirstEntryStays(s: State, run: seq<Label>)
    requires s.worker.Matched? ==> s.list.first.Some?
    requires Execute(s, run).Some?
    ensures Execute(s, run).value.worker.Matched? ==> Execute(s, run).value.list.first.Some?
    decreases |run|
  {
    if run != [] {
      FirstEntryStays(Next(s, run[0]).value, run[1..]);
    }
  }

  /** No step of the run is one of sender p. */
  predicate NotBySender(run: seq<Label>, p: nat) {
    forall i :: 0 <= i < |run| ==> !(run[i].Test? && run[i].p == p) && !(run[i].Enter? && run[i].p == p)
  }

  /** All steps of the run are steps of senders. */
  predicate BySenders(run: seq<Label>) {
    forall i :: 0 <= i < |run| ==> run[i].Test? || run[i].Enter?
  }

  /** A step behind a run. */
  lemma Step(s: State, run: seq<Label>, t: State, l: Label, u: State)
    requires Execute(s, run) == Some(t) && Next(t, l) == Some(u)
    ensures Execute(s, run + [l]) == Some(u)
  {
    ExecuteConcat(s, run, [l]);
    assert Execute(t, [l]) == Execute(u, [l][1..]);
  }

  lemma Concat(s: State, run: seq<Label>, t: State, more: seq<Label>, u: State)
    requires Execute(s, run) == Some(t) && Execute(t, more) == Some(u)
    ensures Execute(s, run + more) == Some(u)
  {
    ExecuteConcat(s, run, more);
  }

  lemma {:induction false} SendersKeepWorker(s: State, run: seq<Label>)
    requires BySenders(run) && Execute(s, run).Some?
    ensures Execute(s, run).value.worker == s.worker
    ensures s.list.first.Some? ==> Execute(s, run).value.list.first.Some?
    decreases |run|
  {
    if run != [] {
      assert BySenders(run[1..]);
      SendersKeepWorker(Next(s, run[0]).value, run[1..]);
    }
  }

  lemma {:induction false} OthersKeepSender(s: State, run: seq<Label>, p: nat)
    requires NotBySender(run, p) && Execute(s, run).Some? && p < |s.senders|
    ensures var t := Execute(s, run).value; |t.senders| == |s.senders| && t.senders[p] == s.senders[p]
    decreases |run|
  {
    if run != [] {
      assert NotBySender(run[1..], p);
      OthersKeepSender(Next(s, run[0]).value, run[1..], p);
    }
  }

  function Pointer(b: TxBuffer?): Option<TxBuffer> {
    if b == null then None else Some(b)
  }

  class EdrvInstance {
    const myMacAddr: seq<Byte>
    var firstEntry: TxBuffer?            // m_pTransmittedTxBufferFirstEntry
    var lastEntry: TxBuffer?             // m_pTransmittedTxBufferLastEntry
    ghost var buffers: set<TxBuffer>     // every buffer the driver was given
    ghost var senders: seq<Sender>
    ghost var worker: Worker
    ghost var accepted: seq<TxBuffer>
    ghost var returned: seq<TxBuffer>

    ghost function Links(): map<TxBuffer, TxBuffer>
      reads this`buffers, buffers
    {
      map b | b in buffers && b.pVal != null :: b.pVal
    }

    ghost function TheState(): State
      reads this, buffers
    {
      State(TheList(), senders, worker, accepted, returned)
    }

    /** Everything the driver points to is a buffer it was given. */
    ghost predicate Valid()
      reads this, buffers
    {
      && |myMacAddr| == 6
      && (firstEntry != null ==> firstEntry in buffers) && (lastEntry != null ==> lastEntry in buffers)
      && (forall b :: b in buffers && b.pVal != null ==> b.pVal in buffers)
      && (forall b :: b in buffers ==> |b.pbBuffer| >= 6)
      && (forall p :: 0 <= p < |senders| && senders[p].Tested? ==> senders[p].buffer in buffers)
      && (worker != Idle ==> worker.buffer in buffers)
    }

    constructor (mac: seq<Byte>, ghost threads: nat)
      requires |mac| == 6
      ensures Valid() && Initial(TheState()) && buffers == {} && |senders| == threads && myMacAddr == mac
    {
      myMacAddr, firstEntry, lastEntry := mac, null, null;
      buffers, senders, worker := {}, seq(threads, _ => Outside), Idle;
      accepted, returned := [], [];
    }

    /** malloc is what the allocator answers. */
    method EdrvAllocTxMsgBuffer(pBuffer: TxBuffer, malloc: Option<seq<Byte>>) returns (ret: EplKernel)
      requires Valid() && pBuffer !in buffers
      requires malloc.Some? ==> |malloc.value| == pBuffer.maxBufferLen >= 6
      modifies this`buffers, pBuffer
      ensures Valid()
      ensures ret == if pBuffer.maxBufferLen > EDRV_MAX_FRAME_SIZE || malloc == None
                     then EplEdrvNoFreeBufEntry else EplSuccessful
      ensures ret != EplSuccessful ==> buffers == old(buffers)
      ensures ret == EplSuccessful ==>
        buffers == old(buffers) + {pBuffer} && pBuffer.pVal == null && pBuffer.pbBuffer == malloc.value
      ensures TheState() == old(TheState())
    {
      if pBuffer.maxBufferLen > EDRV_MAX_FRAME_SIZE {
        return EplEdrvNoFreeBufEntry;
      }
      if malloc == None {
        return EplEdrvNoFreeBufEntry;
      }
      pBuffer.pbBuffer := malloc.value;
      pBuffer.pVal := null;
      buffers := buffers + {pBuffer};
      assert Links() == old(Links());
      return EplSuccessful;
    }

    /** Whatever the other threads do while sender p is past its look at the link. */
    method Others(ghost p: nat) returns (ghost run: seq<Label>)
      requires Valid()
      modifies this, buffers
      ensures Valid() && buffers == old(buffers)
      ensures Execute(old(TheState()), run) == Some(TheState()) && NotBySender(run, p)
    {
      run := [];
    }

    /** Whatever the senders do while the worker is between two of its steps. */
    method Senders() returns (ghost run: seq<Label>)
      requires Valid()
      modifies this, buffers
      ensures Valid() && buffers == old(buffers)
      ensures Execute(old(TheState()), run) == Some(TheState()) && BySenders(run)
    {
      run := [];
    }

    ghost function TheList(): List<TxBuffer>
      reads this`firstEntry, this`lastEntry, this`buffers, buffers
    {
      List(Pointer(firstEntry), Pointer(lastEntry), Links())
    }

    method SetLink(from: TxBuffer, pBuffer: TxBuffer)
      requires Valid() && from in buffers && pBuffer in buffers
      modifies from`pVal
      ensures Valid() && Links() == old(Links())[from := pBuffer]
    {
      from.pVal := pBuffer;
    }

    /** The critical section of EdrvSendTxMsg. */
    method LinkEntry(pBuffer: TxBuffer)
      requires Valid() && pBuffer in buffers
      modifies this`firstEntry, this`lastEntry, buffers
      ensures Valid() && TheList() == Append(old(TheList()), pBuffer)
    {
      if lastEntry == null {
        lastEntry := pBuffer;
        firstEntry := pBuffer;
      } else {
        SetLink(lastEntry, pBuffer);
        lastEntry := pBuffer;
      }
    }

    method AppendEntry(pBuffer: TxBuffer, ghost p: nat)
      requires Valid() && p < |senders| && senders[p] == Tested(pBuffer)
      modifies this, buffers
      ensures Valid() && buffers == old(buffers) && |senders| == old(|senders|) && senders[p] == Outside
      ensures Next(old(TheState()), Enter(p)) == Some(TheState())
    {
      LinkEntry(pBuffer);
      senders, accepted := senders[p := Outside], accepted + [pBuffer];
    }

    /** One call, others acting in between, is a run in which the buffer is refused, or queued even if
        the network library then fails to send it.  sendSucceeds is what PacketSendPacket answers, packet
        what it is given. */
    method EdrvSendTxMsg(pBuffer: TxBuffer, sendSucceeds: bool, ghost p: nat)
      returns (ret: EplKernel, packet: Option<(seq<Byte>, nat)>, ghost run: seq<Label>)
      requires Valid() && pBuffer in buffers && p < |senders| && senders[p] == Outside
      modifies this, buffers
      ensures Valid() && buffers == old(buffers)
      ensures p < |senders| && senders[p] == Outside
      ensures Execute(old(TheState()), run) == Some(TheState())
      ensures old(pBuffer.pVal) != null ==> ret == EplInvalidOperation && packet == None && run == [Test(p, pBuffer)]
      ensures old(pBuffer.pVal) == null ==>
        && ret == (if sendSucceeds then EplSuccessful else EplInvalidOperation)
        && packet == Some((pBuffer.pbBuffer, pBuffer.txMsgLen))
        && |run| >= 2 && run[0] == Test(p, pBuffer) && run[|run| - 1] == Enter(p)
        && NotBySender(run[1..|run| - 1], p)
    {
      ghost var before := TheState();
      run := [Test(p, pBuffer)];
      assert pBuffer in before.list.link <==> pBuffer.pVal != null;
      if pBuffer.pVal != null {
        Step(before, [], before, Test(p, pBuffer), before);
        assert [] + run == run;
        return EplInvalidOperation, None, run;
      }
      senders := senders[p := Tested(pBuffer)];
      Step(before, [], before, Test(p, pBuffer), TheState());
      assert [] + run == run;
      ghost var s := TheState();
      ghost var others := Others(p);
      OthersKeepSender(s, others, p);
      Concat(before, run, s, others, TheState());
      run := run + others;
      s := TheState();
      AppendEntry(pBuffer, p);
      Step(before, run, s, Enter(p), TheState());
      run := run + [Enter(p)];
      assert run[1..|run| - 1] == others;
      packet := Some((pBuffer.pbBuffer, pBuffer.txMsgLen));
      return if sendSucceeds then EplSuccessful else EplInvalidOperation, packet, run;
    }

    /** The critical section of EdrvPacketHandler. */
    method TakeOffEntry(pTxBuffer: TxBuffer)
      requires Valid() && worker == Matched(pTxBuffer) && firstEntry != null
      modifies this`firstEntry, this`lastEntry, this`worker, this`returned
      ensures Valid() && buffers == old(buffers) && worker == Clearing(pTxBuffer)
      ensures Next(old(TheState()), Remove) == Some(TheState())
    {
      firstEntry := firstEntry.pVal;
      if firstEntry == null {
        lastEntry := null;
      }
      worker, returned := Clearing(pTxBuffer), returned + [pTxBuffer];
    }

    method ClearEntry(pTxBuffer: TxBuffer)
      requires Valid() && worker == Clearing(pTxBuffer)
      modifies this`worker, pTxBuffer`pVal
      ensures Valid() && buffers == old(buffers) && worker == Calling(pTxBuffer)
      ensures Next(old(TheState()), Clear) == Some(TheState())
    {
      pTxBuffer.pVal := null;
      worker := Calling(pTxBuffer);
      assert Links() == old(Links()) - {pTxBuffer};
    }

    /** The worker is interrupted by senders. */
    method Meanwhile(ghost before: State, ghost soFar: seq<Label>) returns (ghost run: seq<Label>)
      requires Valid() && Execute(before, soFar) == Some(TheState())
      modifies this, buffers
      ensures Valid() && buffers == old(buffers) && worker == old(worker)
      ensures old(firstEntry) != null ==> firstEntry != null
      ensures Execute(before, run) == Some(TheState()) && soFar <= run
    {
      ghost var s := TheState();
      ghost var more := Senders();
      SendersKeepWorker(s, more);
      Concat(before, soFar, s, more, TheState());
      run := soFar + more;
    }

    /** The critical section, after which senders may act. */
    method TakeOffStep(pTxBuffer: TxBuffer, ghost before: State, ghost soFar: seq<Label>) returns (ghost run: seq<Label>)
      requires Valid() && worker == Matched(pTxBuffer) && firstEntry != null
      requires Execute(before, soFar) == Some(TheState())
      modifies this, buffers
      ensures Valid() && buffers == old(buffers) && worker == Clearing(pTxBuffer)
      ensures Execute(before, run) == Some(TheState()) && soFar <= run
    {
      ghost var s := TheState();
      TakeOffEntry(pTxBuffer);
      Step(before, soFar, s, Remove, TheState());
      run := Meanwhile(before, soFar + [Remove]);
    }

    method ClearStep(pTxBuffer: TxBuffer, ghost before: State, ghost soFar: seq<Label>) returns (ghost run: seq<Label>)
      requires Valid() && worker == Clearing(pTxBuffer)
      requires Execute(before, soFar) == Some(TheState())
      modifies this, buffers
      ensures Valid() && buffers == old(buffers) && worker == Calling(pTxBuffer)
      ensures Execute(before, run) == Some(TheState()) && soFar <= run
    {
      ghost var s := TheState();
      ClearEntry(pTxBuffer);
      Step(before, soFar, s, Clear, TheState());
      run := Meanwhile(before, soFar + [Clear]);
    }

    ghost method HandlerReturns(before: State, soFar: seq<Label>) returns (run: seq<Label>)
      requires Valid() && worker.Calling?
      requires Execute(before, soFar) == Some(TheState())
      modifies this`worker
      ensures Valid() && worker == Idle
      ensures Execute(before, run) == Some(TheState()) && soFar <= run
    {
      var s := TheState();
      worker := Idle;
      Step(before, soFar, s, Return, TheState());
      run := soFar + [Return];
    }

    /** The part of EdrvPacketHandler behind a match, the senders acting between its steps. */
    method TakeOffFirst(pTxBuffer: TxBuffer, ghost before: State, ghost soFar: seq<Label>) returns (ghost run: seq<Label>)
      requires Valid() && worker == Matched(pTxBuffer) && firstEntry != null
      requires Execute(before, soFar) == Some(TheState())
      modifies this, buffers
      ensures Valid() && buffers == old(buffers) && worker == Idle
      ensures Execute(before, run) == Some(TheState()) && soFar <= run
    {
      run := Meanwhile(before, soFar);
      run := TakeOffStep(pTxBuffer, before, run);
      run := ClearStep(pTxBuffer, before, run);
      run := HandlerReturns(before, run);
    }

    /** A frame from another station goes to the Rx handler; one of our own takes the first buffer off
        exactly if it has that buffer's destination, and calls its handler, if it has one. */
    method EdrvPacketHandler(pktData: seq<Byte>)
      returns (rxHandler: bool, txHandler: Option<TxBuffer>, ghost run: seq<Label>)
      requires Valid() && worker == Idle && |pktData| >= 12
      modifies this, buffers
      ensures Valid() && buffers == old(buffers) && worker == Idle
      ensures Execute(old(TheState()), run) == Some(TheState())
      ensures rxHandler <==> pktData[6..12] != myMacAddr
      ensures var matches := !rxHandler && old(firstEntry) != null && pktData[..6] == old(firstEntry.pbBuffer[..6]);
              if matches then
                && run != [] && run[0] == Look(true)
                && txHandler == if old(firstEntry).hasTxHandler then Pointer(old(firstEntry)) else None
              else run == [] && txHandler == None
    {
      rxHandler, txHandler, run := false, None, [];
      if pktData[6..12] != myMacAddr {
        rxHandler := true;
      } else {
        if firstEntry != null {
          var pTxBuffer: TxBuffer := firstEntry;
          if pktData[..6] == pTxBuffer.pbBuffer[..6] {
            ghost var before := TheState();
            worker := Matched(pTxBuffer);
            Step(before, [], before, Look(true), TheState());
            assert [] + [Look(true)] == [Look(true)];
            run := TakeOffFirst(pTxBuffer, before, [Look(true)]);
            if pTxBuffer.hasTxHandler {
              txHandler := Some(pTxBuffer);
            }
          }
        }
      }
    }
  }
}
