/** Timer handles of the high resolution timer module (staging/edrv/EdrvPacketCE.c).  A handle carries
    the number of its slot in the top four bits and a count of the slot's modifications below. */
module HighResTimer {
  import opened Common

  const TIMER_COUNT := 2
  const TIMERHDL_COUNTS := 0x1000_0000   // TIMERHDL_MASK + 1, which is also 1 << TIMERHDL_SHIFT

  datatype EplKernel = EplSuccessful | EplTimerInvalidHandle | EplTimerNoTimerCreated

  datatype TimerInfo = TimerInfo(handle: nat, hasCallback: bool, argument: nat, dueTime: nat, timerId: nat)

  /** ((handle + 1) & TIMERHDL_MASK) | ((index + 1) << TIMERHDL_SHIFT) */
  function NextHandle(handle: nat, index: nat): nat {
    (handle + 1) % TIMERHDL_COUNTS + (index + 1) * TIMERHDL_COUNTS
  }

  /** (handle >> TIMERHDL_SHIFT) - 1, if that is the index of a slot. */
  function SlotOf(handle: nat): Option<nat> {
    var i := handle / TIMERHDL_COUNTS;
    if 1 <= i <= TIMER_COUNT then Some(i - 1) else None
  }

  type Timers = s: seq<TimerInfo> | |s| == TIMER_COUNT witness [TimerInfo(0, false, 0, 0, 0), TimerInfo(0, false, 0, 0, 0)]

  function FreeSlot(s: Timers): Option<nat> {
    if !s[0].hasCallback then Some(0) else if !s[1].hasCallback then Some(1) else None
  }

  /** The slot a modification with this handle works on; handle 0 asks for a new timer. */
  function Target(s: Timers, handle: nat): Option<nat> {
    if handle == 0 then FreeSlot(s) else SlotOf(handle)
  }

  /** What the caller asks for; timerId is what timeSetEvent answers, zero if it fails. */
  datatype Request = Request(timeNs: nat, hasCallback: bool, argument: nat, continuously: bool, timerId: nat)

  function Milliseconds(timeNs: nat): nat {
    if timeNs > 1000000 then timeNs / 1000000 % 0x1_0000_0000 else 1
  }

  function Modified(t: TimerInfo, index: nat, r: Request): TimerInfo {
    TimerInfo(NextHandle(t.handle, index), r.hasCallback, r.argument,
              if r.continuously then Milliseconds(r.timeNs) else 0, r.timerId)
  }

  datatype Op = Modify(handle: nat, request: Request) | Delete(handle: nat)

  /** The slot an operation changes, if it changes any. */
  function Changes(s: Timers, op: Op): Option<nat> {
    match op
    case Modify(handle, _) => Target(s, handle)
    case Delete(handle) =>
      match SlotOf(handle)
      case Some(i) => if s[i].handle == handle then Some(i) else None
      case None => None
  }

  function Apply(s: Timers, op: Op): Timers {
    match Changes(s, op)
    case None => s
    case Some(i) =>
      match op
      case Modify(_, request) => s[i := Modified(s[i], i, request)]
      case Delete(_) => s[i := s[i].(hasCallback := false)]
  }

  function ApplyAll(s: Timers, run: seq<Op>): Timers
    decreases |run|
  {
    if run == [] then s else ApplyAll(Apply(s, run[0]), run[1..])
  }

  /** How often slot i is modified in a run. */
  function Modifications(s: Timers, run: seq<Op>, i: nat): nat
    decreases |run|
  {
    if run == [] then 0
    else (if run[0].Modify? && Changes(s, run[0]) == Some(i) then 1 else 0)
         + Modifications(Apply(s, run[0]), run[1..], i)
  }

  /** The handle of slot i after count further modifications. */
  function HandleAfter(handle: nat, i: nat, count: nat): nat {
    if count == 0 then handle else (handle + count) % TIMERHDL_COUNTS + (i + 1) * TIMERHDL_COUNTS
  }

  /** The handle was issued for slot i. */
  predicate Issued(handle: nat, i: nat) {
    i < TIMER_COUNT && handle / TIMERHDL_COUNTS == i + 1
  }

  lemma {:induction false} HandleAfterRun(s: Timers, run: seq<Op>, i: nat)
    requires i < TIMER_COUNT
    ensures ApplyAll(s, run)[i].handle == HandleAfter(s[i].handle, i, Modifications(s, run, i))
    decreases |run|
  {
    if run != [] {
      var t := Apply(s, run[0]);
      HandleAfterRun(t, run[1..], i);
      if run[0].Modify? && Changes(s, run[0]) == Some(i) {
        OneMore(s[i].handle, i, Modifications(t, run[1..], i));
      }
    }
  }

  lemma OneMore(handle: nat, i: nat, count: nat)
    ensures HandleAfter(NextHandle(handle, i), i, count) == HandleAfter(handle, i, count + 1)
  {
  }

  /** Handles issued for a slot name that slot, are not zero and fit into 32 bits. */
  lemma HandleNamesSlot(handle: nat, i: nat, count: nat)
    requires i < TIMER_COUNT && count > 0
    ensures var h := HandleAfter(handle, i, count); Issued(h, i) && SlotOf(h) == Some(i) && 0 < h < 0x1_0000_0000
  {
  }

  /** Handles of different slots never collide. */
  lemma SlotsNeverCollide(h: nat, g: nat, i: nat, j: nat)
    requires Issued(h, i) && Issued(g, j) && i != j
    ensures h != g
  {
  }

  /** Main result: a slot's handle comes back exactly after every 2^28 modifications, whatever else
      happens in between. */
  lemma HandleReturnsExactlyWhen(s: Timers, run: seq<Op>, i: nat)
    requires i < TIMER_COUNT && Issued(s[i].handle, i)
    ensures ApplyAll(s, run)[i].handle == s[i].handle <==> Modifications(s, run, i) % TIMERHDL_COUNTS == 0
  {
    HandleAfterRun(s, run, i);
  }

  /** Main result: deleting with a handle that slot i had before a run does something exactly if the
      number of modifications of the slot since then is a multiple of 2^28; otherwise no timer changes. */
  lemma StaleDeleteExactlyWhen(s: Timers, run: seq<Op>, i: nat)
    requires i < TIMER_COUNT && Issued(s[i].handle, i)
    ensures var t := ApplyAll(s, run);
            var stale := Modifications(s, run, i) % TIMERHDL_COUNTS != 0;
            && (Changes(t, Delete(s[i].handle)) == if stale then None else Some(i))
            && (stale ==> Apply(t, Delete(s[i].handle)) == t)
  {
    HandleReturnsExactlyWhen(s, run, i);
  }

  /** What a modification changes: with handle 0 the lowest slot without a callback, or nothing exactly if all
      have one; otherwise the slot that the top four bits name, or nothing if there is no such slot.  That
      slot gets everything the caller asks for and the next handle, the others keep what they had. */
  lemma ModifyExactly(s: Timers, handle: nat, r: Request)
    ensures var t, slot := Apply(s, Modify(handle, r)), Target(s, handle);
            && (slot == None <==> if handle == 0 then forall i :: 0 <= i < TIMER_COUNT ==> s[i].hasCallback
                                  else handle / 0x1000_0000 !in {1, 2})
            && (slot == None ==> t == s)
            && (slot.Some? ==>
                  var i := slot.value;
                  && i < TIMER_COUNT
                  && (if handle == 0 then !s[i].hasCallback && forall j :: 0 <= j < i ==> s[j].hasCallback
                      else handle / 0x1000_0000 == i + 1)
                  && (forall j :: 0 <= j < TIMER_COUNT && j != i ==> t[j] == s[j])
                  && t[i].hasCallback == r.hasCallback && t[i].argument == r.argument && t[i].timerId == r.timerId
                  && (!r.continuously ==> t[i].dueTime == 0)
                  && (r.continuously && r.timeNs <= 1000000 ==> t[i].dueTime == 1)
                  && (r.continuously && 1000000 < r.timeNs < 0x1_0000_0000 * 1000000 ==>
                        t[i].dueTime == r.timeNs / 1000000)
                  && t[i].handle / 0x1000_0000 == i + 1
                  && t[i].handle % 0x1000_0000 == (s[i].handle + 1) % 0x1000_0000)
  {
  }

  /** A delete frees exactly the slot with this very handle, and changes nothing else of it. */
  lemma DeleteExactly(s: Timers, handle: nat, i: nat)
    requires i < TIMER_COUNT
    ensures Changes(s, Delete(handle)) == Some(i) <==> s[i].handle == handle && handle / 0x1000_0000 == i + 1
    ensures var t := Apply(s, Delete(handle));
            if s[i].handle == handle && handle / 0x1000_0000 == i + 1
            then !t[i].hasCallback && t[i] == s[i].(hasCallback := t[i].hasCallback)
            else t[i] == s[i]
  {
  }

  /** So after a successful delete there is a slot for a new timer, at or below the one freed, and a new timer
      there has another handle than the one deleted. */
  lemma CreateAfterDelete(s: Timers, i: nat, r: Request)
    requires i < TIMER_COUNT && Issued(s[i].handle, i)
    ensures var t := Apply(s, Delete(s[i].handle));
            var u := Apply(t, Modify(0, r));
            && Target(t, 0).Some? && Target(t, 0).value <= i
            && ((forall j :: 0 <= j < i ==> s[j].hasCallback) ==> Target(t, 0) == Some(i))
            && u[Target(t, 0).value].hasCallback == r.hasCallback
            && (Target(t, 0) == Some(i) ==> u[i].handle != s[i].handle)
  {
    DeleteExactly(s, s[i].handle, i);
    ModifyExactly(Apply(s, Delete(s[i].handle)), 0, r);
  }

  class EplTimerHighResk {
    const timerInfo: array<TimerInfo>

    constructor ()
      ensures timerInfo.Length == TIMER_COUNT && fresh(timerInfo)
      ensures forall i :: 0 <= i < TIMER_COUNT ==> timerInfo[i] == TimerInfo(0, false, 0, 0, 0)
    {
      timerInfo := new TimerInfo[TIMER_COUNT](_ => TimerInfo(0, false, 0, 0, 0));
    }

    /** EplTimerHighReskModifyTimerNs.  timerHdl is None for a null pointer; newHdl is what the caller's
        handle is afterwards, timeSet what timeSetEvent is given: the delay and the event of the slot. */
    method ModifyTimerNs(timerHdl: Option<nat>, request: Request)
      returns (ret: EplKernel, newHdl: Option<nat>, timeSet: Option<(nat, nat)>)
      requires timerInfo.Length == TIMER_COUNT
      modifies timerInfo
      ensures timerHdl == None ==> ret == EplTimerInvalidHandle && timerInfo[..] == old(timerInfo[..]) && newHdl == None
      ensures timeSet == None ==> ret != EplSuccessful && timerInfo[..] == old(timerInfo[..])
      ensures timeSet.Some? ==>
        var (delay, i) := timeSet.value;
        && timerHdl.Some? && i < TIMER_COUNT && newHdl == Some(timerInfo[i].handle)
        && (timerHdl.value == 0 ==> !old(timerInfo[i].hasCallback) && forall j :: 0 <= j < i ==> old(timerInfo[j].hasCallback))
        && (timerHdl.value != 0 ==> timerHdl.value / 0x1000_0000 == i + 1)
        && delay == (if request.timeNs <= 1000000 then 1 else request.timeNs / 1000000 % 0x1_0000_0000)
      ensures timerHdl == Some(0) ==> (timeSet == None <==> forall i :: 0 <= i < TIMER_COUNT ==> old(timerInfo[i].hasCallback))
      ensures timerHdl.Some? ==>
        var slot := Target(old(timerInfo[..]), timerHdl.value);
        && timerInfo[..] == Apply(old(timerInfo[..]), Modify(timerHdl.value, request))
        && newHdl == (if slot == None then timerHdl else Some(timerInfo[slot.value].handle))
        && (slot == None ==> ret == if timerHdl.value == 0 then EplTimerNoTimerCreated else EplTimerInvalidHandle)
        && (slot.Some? ==> ret == if request.timerId == 0 then EplTimerNoTimerCreated else EplSuccessful)
    {
      newHdl, timeSet := timerHdl, None;
      if timerHdl == None {
        return EplTimerInvalidHandle, newHdl, timeSet;
      }
      var timeMs := 1;
      if request.timeNs > 1000000 {
        timeMs := request.timeNs / 1000000 % 0x1_0000_0000;
      }
      var index := 0;
      if timerHdl.value == 0 {
        while index < TIMER_COUNT && timerInfo[index].hasCallback
          invariant 0 <= index <= TIMER_COUNT
          invariant forall i :: 0 <= i < index ==> timerInfo[i].hasCallback
        {
          index := index + 1;
        }
        if index >= TIMER_COUNT {
          return EplTimerNoTimerCreated, newHdl, timeSet;
        }
      } else {
        index := timerHdl.value / TIMERHDL_COUNTS - 1;
        if index < 0 || index >= TIMER_COUNT {
          return EplTimerInvalidHandle, newHdl, timeSet;
        }
      }
      var handle := (timerInfo[index].handle + 1) % TIMERHDL_COUNTS + (index + 1) * TIMERHDL_COUNTS;
      timerInfo[index] := TimerInfo(handle, request.hasCallback, request.argument,
                                    if request.continuously then timeMs else 0, request.timerId);
      newHdl := Some(timerInfo[index].handle);
      timeSet := Some((timeMs, index));
      if request.timerId == 0 {
        return EplTimerNoTimerCreated, newHdl, timeSet;
      }
      return EplSuccessful, newHdl, timeSet;
    }

    /** EplTimerHighReskDeleteTimer.  killed is the event given to timeKillEvent. */
    method DeleteTimer(timerHdl: Option<nat>) returns (ret: EplKernel, newHdl: Option<nat>, killed: Option<nat>)
      requires timerInfo.Length == TIMER_COUNT
      modifies timerInfo
      ensures timerHdl == None ==>
        ret == EplTimerInvalidHandle && timerInfo[..] == old(timerInfo[..]) && newHdl == None && killed == None
      ensures timerHdl.Some? ==>
        var slot := Changes(old(timerInfo[..]), Delete(timerHdl.value));
        && timerInfo[..] == Apply(old(timerInfo[..]), Delete(timerHdl.value))
        && newHdl == (if slot == None then timerHdl else Some(0))
        && killed == (if slot == None then None else Some(old(timerInfo[..])[slot.value].timerId))
        && (ret == EplSuccessful <==> timerHdl.value == 0 || SlotOf(timerHdl.value).Some?)
        && (ret != EplSuccessful ==> ret == EplTimerInvalidHandle)
    {
      ret, newHdl, killed := EplSuccessful, timerHdl, None;
      if timerHdl == None {
        return EplTimerInvalidHandle, newHdl, killed;
      }
      if timerHdl.value == 0 {
        return;
      }
      var index := timerHdl.value / TIMERHDL_COUNTS - 1;
      if index < 0 || index >= TIMER_COUNT {
        return EplTimerInvalidHandle, newHdl, killed;
      }
      if timerInfo[index].handle != timerHdl.value {
        return;
      }
      timerInfo[index] := timerInfo[index].(hasCallback := false);
      killed := Some(timerInfo[index].timerId);
      newHdl := Some(0);
    }
  }
}
