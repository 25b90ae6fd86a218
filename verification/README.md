# Verification of the openPOWERLINK device-level code

This project models the parts of the repository in which several parties work on shared state, or in
which a loop has to compute something that is not obvious from reading it, and proves what they
promise. `dafny verify dfyconfig.toml` checks everything.

| file | models |
|---|---|
| `DualprocLock.dfy` | the token lock between two processors, as a timed transition system |
| `DualprocBuffLock.dfy` | the buffer locks built on it, related to it run by run |
| `DualprocTable.dfy` | the address table between the processors, byte by byte |
| `Gf2.dfy`, `CrcRegister.dfy` | polynomials over GF(2) and shift registers of any width |
| `MulticastHash.dfy` | the CRC-32 loops of two Ethernet drivers and the hash filter |
| `FecTxRing.dfy` | the transmit ring of the FEC driver |
| `FecRxRing.dfy`, `FecPages.dfy` | its receive ring, buffer stack, and the pages behind the buffers |
| `FecRelease.dfy` | returning receive buffers from several processors, guard and push apart |
| `TxList.dfy` | the list of transmitted buffers that two drivers thread through the buffers themselves |
| `Dm9003Tx.dfy` | who starts the next frame in the DM9003 driver |
| `TxQueue.dfy` | the queue of transmitted buffers of the WinPcap driver, with several sending threads |
| `HighResTimer.dfy` | generation-counted timer handles |
| `Getopt.dfy`, `GetoptComplaints.dfy` | the resumable command line parser, and its reading of every command line |
| `Common.dfy` | an option type |

## How it is built

Concurrent code is a labelled transition system: `Next(state, label)` is one atomic step (a locked
section, one access to the shared byte, one act of the hardware or of the upper layer), a run is a
sequence of labels, and the theorems are about every run. Hardware, the network and the other
processor are labels, so they may act at any point. The classes hold the driver's own fields; their
methods follow the driver's statements and are proved to make exactly those steps, with methods such
as `Meanwhile`, `ControllerTransmits`, `Interrupted` and `RxHandler` standing for whatever the others do
in between: callers know of them only that they make a run of the others' steps. Code that only
computes is compared with an independent definition: the remainder of a polynomial division, a
printed command line, the history of a table.

## What the proofs found

Several promises hold only under a condition; each is proved as "exactly when".

* The token lock excludes if and only if all tokens are different and not the default ID, and the
  delay from reading the free lock to writing the token is always shorter than the delay from writing
  it to reading it again. The barrier alone does not give that bound.
* The transmit ring is an exactly-once FIFO if and only if no send is accepted while `tx_full` is set.
  `EdrvSendTxMsg` tests the READY flag only, so a full ring whose oldest frame is finished but not yet
  retired accepts one buffer too many and the completion of the oldest is lost (`CompletionLost`).
* Receive buffers are conserved if and only if the upper layer never keeps more of them than the ring
  leaves over; then the extra slot of the stack array is needed and is enough. In every run the stack
  holds the reserve, plus one for each time it was found empty, plus one while a buffer is being kept,
  less what is held. So a release finds a slot if and only if at least as many buffers are held as the
  stack was found empty, and one more while one is being kept. The guard in `EdrvReleaseRxBuffer`
  compares with the size of the whole pool and lets releases pass for which the array has no slot
  (`GuardIsTooLoose`); the comment at the array promises one extra place for early releases only.
  Within the reserve the controller never writes to a buffer that is held; beyond it any buffer can be
  overwritten while it is held (`HeldIsNotOverwritten`, `HeldIsOverwritten`).
* Both drivers with a list of transmitted buffers clear the link of the buffer they took off after
  leaving the critical section. A buffer that is sent again in between is not refused, and one queued
  behind it is then cut off. In the DM9003 driver that stalls the transmitter for good
  (`LinkClearedTooLate`, `StallIsForGood`), in the WinPcap driver the second buffer never comes back
  (`BufferIsLost`).
* The DM9003 driver starts each frame exactly once, in order and with its own length, and leaves none
  lying, if and only if a third buffer is never queued, none is queued behind a buffer whose link is
  still to be cleared, and no buffer gets another length while its frame is in the controller and not
  started: the length is read from the buffer at the start, not when the frame is copied
  (`LengthChangedTooEarly`). A caller meets this by having two buffers queued at most and by neither
  setting the length of a buffer nor sending it before its Tx handler was called (`WaitingIsEnough`). The
  refill in the interrupt, meant for a third buffer, is unreachable whatever the callers do, because the counter stays between zero and two; a third frame is
  never copied, and its buffer is handed back when a later frame was transmitted (`ThirdFrameIsLost`).
* The links of the WinPcap driver represent its queue all along if and only if no buffer is appended
  that is in the queue or has a link, and none behind a buffer whose link is still to be cleared. Again
  it is enough not to send a buffer before its Tx handler was called, nor from two threads at once
  (`FreeBuffersAreEnough`). When the network library fails, `EdrvSendTxMsg` answers
  `kEplInvalidOperation` although the buffer is queued; a caller that tries again makes the buffer link
  to itself (`RetryAfterFailure`).
* A timer handle comes back after exactly 2^28 modifications of its slot and multiples of that.
  `EplTimerHighReskDeleteTimer` is documented to set the caller's handle to zero; with a stale handle it
  leaves it alone and still reports success. The model follows the code.
* When a page cannot be allocated, `fec_free_buffers` looks at descriptors and a stack top that have not been
  set yet. On the first start all pages got so far are lost but for the ninth, and the count of pages, which
  is meant to tell, is wrong when fewer than nine were got (`FreedOnFailureExactly`, `FirstStartFails`).
  With the stack top at -1, where an earlier failure or an earlier life leaves it, exactly the pages that old
  descriptors name are freed (`FailureWithEmptyStack`).
* Beyond the reserve every page can be freed twice, whatever the page size (`PageFreedTwice`).
* A second release under one ID of the dual-processor library frees the same address again
  (`FreedAgainExactlyWhen`, `FreedTwice`). If malloc has given that address to another ID meanwhile, and only
  then, the live block of the other ID is freed (`FreesLiveBlockExactlyWhen`, `LiveBlockFreed`).
* The DM9003 hash and the FEC hash of an address are each other's bit reversal; the `| dwCarry` in the
  DM9003 loop changes nothing.

## Model

| member | source | states |
|---|---|---|
| DualprocLock.TargetAcquireLock | contrib/dualprocshm/src/dualprocshm-zynq.c:263-290 | the spin loop makes exactly the reads and writes of the recursive description on whatever bytes it sees, and says whether it got out |
| DualprocLock.ProcessorFollowsLoop | contrib/dualprocshm/src/dualprocshm-zynq.c:263-290 | in every run of the timed system each processor's accesses are those of the spin loop on the bytes it saw, and it holds the lock exactly when that loop has ended |
| DualprocLock.TimelyTokensAreSafe | contrib/dualprocshm/src/dualprocshm-zynq.c:263-314 | with good tokens and timely writes, every reachable state has at most one holder, the byte is its token, is the default ID when all are outside, and is never the token of a processor outside |
| DualprocLock.DefaultTokenFails | contrib/dualprocshm/src/dualprocshm-zynq.c:276-286 | a processor whose token is the default ID can share the lock |
| DualprocLock.SharedTokenFails | contrib/dualprocshm/src/dualprocshm-zynq.c:276-288 | two processors with the same token can hold the lock together |
| DualprocLock.LateWriteFails | contrib/dualprocshm/src/dualprocshm-zynq.c:274-288 | if a confirming read may come before a pending write, two processors can hold the lock together |
| DualprocLock.SpinsFreely | contrib/dualprocshm/src/dualprocshm-zynq.c:271-288 | a waiting processor reads on without any delay as long as another token is in the byte |
| DualprocLock.LockIsSafeExactlyWhen | contrib/dualprocshm/src/dualprocshm-zynq.c:263-314 | for two or more processors: mutual exclusion in every run if and only if tokens are good and the write delay is shorter than the re-read delay |
| DualprocBuffLock.BufferRunIsLockRun | contrib/dualprocshm/src/dualprocshm-noos.c:581-658 | seen from the lock byte of a shared buffer, every run of acquires and releases is a run of the token lock |
| DualprocBuffLock.LockRunIsBufferRun | contrib/dualprocshm/src/dualprocshm-noos.c:581-658 | every run of the token lock can happen at a shared buffer |
| DualprocBuffLock.UnsharedBufferFails | contrib/dualprocshm/src/dualprocshm-noos.c:590-607 | a buffer the switch does not list can have two owners |
| DualprocBuffLock.BufferIsExclusiveExactlyWhen | contrib/dualprocshm/src/dualprocshm-noos.c:581-658 | at most one owner in every run if and only if the buffer is listed and the lock's condition holds |
| DualprocBuffLock.LockBytesInEveryRun | contrib/dualprocshm/src/dualprocshm-noos.c:593-604 | under that condition the lock byte of a shared buffer is the owner's token, and the default ID while nobody owns the buffer or is acquiring it |
| DualprocBuffLock.MaskedThroughoutSection | contrib/dualprocshm/src/dualprocshm-noos.c:587-657 | local interrupts are off exactly on the processors between the start of an acquire and the end of the release |
| DualprocBuffLock.IdleCanAcquire | contrib/dualprocshm/src/dualprocshm-noos.c:581-612 | an idle processor can always ask: it owns an unlisted buffer at once, and reads the lock byte of a listed one, interrupts being off |
| DualprocBuffLock.OwnerCanRelease | contrib/dualprocshm/src/dualprocshm-noos.c:627-658 | an owner can always give the buffer back: it is idle with interrupts on, and the lock byte of a listed buffer, and nothing else, is free |
| DualprocTable.ValueOfBytes | contrib/dualprocshm/src/dualprocshm-noos.c:676-707 | a number written as n bytes reads back if it fits |
| DualprocTable.ValueOfLowBytes | contrib/dualprocshm/src/dualprocshm-noos.c:347 | a number that does not fit is written like its remainder |
| DualprocTable.LatestAreApart | contrib/dualprocshm/src/dualprocshm-noos.c:336-351 | buffers of different IDs that are not released never overlap |
| DualprocTable.ReleasedExactlyWhen | contrib/dualprocshm/src/dualprocshm-noos.c:401-412 | what was allocated under an ID is released if and only if there was a release after the allocation |
| DualprocTable.LookupAgrees | contrib/dualprocshm/src/dualprocshm-noos.c:322-415 | after any history of allocations, releases and writes into buffers, a lookup on the other processor finds exactly the latest unreleased allocation, its size modulo 65536 and a free lock byte, or nothing |
| DualprocTable.DualProcDrv.TargetWriteData | contrib/dualprocshm/src/dualprocshm-zynq.c:236-247 | memory changes at the given bytes and nowhere else |
| DualprocTable.DualProcDrv.SetDynBuffAddr | contrib/dualprocshm/src/dualprocshm-noos.c:676-684 | writes the four bytes of one table entry only |
| DualprocTable.EntryBytes | contrib/dualprocshm/src/dualprocshm-noos.c:676-684 | the entry is the four bytes at four times the index, lowest byte first, and no other byte changes |
| DualprocTable.DualProcDrv.GetDynBuffAddr | contrib/dualprocshm/src/dualprocshm-noos.c:697-707 | reads back the number in one table entry |
| DualprocTable.DualProcDrv.AllocMemory | contrib/dualprocshm/src/dualprocshm-noos.c:322-351 | error answers change nothing; success is one allocation step of the history model, noted locally |
| DualprocTable.BufferHolds | contrib/dualprocshm/src/dualprocshm-noos.c:344-351 | after any history each byte of an unreleased buffer is what was last written to it since the allocation, and zero if nothing was |
| DualprocTable.LastTouchExists | contrib/dualprocshm/src/dualprocshm-noos.c:344-351 | for each such byte there is that last write or the allocation |
| DualprocTable.TouchesExactly | contrib/dualprocshm/src/dualprocshm-noos.c:344-406 | each step changes its entry, its new buffer or the byte written, and nothing else |
| DualprocTable.DualProcDrv.FindMemory | contrib/dualprocshm/src/dualprocshm-noos.c:352-364 | answers what the lookup of the history model finds, and notes it locally |
| DualprocTable.DualProcDrv.FreeMemory | contrib/dualprocshm/src/dualprocshm-noos.c:389-415 | the owner clears the table entry and frees its own block; the other side only forgets |
| DualprocTable.DualProcDrv.Perform | contrib/dualprocshm/src/dualprocshm-noos.c:322-415 | one call on the owning processor is one step of the history model, and a release gives the address of the latest allocation under its ID to free |
| DualprocTable.Replay | contrib/dualprocshm/src/dualprocshm-noos.c:322-415 | a sequence of such calls leaves the memory of the history model, and each release gives the address noted last to free |
| DualprocTable.FreedAgainExactlyWhen | contrib/dualprocshm/src/dualprocshm-noos.c:401-406 | that address is the latest unreleased allocation, or one given to free before, the latter if and only if there was a release since the allocation |
| DualprocTable.FreedTwice | contrib/dualprocshm/src/dualprocshm-noos.c:401-406 | releasing twice is such a history |
| DualprocTable.SharedExactlyWhen | contrib/dualprocshm/src/dualprocshm-noos.c:338-351 | in every history the address last allocated under one ID is that of a live block of another if and only if malloc gave it to the other after the release |
| DualprocTable.FreesLiveBlockExactlyWhen | contrib/dualprocshm/src/dualprocshm-noos.c:401-406 | a release frees the live block of another ID if and only if that is so of its own ID |
| DualprocTable.LiveBlockFreed | contrib/dualprocshm/src/dualprocshm-noos.c:338-406 | allocate, release, allocate there under another ID, release the first ID again is such a history, and the block freed still counts as allocated |
| DualprocTable.ReplayThenFind | contrib/dualprocshm/src/dualprocshm-noos.c:322-415 | after any such sequence on one driver, the lookup on the other answers address and size of the latest unreleased allocation, or `kDualprocNoResource` |
| CrcRegister.CrcIsTheRemainder | staging/edrv/Edrv9003.c:1358-1366 | for any width, generator and preset the register is the one remainder of preset * x^n + M * x^w |
| CrcRegister.FormsAgree | staging/edrv/EdrvFec.c:602-608 | for any width the register and the reflected register are reversals of each other after every bit |
| Gf2.AddBit | staging/edrv/EdrvFec.c:605-606 | the sum of two polynomials is their exclusive or, bit by bit |
| CrcRegister.MessageBit | staging/edrv/Edrv9003.c:1354-1366 | in the message polynomial the first bit fed is the highest coefficient |
| MulticastHash.Crc32IsTheRemainder | staging/edrv/Edrv9003.c:1335-1373 | the register is the one remainder of 0xFFFFFFFF * x^n + M * x^32 by the polynomial of section 3.2.9 of IEEE 802.3 |
| MulticastHash.Crc32FormsAgree | staging/edrv/EdrvFec.c:599-608 | the two drivers' registers are 32-bit reversals of each other after every bit |
| MulticastHash.BitAt | staging/edrv/Edrv9003.c:1354-1357 | bit j of byte i of the address is fed as number 8 * i + j |
| MulticastHash.HashIsOfRemainder | staging/edrv/Edrv9003.c:1339-1373 | for an address of any length the hash is the six low bits of the remainder of the polynomial that its bits spell, first byte first and lowest bit first |
| MulticastHash.LoopBodyIsStep | staging/edrv/Edrv9003.c:1360-1365 | the loop body with its shifts, carry and `\| dwCarry` is one register step |
| MulticastHash.FeedByte | staging/edrv/Edrv9003.c:1356-1366 | the bit loop feeds the eight bits of a byte, lowest first |
| MulticastHash.EdrvCalcHash | staging/edrv/Edrv9003.c:1339-1373 | the hash is the six low bits of the remainder for the address |
| MulticastHash.FeedByteReflected | staging/edrv/EdrvFec.c:603-607 | the same for the reflected loop |
| MulticastHash.FecHash | staging/edrv/EdrvFec.c:599-613 | the FEC hash is the six-bit reversal of the DM9003 hash, for addresses of any length |
| MulticastHash.HashesAgree | staging/edrv/EdrvFec.c:613 | the six top bits of the reflected register are the reversed DM9003 hash |
| MulticastHash.HashBits | staging/edrv/EdrvFec.c:613 | bit i of the FEC hash is bit 5 - i of the DM9003 hash |
| MulticastHash.MulticastFilter.EdrvDefineRxMacAddrEntry | staging/edrv/Edrv9003.c:543-580 | afterwards exactly the address's hash and the hashes set before pass; bit h % 8 of register h / 8 is set and all else is unchanged |
| MulticastHash.MulticastFilter.EdrvUndefineRxMacAddrEntry | staging/edrv/Edrv9003.c:596-611 | afterwards exactly the hashes set before other than the address's pass; that bit is reset and all else is unchanged |
| MulticastHash.MulticastFilter.Replay | staging/edrv/Edrv9003.c:543-611 | after any history a hash passes exactly if the last entry with that hash was set, or none was touched and it passed before |
| MulticastHash.LastWordIsOfLast | staging/edrv/Edrv9003.c:543-611 | what decides is the last entry with this hash, or the initial value if there is none |
| FecTxRing.SendStatus | staging/edrv/EdrvFec.c:771-795 | the masked status update makes the descriptor READY and keeps its WRAP flag |
| FecTxRing.Execute | staging/edrv/EdrvFec.c:370-377 | every run keeps the cursors in bounds and in lockstep and WRAP on exactly the last descriptor |
| FecTxRing.EnqueueExtendsWindow | staging/edrv/EdrvFec.c:758-810 | a send to a ring that is not full appends its buffer to the window of outstanding ones |
| FecTxRing.RetireShortensWindow | staging/edrv/EdrvFec.c:989-1043 | one pass of the interrupt's loop takes the oldest buffer off the window |
| FecTxRing.FifoExactlyWhen | staging/edrv/EdrvFec.c:725-1047 | from an idle ring, accepted buffers = retired buffers followed by the window, in order, if and only if nothing was accepted while `tx_full` was set |
| FecTxRing.RefusedOnlyWhenFull | staging/edrv/EdrvFec.c:762-810 | in such runs a lack of descriptors is reported only with all slots outstanding, `tx_full` says exactly that, and equal cursors mean empty or full |
| FecTxRing.RetiresExactlyWhen | staging/edrv/EdrvFec.c:989-991 | in such runs an entry is taken out exactly while some are outstanding and the oldest descriptor is not READY |
| FecTxRing.DescribesWhatWasAccepted | staging/edrv/EdrvFec.c:773-797 | in such runs descriptor k of the outstanding ones holds address and length of the buffer accepted as number k after those that came out, the orders for the controller, and while READY no old status |
| FecTxRing.RestStaysClear | staging/edrv/EdrvFec.c:995-1028 | from a ring without buffers on, no descriptor or entry outside the window leads to a buffer |
| FecTxRing.SendWhenFullLoses | staging/edrv/EdrvFec.c:764-808 | otherwise some accepted buffers are neither retired nor in the window, for good |
| FecTxRing.CompletionLost | staging/edrv/EdrvFec.c:764-808 | a run from any idle ring after which an accepted buffer is found nowhere and was not handed back |
| FecTxRing.FecEnet.constructor | staging/edrv/EdrvFec.c:1592-1603 | the ring starts idle |
| FecTxRing.FecEnet.EdrvSendTxMsg | staging/edrv/EdrvFec.c:725-816 | answers by error cause, and is otherwise one send step of the ring |
| FecTxRing.FecEnet.RetireEntry | staging/edrv/EdrvFec.c:993-1043 | is one retire step and calls the handler of the buffer taken off |
| FecTxRing.FecEnet.OnePass | staging/edrv/EdrvFec.c:989-1044 | one loop test and pass, with completions in between, is a run that retires one buffer or ends the loop |
| FecTxRing.HandlerCallsExactly | staging/edrv/EdrvFec.c:1027-1032 | each buffer that has a Tx handler gets it called as often as it was retired, no other does |
| FecTxRing.HandlerCallsInOrder | staging/edrv/EdrvFec.c:1027-1032 | the calls are in the order in which the buffers were retired |
| FecTxRing.FecEnet.FecEnetTx | staging/edrv/EdrvFec.c:979-1047 | whatever completes meanwhile, at most one pass per outstanding buffer (at most the ring size), handlers called in order, nothing retirable left |
| FecRxRing.Execute | staging/edrv/EdrvFec.c:1169-1186 | every run keeps the cursor in bounds and WRAP on exactly the last descriptor |
| FecRxRing.PlacesStep | staging/edrv/EdrvFec.c:901-1186 | no step changes how often a buffer occurs in ring, stack and upper layer together, except a handler keeping one when the stack is empty |
| FecRxRing.ConservedExactlyWhen | staging/edrv/EdrvFec.c:1135-1167 | after a run from the start every buffer is at exactly one place if and only if the upper layer never came out of a handler with more kept buffers than the reserve |
| FecRxRing.BeyondReserve | staging/edrv/EdrvFec.c:1160-1166 | beyond the reserve some buffer is at two places for good |
| FecRxRing.StackBounds | staging/edrv/EdrvFec.c:392-397 | in those runs the stack never needs more than the one extra slot, and that only while a buffer is being replaced; a free buffer is found exactly if the upper layer is within its reserve |
| FecRxRing.ExtraSlotIsUsed | staging/edrv/EdrvFec.c:392-397 | a run in which the extra slot is used |
| FecRxRing.NeverExhausted | staging/edrv/EdrvFec.c:1137-1166 | keeping within the reserve is the same as never finding the stack empty |
| FecRxRing.ReleaseFitsExactlyWhen | staging/edrv/EdrvFec.c:901-919 | in every run from the start, the size of the stack in terms of the times it was found empty and of what is held; a release has a slot in the array if and only if enough is held |
| FecRxRing.GuardIsTooLoose | staging/edrv/EdrvFec.c:907-912 | from any start with two descriptors or more, a run after which the guard lets a release pass that the array has no slot for |
| FecRxRing.BufferIsDoubled | staging/edrv/EdrvFec.c:1160-1166 | from any start, and for every buffer, a run after which it is in the ring and on the stack |
| FecRxRing.HeldIsNotOverwritten | staging/edrv/EdrvFec.c:1135-1170 | within the reserve the controller never writes to a buffer that the upper layer holds or that is on the stack |
| FecRxRing.HeldIsOverwritten | staging/edrv/EdrvFec.c:1160-1166 | otherwise any buffer can come to be written to while it is held |
| FecRelease.TwoStepsAreOneExactlyWhen | staging/edrv/EdrvFec.c:901-919 | for any number of releasing processors, the look before the lock and the push do what one step would do, if and only if the guard would still pass at every push |
| FecRelease.WholeReleasesAreRuns | staging/edrv/EdrvFec.c:901-919 | conversely every run with releases in one step is such a run |
| FecRelease.RoomIsNeverStale | staging/edrv/EdrvFec.c:907-912 | while pushes stay inside the array that is always so |
| FecRelease.FirstOverrun | staging/edrv/EdrvFec.c:907 | with two descriptors or more the first push behind the array passes the guard even at that moment; with one the guard is exact |
| FecRelease.StaleGuardOverruns | staging/edrv/EdrvFec.c:907-912 | from any start, for rings of any size, a run after which one of two processors that looked at the same time pushes where the guard would not pass any more; by FirstOverrun the array of a ring of two descriptors or more, as the driver's are, has been overrun by then |
| FecRxRing.DeliveredInOrder | staging/edrv/EdrvFec.c:1075-1193 | in every run from the start the handler has seen the stored frames in order, each once, without the collided ones, and the filled descriptors are one window from `cur_rx` |
| FecRxRing.GoodInOrder | staging/edrv/EdrvFec.c:1107-1131 | each frame that is not dropped is seen right behind those before it, with its contents and four bytes less than its stored length |
| FecRxRing.GoodCount | staging/edrv/EdrvFec.c:1107-1131 | as many frames are seen as were stored without a late collision |
| FecRxRing.FecEnet.constructor | staging/edrv/EdrvFec.c:1569-1590 | the ring starts empty, the other buffers are on the stack |
| FecRxRing.FecEnet.EdrvReleaseRxBuffer | staging/edrv/EdrvFec.c:901-919 | returning a held buffer while the array has a slot for it, which is stated exactly, succeeds and is one release step; without a slot the code writes behind the array and nothing is stated |
| FecRxRing.FecEnet.Replace | staging/edrv/EdrvFec.c:1137-1181 | replacing a kept buffer, others acting between test and pop, is a run inside the array |
| FecRxRing.FecEnet.KeepInRing | staging/edrv/EdrvFec.c:1137-1186 | a buffer not kept, or kept with the stack empty, stays in the ring, and the latter is counted |
| FecRxRing.FecEnet.Process | staging/edrv/EdrvFec.c:1115-1186 | one good frame, kept or not, with a free buffer or without, is a run inside the array that delivers it |
| FecRxRing.FecEnet.Skip | staging/edrv/EdrvFec.c:1107-1113 | a collided frame is dropped and its buffer stays in the ring |
| FecRxRing.FecEnet.FecEnetRx | staging/edrv/EdrvFec.c:1055-1195 | however many buffers the upper layer keeps, and as long as releases find a slot, the interrupt is a run of the ring, ends, and leaves every stored frame delivered in order |
| FecPages.PageOffsetIsRemainder | staging/edrv/EdrvFec.c:1476 | the offset in the page is the address modulo the page size |
| FecPages.StorePage | staging/edrv/EdrvFec.c:1553-1566 | the buffers of one page go to the ring while it has room, then to the stack, in order |
| FecPages.GetPages | staging/edrv/EdrvFec.c:1540-1567 | the loop ends with the buffers of all pages got so far, in order, the ring filled first |
| FecPages.FecAllocBuffers | staging/edrv/EdrvFec.c:1540-1569 | with memory for all pages ring and stack together are their buffers in order, the ring is full, and the pages are counted; otherwise the pages found in the old descriptors and below the old stack top are freed and the call fails |
| FecPages.FecFreeBuffers | staging/edrv/EdrvFec.c:1467-1501 | frees the page-aligned addresses of the descriptors that have a buffer and then of the stack from its top, counting down |
| FecPages.ReversedAt | staging/edrv/EdrvFec.c:1491-1493 | the stack is gone through from its top down |
| FecPages.FreedOnFailureExactly | staging/edrv/EdrvFec.c:1546-1549 | in any earlier state of the driver and for every page, got or not: when memory runs out it is freed as often as the old descriptors and the old slots up to the old stack top name it, and once more if and only if it was got and its first buffer stored at or below that top |
| FecPages.FailureWithEmptyStack | staging/edrv/EdrvFec.c:1467-1501 | with the stack top at -1 a failing start frees each page as often as the old descriptors name it and no more, whether it was got or not |
| FecPages.FirstStartFails | staging/edrv/EdrvFec.c:1485-1510 | on the first start that is at most the ninth page, otherwise the null address is freed; all other pages are lost, and the count reads 0 exactly when one page was got and lost |
| FecPages.BuffersAreDistinct | staging/edrv/EdrvFec.c:1540-1567 | buffers cut out of distinct pages are distinct |
| FecPages.PagesFreedOnce | staging/edrv/EdrvFec.c:1467-1501 | after any run within the reserve, the freed pages and the pages whose first buffer is still held are together all pages, each once |
| FecPages.PageFreedAsOftenAsFound | staging/edrv/EdrvFec.c:1467-1501 | after any run, also beyond the reserve, a page is freed as often as its first buffer is found in the ring and on the stack |
| FecPages.PageFreedTwice | staging/edrv/EdrvFec.c:1160-1166 | from the start that allocation makes, and for every page, a run after which this page is freed twice |
| FecPages.PageAllocationsAtEnd | staging/edrv/EdrvFec.c:1503-1510 | `m_iPageAllocations` ends at the number of such held pages, so at 0 exactly if none is missing |
| FecPages.Lifetime | staging/edrv/EdrvFec.c:1467-1584 | allocation, any run in which releases find a slot, and freeing, joined: each page is freed as often as its first buffer is found; within the reserve the count ends at the number of pages still held, and if nothing is held each page was freed exactly once and the count is 0 |
| Getopt.Parser.Getopt | contrib/getopt/getopt.c:117-197 | one call reports the next item of the recursive reading, or -1 with `optind` at its end |
| Getopt.Parser.Letter | contrib/getopt/getopt.c:160-196 | the same for the second half, once a letter has been fetched |
| Getopt.ReadCommandLine | drivers/linux/drv_daemon_pcap/daemon.c:126 | the callers' loop ends and collects the whole reading: results, `optopt`, `optarg`, and the final `optind` |
| Getopt.WordReads | contrib/getopt/getopt.c:122-196 | a printed option word reads back as its options, whatever surrounds it |
| Getopt.RoundTrip | contrib/getopt/getopt.c:117-197 | every printed list of options, followed by "--" or operands, reads back as that list with `optind` at the first operand |
| Getopt.ClusteringIsImmaterial | contrib/getopt/getopt.c:139-158 | options in clusters and one letter a word read the same, with the same operands |
| Getopt.CleanExactlyWhenPrinted | contrib/getopt/getopt.c:102-109 | with '?' no option letter, no call answers '?' or ':' if and only if the command line is a printed option list with operands behind it |
| GetoptComplaints.KindExactly | contrib/getopt/getopt.c:158-171 | a letter is known unless it is a colon or not in the option string, and wants an argument if a colon follows its first occurrence there |
| GetoptComplaints.WordReads | contrib/getopt/getopt.c:122-196 | a word reads letter by letter, unknown ones answered with '?' and the others still read, whatever surrounds it |
| GetoptComplaints.LineReads | contrib/getopt/getopt.c:117-197 | a command line of such words, ending with operands or with an option whose argument is missing, reads as its items: ':' for the missing argument exactly if the option string starts with a colon, else '?', `optarg` as it was, and `optind` behind what was read |
| GetoptComplaints.EveryLineIsOne | contrib/getopt/getopt.c:117-197 | every command line is one of these |
| TxList.QueueIsDetermined | staging/edrv/EdrvPacketCE.c:134-135 | first entry, last entry and links represent one sequence only |
| TxList.NoBufferTwice | staging/edrv/EdrvPacketCE.c:436-438 | a represented queue is acyclic |
| TxList.AppendExactly | staging/edrv/Edrv9003.c:716-725 | the locked append extends the queue if the buffer is not in it and has no link, and otherwise leaves links that represent nothing |
| TxList.TakeOffExactly | staging/edrv/Edrv9003.c:900-905 | the locked removal takes the first buffer off the queue |
| TxList.ClearLinkExactly | staging/edrv/Edrv9003.c:923 | clearing a link is harmless unless another buffer stands behind that buffer in the queue, and then leaves links that represent nothing |
| Dm9003Tx.CountedStep | staging/edrv/Edrv9003.c:703-944 | every step, whatever the callers do, keeps the counter equal to the frames in the controller, and only a null first entry can fault |
| Dm9003Tx.TwoBytesTell | staging/edrv/Edrv9003.c:744-745 | the two registers get a byte each and together tell the length, for lengths below 65536 exactly |
| Dm9003Tx.RefillIsUnreachable | staging/edrv/Edrv9003.c:906-942 | in every run, whatever the callers do, the unsigned counter stays between 0 and 2, is at least 1 when the interrupt counts down, and the refill branch is never taken |
| Dm9003Tx.QueueLength | staging/edrv/Edrv9003.c:726-740 | between sends the counter is the number of queued buffers |
| Dm9003Tx.ExactlyOnceExactlyWhen | staging/edrv/Edrv9003.c:703-944 | in every interleaving each frame is started exactly once, in order and with the registers telling the length it was copied with (in 16 bits), and none is left lying when all is quiet, if and only if no third buffer is queued, none behind a buffer whose link is still to be cleared, and no buffer gets another length while its frame is copied and not started |
| Dm9003Tx.QuietMeansDone | staging/edrv/Edrv9003.c:703-944 | in such runs, when nothing can move any more, all frames are started and all buffers handed back |
| Dm9003Tx.WaitingIsEnough | staging/edrv/Edrv9003.c:709-927 | a caller meets the condition with at most two buffers queued, setting the length of a buffer and sending it again only after its Tx handler was called |
| Dm9003Tx.BadSendFails | staging/edrv/Edrv9003.c:709-923 | each send that breaks the condition leads to a failure by itself |
| Dm9003Tx.BadLengthFails | staging/edrv/Edrv9003.c:743-745 | each change of a length that breaks the condition leads by itself to a start with a wrong length |
| Dm9003Tx.ThirdFramesAreLost | staging/edrv/Edrv9003.c:715-731 | whatever the callers do, each buffer queued while two frames are counted is lost for good |
| Dm9003Tx.ExactlyOnceAtTheEnd | staging/edrv/Edrv9003.c:715-944 | if none is queued behind a link still to be cleared, the frames have come out once and in order at the end if and only if there was no third buffer anywhere, whatever the lengths did, and with their own lengths if these were kept |
| Dm9003Tx.LoseThird | staging/edrv/Edrv9003.c:715-731 | a third buffer is queued and never copied |
| Dm9003Tx.ThirdFrameIsLost | staging/edrv/Edrv9003.c:715-944 | later the third buffer is handed back in place of a fourth |
| Dm9003Tx.LinkClearedTooLate | staging/edrv/Edrv9003.c:900-923 | a buffer sent again, with any length, before its link is cleared, and another behind it: that one is never started and the transmitter stalls |
| Dm9003Tx.LengthChangedTooEarly | staging/edrv/Edrv9003.c:909-915 | the length of a queued buffer is changed before it is sent again: the waiting frame goes out with the new length |
| Dm9003Tx.StallIsForGood | staging/edrv/Edrv9003.c:739-921 | a stalled transmitter never starts a frame again, whatever is sent |
| Dm9003Tx.Edrv9003.Transmit | staging/edrv/Edrv9003.c:743-748 | writes both bytes of the length the buffer has now and starts the oldest frame in the controller |
| Dm9003Tx.Edrv9003.FirstSection | staging/edrv/Edrv9003.c:715-727 | is the step that queues the buffer |
| Dm9003Tx.Edrv9003.SecondSection | staging/edrv/Edrv9003.c:739-750 | is the step that counts the frame and starts it if it is the only one |
| Dm9003Tx.Edrv9003.EdrvSendTxMsg | staging/edrv/Edrv9003.c:703-755 | refuses a buffer with a link; otherwise a call, interrupted anywhere between its steps, is a run of the protocol with one send |
| Dm9003Tx.Edrv9003.TakeOffFirst | staging/edrv/Edrv9003.c:899-921 | is the step that takes the oldest buffer off and may start the next frame |
| Dm9003Tx.Edrv9003.ClearTaken | staging/edrv/Edrv9003.c:923 | is the later step that clears the link |
| Dm9003Tx.Edrv9003.TgtEthIsr | staging/edrv/Edrv9003.c:889-944 | the transmit interrupt, the sender acting between its steps, is a run of the protocol that hands back the oldest buffer |
| TxQueue.IntactExactlyWhen | staging/edrv/EdrvPacketCE.c:414-641 | with any number of sending threads, the links represent the queue all along and buffers come back once and in order, if and only if every append is of a buffer neither queued nor linked, and not behind one whose link is still to be cleared |
| TxQueue.EnterExactly | staging/edrv/EdrvPacketCE.c:429-440 | one append keeps the queue intact if and only if it is a good one |
| TxQueue.RefusedWhen | staging/edrv/EdrvPacketCE.c:422-427 | a queued buffer other than the last is refused; the last, and one neither queued nor just taken off, is not |
| TxQueue.FreeBuffersAreEnough | staging/edrv/EdrvPacketCE.c:414-641 | it is enough to send a buffer only while it is not queued, its Tx handler is not still to be called, and no other thread is sending it |
| TxQueue.BufferIsLost | staging/edrv/EdrvPacketCE.c:422-635 | a buffer sent again before its link is cleared, and another behind it: the other one never comes back |
| TxQueue.RetryAfterFailure | staging/edrv/EdrvPacketCE.c:422-450 | sending again after a failed send leaves links that represent no queue |
| TxQueue.FirstEntryStays | staging/edrv/EdrvPacketCE.c:621-628 | whatever the callers do, there is a first entry when the worker takes one off |
| TxQueue.EdrvInstance.EdrvAllocTxMsgBuffer | staging/edrv/EdrvPacketCE.c:473-496 | too large a buffer and a failing allocation are refused; otherwise the buffer has a null link, and the queue is left alone |
| TxQueue.EdrvInstance.EdrvSendTxMsg | staging/edrv/EdrvPacketCE.c:414-454 | a call, other threads acting between its steps, is a run in which the buffer is refused because of its link, or appended whether or not the network library, given its contents and length, then sends it |
| TxQueue.EdrvInstance.TakeOffEntry | staging/edrv/EdrvPacketCE.c:627-633 | is the step that takes the first buffer off |
| TxQueue.EdrvInstance.ClearEntry | staging/edrv/EdrvPacketCE.c:635 | is the later step that clears the link |
| TxQueue.EdrvInstance.EdrvPacketHandler | staging/edrv/EdrvPacketCE.c:602-665 | foreign frames go to the Rx handler; an own frame takes the first buffer off exactly if the destination matches, senders acting between its steps, and calls its handler |
| HighResTimer.HandleAfterRun | staging/edrv/EdrvPacketCE.c:1129-1132 | the handle of a slot after any run of operations depends only on how often the slot was modified |
| HighResTimer.HandleNamesSlot | staging/edrv/EdrvPacketCE.c:1113-1132 | issued handles decode to their slot, are not zero and fit 32 bits |
| HighResTimer.SlotsNeverCollide | staging/edrv/EdrvPacketCE.c:1131-1132 | handles of different slots are different |
| HighResTimer.HandleReturnsExactlyWhen | staging/edrv/EdrvPacketCE.c:1129-1132 | a handle comes back if and only if the number of modifications in between is a multiple of 2^28 |
| HighResTimer.StaleDeleteExactlyWhen | staging/edrv/EdrvPacketCE.c:1203-1214 | deleting with an old handle changes a timer if and only if that number is a multiple of 2^28 |
| HighResTimer.ModifyExactly | staging/edrv/EdrvPacketCE.c:1080-1154 | with handle 0 the lowest slot without a callback is taken, or none exactly if all have one; otherwise the slot of the handle; it gets callback, argument, due time, event and next handle, the other slot is unchanged |
| HighResTimer.DeleteExactly | staging/edrv/EdrvPacketCE.c:1203-1216 | exactly the slot with this very handle loses its callback, and nothing else changes |
| HighResTimer.CreateAfterDelete | staging/edrv/EdrvPacketCE.c:1094-1145 | after a delete there is a slot for a new timer, and a new timer in the freed slot has another handle |
| HighResTimer.EplTimerHighResk.ModifyTimerNs | staging/edrv/EdrvPacketCE.c:1060-1163 | is the modify operation on the slot the handle names or the first free one, with its error answers; says which delay and which event `timeSetEvent` is given |
| HighResTimer.EplTimerHighResk.DeleteTimer | staging/edrv/EdrvPacketCE.c:1182-1231 | is the delete operation: which event is killed, what the caller's handle becomes, and the answer |

## Left out

- DualprocTable.LookupAgrees: memory is flat and sequentially consistent; caches, and the header that is written without a flush, are not modelled.
- FecPages.FecAllocBuffers: receive buffers larger than a page (`uiOrder > 0`) are not modelled; the driver never frees those. A failing allocation of the Tx buffers afterwards frees everything, which is PagesFreedOnce with the empty run.
- FecRxRing.FecEnet.FecEnetRx: the number of frames that arrive while one interrupt runs is finite but arbitrary; an endless stream would keep the interrupt running.
- FecRxRing.FecEnet.EdrvReleaseRxBuffer: the test of the stack top and the push are one step, which FecRelease justifies inside the array. What a release without a slot overwrites is not modelled either; the driver methods take releases to happen only while there is one.
- FecRxRing.FecEnet.RxHandler: whether a buffer will be kept is decided when the handler is entered, which lets it be released before the handler returns.
- FecTxRing.FecEnet.EdrvSendTxMsg: a caller that changes the handler of a queued buffer; buffer contents, DMA mapping and the statistics counters.
- Dm9003Tx.ExactlyOnceExactlyWhen: one sender at a time, as the copy to the controller between the two locked sections needs. Of what callers write into a buffer only the length matters to the driver after the copy and is modelled; a change while the copy is being made is not.
- Dm9003Tx.Edrv9003.TgtEthIsr: what other steps do meanwhile is taken not to crash the system; a null first entry is dereferenced by the code, and the proofs say when there is none.
- TxQueue.EdrvInstance.EdrvSendTxMsg: critical sections are single steps; what the network library answers is a parameter.
- TxQueue.EdrvInstance.EdrvAllocTxMsgBuffer: buffers shorter than a destination address, and allocating for a buffer structure that is in use.
- HighResTimer.EplTimerHighResk.ModifyTimerNs: what `timeSetEvent` answers is a parameter; the masks and shifts of the handle are written as remainders and multiples.
- Timer expiry: an event that was pending before a modification is not cancelled by the code and its callback receives the new handle, so nothing is claimed about late callbacks.
- Getopt.Parser.Getopt: messages to stderr; strings contain no NUL character and `optind` does not start behind the argument vector.
- Calls of getopt after the first -1: after "--" a further call would go on parsing the operands.
- DualprocBuffLock.BufferIsExclusiveExactlyWhen: the build with OPLK_OPTIMIZE set, as the header sets it; without it every buffer takes the lock.
- DualprocTable.DualProcDrv.AllocMemory: ID 15, which passes the check although the driver's table and the shared one end before it, so that the code writes behind them; likewise FindMemory and FreeMemory. Requests whose size plus header exceeds 32 bits.
- DualprocTable.Replay: what freeing a block twice does to the allocator.
- `dualprocshm_readData` and `dualprocshm_writeData`: their bound compares an offset with an address.
- `fec_restart` with frames in flight: it resets the cursors but neither `tx_full` nor the descriptors, so runs start from an idle ring.
- `EdrvAllocTxMsgBuffer` and `EdrvReleaseTxMsgBuffer` of the FEC driver: a search in a table of flags.
- The initial value of the DM9003 filter, which is taken as given, and the meaning of its bit for the broadcast address.
- Register access, PHY handling, probe and remove, interrupt registration, and all demo applications.
