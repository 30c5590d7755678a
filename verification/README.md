# Verified model of a serial port library

This project models the parts of the library that are hard to get right by
inspection, and proves what they keep over all inputs and all runs.

* **Threads around the native calls.** `SelectProtocol.dfy` is the handshake of
  `doSelect` and `wakeupSelect`; `CloseProtocol.dfy` is the handshake of `doRead`,
  `doWrite` and `doClose` on one context. Both are step relations over the shared
  memory and a program counter for each of any number of threads. Every step is
  one access to shared state and memory is sequentially consistent. The entry test of
  `wakeup` and the store of `selectPending` are separate steps, as in the code. Signals are
  pending, blocked and delivered thread by thread. `Paths.dfy` holds what both say about
  sequences of steps.
* **Scatter and gather.** `FillOrder.dfy` says what "each area is used fully before the
  next" means (POSIX.1-2017, System Interfaces, `readv` and `writev`) and that it
  determines one split of a byte count. `NativeVectored.dfy` has the native calls over
  buffer objects with direct or heap storage, which may be parts of one array (`Buffers.dfy`), `Channels.dfy` the Java
  loops over short single-buffer transfers, and `ScatterRefinement.dfy` relates the two.
* **Streams.** `OutputStream.dfy` and `InputStream.dfy` are the buffered streams, as
  classes that are proved against small states over whole byte histories; `Loopback.dfy`
  puts the two at the ends of one line.
* **Selecting.** `LinuxSelect.dfy` follows the keys into the address arrays, through the
  flags the native call leaves there, and back to the keys. `WinSelect.dfy` is the
  Windows native select with its index map, its event handles and all its exits.
* **Speed detection.** `SpeedSearch.dfy` is the matcher and the configuration search as
  values, and `Reception.dfy` says at which speed its bytes were received. `SpeedDetector.dfy`
  has the objects that do the search at one port, and `Configure.dfy` the loop that drives the
  searches of all ports from a selector.

What the system decides (how much a `readv` delivers, which descriptors are ready, what
`WaitCommEvent` answers, what a port sends) is a parameter or an arbitrary choice, limited
only by what the system promises.

## What the proofs found

* A wakeup that falls between the entry test of `doSelect` and its store of
  `selectPending` is lost: `SelectProtocol.LostWakeup` is the run. `NoLostWakeup` says at
  which runs none is lost, and `AtomicEntryLosesNothing` that none is lost if the two are
  one step.
* `doClose` takes a busy `readMutex` for an active read and signals `readThread`. That
  thread is in `readv` exactly if some thread is (`CloseProtocol.KillReachesReader`). Else the
  signal goes nowhere, or to a thread that read earlier: there may be only another
  `doClose` (`BusyWithoutReader`), or a `doRead` that has not stored its thread yet
  (`KillBeforeStore`, `KillOfFormerReader`). `TargetExactlyAfterStore` and
  `BusyIsReadExactly` say when `readThread` is set and when the mutex belongs to a read.
* `doSelect` leaves SIGUSR1 blocked in its thread. A thread that has selected, and later
  waits in `readv` on a silent port, cannot be interrupted, and `doClose` spins for as long
  as the port is silent: `CloseProtocol.DeafReader`. `CloseReturnsExactly` says that this is
  the only obstacle.
* SIGUSR1 can outlive the select it was meant for and interrupt the next one, which nobody
  woke: `SelectProtocol.StaleSignal`. `StaleSignalExactly` says when.
* `doWrite` leaves a heap buffer that had something to send, and sent nothing, at its
  limit: `NativeVectored.PositionExactlyWhen` says exactly when the position is right,
  and `UnsentSkipped` is such a buffer.
* `doRead` clears the part of a heap buffer that the read did not reach, because it puts
  the whole temporary array back, also after EAGAIN or EINTR: `NativeVectored.ScatterExact`,
  and `UnreadCleared` for a buffer of two bytes.
* The Windows select leaks the handle of the entry that notices a wakeup, leaks handles on
  its early failures, and closes handles twice when a later completion fails:
  `WinSelect.BalancedExactlyWhen`. `WakeupLeaks` and `SecondCompletionFails` are such calls.
* A bulk read of length zero on an exhausted buffer refills it and drops the mark:
  `InputStream.EmptyReadLosesMark`.
* With `maxCount` at the largest int the count of the matcher wraps around, and detection
  need not end: `SpeedSearch.DetectionEndsExactly` says exactly when it does.
* A speed can be reported at which nothing was received: a failure inside a read sets the next
  speed, and the rest of the read, received at the old one, is matched for it. An example is
  `Reception.ReportedUnheard`; `Reception.ReceivedAsReported` and `Configuring.ReportIsHeard`
  say exactly when the justifying bytes were received at the reported speed.
* At the end of the input `read()` returns -1 but `read(byte[], int, int)` returns 0:
  `InputStream.EndOfInput` says when, and `NothingToRead` is an input.
* A bulk write through a stream of capacity 0 does not end, except for the arguments that
  `OutputStream.BulkEndsExactly` names.

## Model

| member | source | states |
|---|---|---|
| SelectProtocol.StepKeepsInv | linux/SerialChannel.c:134-271 | every step of every thread keeps: one select at a time, selectPending and selectThread say where that select is, selectMutex has the owner its holders think it has, a kill has a target |
| SelectProtocol.RunKeepsInv | linux/SerialChannel.c:134-271 | the invariant holds in every reachable state |
| SelectProtocol.SignalWindow | linux/SerialChannel.c:182-246 | in every reachable state a non-zero selectThread is a thread between its registration and its deregistration, and selectPending is 1 |
| SelectProtocol.KillHitsSelector | linux/SerialChannel.c:260-268 | every pthread_kill adds one pending signal, to the thread that is in pselect or on its way from there to the mutex the killer holds |
| SelectProtocol.StepKeepsAttended | linux/SerialChannel.c:151-271 | every step but the store of selectPending keeps: while a wakeup is set and a select has not left pselect, some waker is in its signalling loop |
| SelectProtocol.StoreDecides | linux/SerialChannel.c:151-157 | the store of selectPending leaves wakeups attended if and only if wakeup is 0 or a waker is in its loop at that moment |
| SelectProtocol.NoLostWakeup | linux/SerialChannel.c:151-271 | over every run: wakeups are attended in all states if and only if that condition holds at each store of selectPending |
| SelectProtocol.AtomicEntryLosesNothing | linux/SerialChannel.c:151-157 | if every store directly follows its own entry test, no reachable state has an unattended wakeup |
| SelectProtocol.LostExactly | linux/SerialChannel.c:151-271 | at a store of selectPending a wakeup is lost if and only if a waker stored it between the entry test of this call and the store, and no waker is left in its loop |
| SelectProtocol.LostWakeup | linux/SerialChannel.c:151-157 | a concrete run in which a select blocks in pselect with wakeup set and no waker left |
| SelectProtocol.LostForGood | linux/SerialChannel.c:151-271 | from the end of that run no continuation without a new call interrupts the select |
| SelectProtocol.SelectEnters | linux/SerialChannel.c:157-213 | a select past its entry test can be brought into pselect although wakers compete for the mutex, and no waker loses its chance to signal it |
| SelectProtocol.SignalArrives | linux/SerialChannel.c:256-270 | a waker with the mutex, or with nobody to wait for, can make SIGUSR1 pending for the thread in pselect, while the wakeup is set or once it is past its test |
| SelectProtocol.SelectReturns | linux/SerialChannel.c:244-249 | a select that has left pselect can go on to return what it has, whoever owns the mutex |
| SelectProtocol.CountUsesWakeup | linux/SerialChannel.c:244-248 | over every path: a select that returns a count uses the wakeup up; it is set when the select returns only if a waker stored it after pselect had returned |
| SelectProtocol.FailureKeepsWakeup | linux/SerialChannel.c:216-223 | over every run: while a failing select returns, wakeup is set if and only if it was set before or a waker has stored it since |
| SelectProtocol.AnyAnswer | linux/SerialChannel.c:213-249 | a select in pselect can return every count, and the failure |
| SelectProtocol.SetupFails | linux/SerialChannel.c:165-180 | a select whose preparation fails can return the failure, with selectPending cleared and wakeup as it was |
| SelectProtocol.EveryCallCanReturn | linux/SerialChannel.c:134-271 | freedom from deadlock: every reachable state, with any number of wakers, can be continued until all calls have returned |
| SelectProtocol.AttendedWakeupDelivers | linux/SerialChannel.c:182-271 | from every reachable state with an attended wakeup, or a pending SIGUSR1, the calls in progress can go on without a new call or wakeup until SIGUSR1 interrupts that very select, and on until it returns 0 |
| SelectProtocol.WakeupReachesExactly | linux/SerialChannel.c:151-271 | with a wakeup set and a select that has not left pselect, such a continuation exists if and only if the wakeup is attended or SIGUSR1 is already pending |
| SelectProtocol.StaleSignalExactly | linux/SerialChannel.c:182-271 | with wakeup 0 and a select that has not left pselect: it can be interrupted without a new wakeup if and only if SIGUSR1 is already pending or a waker is on its way from its test of wakeup to its kill |
| SelectProtocol.AimedInGap | linux/SerialChannel.c:257-261 | just after the entry test of a select, such a waker is one between its test of wakeup and its lock |
| SelectProtocol.StaleSignal | linux/SerialChannel.c:244-271 | a concrete run that leaves SIGUSR1 pending after both calls have returned, and the next select interrupted by it |
| SelectProtocol.StepKeepsStored | linux/SerialChannel.c:151-156 | a wakeup stored with no select pending is undone by one step only, that of a doSelect returning 0 from its entry test |
| SelectProtocol.StoredWakeupWaits | linux/SerialChannel.c:151-156 | along any path a stored wakeup stays until a doSelect consumes it and returns 0 without having blocked |
| CloseProtocol.StepKeepsInv | linux/SerialChannel.c:519-744 | every step keeps: both mutexes have the owner their holders think they have, and readThread names the thread in readv |
| CloseProtocol.RunKeepsInv | linux/SerialChannel.c:519-744 | the invariant holds in every reachable state, for any number of threads |
| CloseProtocol.CloseExclusion | linux/SerialChannel.c:519-561 | close never runs beside a readv, a writev or another close; at most one readv and one writev run at once |
| CloseProtocol.KillReachesReader | linux/SerialChannel.c:529-540 | in every reachable state readThread names a thread in readv if and only if some thread is in readv |
| CloseProtocol.TargetExactlyAfterStore | linux/SerialChannel.c:609-611 | readThread is still 0 if and only if no earlier step of the run stored it |
| CloseProtocol.BusyIsReadExactly | linux/SerialChannel.c:529-557 | a busy readMutex belongs to a doRead if and only if no doClose is between its trylock and its unlock |
| CloseProtocol.NoCycle | linux/SerialChannel.c:519-561 | in no reachable state do threads wait for each other in a cycle, and no chain of waits has more than two links |
| CloseProtocol.EveryCallCanFinish | linux/SerialChannel.c:519-744 | with data for the reads, every reachable state can be continued until all calls have returned |
| CloseProtocol.CloseCanFail | linux/SerialChannel.c:545-550 | a close that fails unlocks both mutexes, changes nothing else and can return |
| CloseProtocol.NeverReturns | linux/SerialChannel.c:175-176 | while a thread that blocks SIGUSR1 reads an open, silent port, it stays in its readv and a waiting close in its loop |
| CloseProtocol.CloseReturns | linux/SerialChannel.c:527-560 | without such a thread a close on a silent port can be brought to its return, with no new call, by its own signal if a readv is in its way, whatever signals went astray before; the descriptor is then closed |
| CloseProtocol.CloseReturnsExactly | linux/SerialChannel.c:519-560 | over all runs: on a silent port a close can return if and only if no thread that blocks SIGUSR1 is in, or on its way into, a readv of the open port |
| CloseProtocol.DeafReader | linux/SerialChannel.c:175-176 | a concrete run with one select, one read and one close after which the close cannot return while the port is silent |
| CloseProtocol.BusyWithoutReader | linux/SerialChannel.c:529-540 | a concrete run of two closes in which one is about to signal readThread although no read was ever made |
| CloseProtocol.KillBeforeStore | linux/SerialChannel.c:609-610 | a concrete run of one read and one close in which the close is about to signal before the read has stored its thread |
| CloseProtocol.KillOfFormerReader | linux/SerialChannel.c:609-610 | a concrete run in which the signal goes to a thread that has finished its read, while another holds readMutex |
| FillOrder.InOrderExactlySplit | linux/SerialChannel.c:629-642 | for a total that fits: using areas in order with that total is the same as the split of that total |
| FillOrder.LoopIsSplit | linux/SerialChannel.c:629-642 | the residual loop, which sees one area at a time, gives each area its part of the split |
| FillOrder.SplitShape | linux/SerialChannel.c:629-642 | a split has full areas, one partly used, then untouched ones |
| FillOrder.InOrderIsPrefix | linux/SerialChannel.c:719-742 | parts of areas used in order concatenate to a prefix of the concatenated areas |
| FillOrder.SameBytesSamePlaces | linux/SerialChannel.c:629-650 | the same bytes, distributed in order over the same lengths, land in the same places |
| NativeVectored.Readv | linux/SerialChannel.c:605-611 | rc bytes land in the areas that were described, in the buffer itself or in the array beside it, and nowhere else |
| NativeVectored.AdvanceAllAfterRead | linux/SerialChannel.c:629-650 | the last loop of doRead puts temporary arrays back and advances every buffer by its part of the split |
| NativeVectored.DoRead | linux/SerialChannel.c:568-652 | the returned count is the total delivered (0 for EAGAIN and EINTR) and each buffer holds its area at its old position; another error changes nothing |
| NativeVectored.BothHalves | linux/SerialChannel.c:592-604 | what readv wrote and what is put back together amount to one transfer into the buffer, direct or heap |
| NativeVectored.ScatterExact | linux/SerialChannel.c:585-651 | advances are the split of rc, sum to rc and stay within the limits; the regions passed over concatenate to exactly the bytes delivered; outside them a direct buffer is unchanged and the rest of a heap buffer's window is cleared |
| NativeVectored.SendAreas | linux/SerialChannel.c:674-698 | the areas are the remainders of the buffers, and what the last loop has to do to each of them is known |
| NativeVectored.AdvanceAllAfterWrite | linux/SerialChannel.c:719-742 | the last loop of doWrite advances every buffer that gave something by its part of the split and touches no other |
| NativeVectored.DoWrite | linux/SerialChannel.c:654-744 | count, bytes sent and buffer states for every outcome of writev, EAGAIN as 0 and any other error as an exception |
| NativeVectored.GatherPrefix | linux/SerialChannel.c:674-743 | the bytes sent are the first rc bytes of the remainders end to end, and each buffer gives its part of the split of rc |
| NativeVectored.PositionExactlyWhen | linux/SerialChannel.c:680-741 | the position moves by what the buffer gave if and only if the buffer is direct, gave something or had nothing; else it is left at the limit |
| NativeVectored.UnsentSkipped | linux/SerialChannel.c:680-741 | a concrete heap buffer of two unsent bytes that is left at its limit |
| NativeVectored.UnreadCleared | linux/SerialChannel.c:643-647 | a concrete heap buffer that loses the byte behind the one it received, where a direct one keeps it |
| Channels.SerialChannel.WriteAll | comm/src/main/java/org/vesalainen/comm/channel/SerialChannel.java:446-470 | for any short writes: the buffers with something to write are tried in turn, until one write is short or none is left; buffers are used in order, the result is the sum of the advances, the bytes sent are what they gave |
| Channels.SerialChannel.ReadAll | comm/src/main/java/org/vesalainen/comm/channel/SerialChannel.java:479-515 | for any short reads: the buffers with room are tried in turn, until one read is short or none is left; they are filled in order with exactly the bytes taken; the result is -1 if and only if the only read of the call answered -1, and otherwise the number of bytes |
| Channels.RoomyIsAll | comm/src/main/java/org/vesalainen/comm/channel/SerialChannel.java:446-515 | the buffers that are tried are those with room, and together they have all the room there is |
| Channels.GatherShape | comm/src/main/java/org/vesalainen/comm/channel/SerialChannel.java:446-470 | the write loop sends a prefix of the remainders, drains every buffer before some index and leaves every later one untouched |
| ScatterRefinement.SameTotalSameAdvances | comm/src/main/java/org/vesalainen/comm/channel/SerialChannel.java:479-515 | the Java loop and the native loop advance the buffers alike for the same total |
| ScatterRefinement.LoopRefinesNative | comm/src/main/java/org/vesalainen/comm/channel/SerialChannel.java:479-515 | for the same bytes in any short reads both leave the same buffers, but for what a heap buffer holds behind its position |
| OutputStream.SerialOutputStream.FlushBuffer | comm/src/main/java/org/vesalainen/comm/channel/SerialOutputStream.java:55-63 | all pending bytes are sent in order and none stay, for any writes that make progress now and then |
| OutputStream.SerialOutputStream.Flush | comm/src/main/java/org/vesalainen/comm/channel/SerialOutputStream.java:40-43 | everything pending is sent |
| OutputStream.SerialOutputStream.WriteByte | comm/src/main/java/org/vesalainen/comm/channel/SerialOutputStream.java:46-53 | one byte is put, after a flush if the buffer is full |
| OutputStream.SerialOutputStream.WriteSome | comm/src/main/java/org/vesalainen/comm/channel/SerialOutputStream.java:70-77 | one round of the loop: as much as fits, after a flush if the buffer is full, or IndexOutOfBoundsException |
| OutputStream.SerialOutputStream.WriteBulk | comm/src/main/java/org/vesalainen/comm/channel/SerialOutputStream.java:66-79 | wherever the loop ends: it fails if and only if there is something to write that the array does not hold, and otherwise leaves the same sent bytes and the same buffer as len single-byte writes |
| OutputStream.BulkIsBytes | comm/src/main/java/org/vesalainen/comm/channel/SerialOutputStream.java:66-79 | also after a failure: what was written is a part of the array from off on, all but a rest that would have fitted, or nothing for an offset outside the array |
| OutputStream.BulkEndsExactly | comm/src/main/java/org/vesalainen/comm/channel/SerialOutputStream.java:66-79 | the loop ends if and only if the capacity is positive, len is not, or off is outside the array |
| OutputStream.RunIsPutBytes | comm/src/main/java/org/vesalainen/comm/channel/SerialOutputStream.java:45-79 | without a flush a run depends on its bytes and not on their split into calls |
| OutputStream.Conservation | comm/src/main/java/org/vesalainen/comm/channel/SerialOutputStream.java:39-79 | over any run: bytes sent, then bytes pending, are all bytes accepted in order; pending fits the buffer and is empty after a flush |
| OutputStream.SentExactly | comm/src/main/java/org/vesalainen/comm/channel/SerialOutputStream.java:45-79 | after n > 0 bytes since a flush, in any mixture of calls, exactly floor((n - 1) / capacity) * capacity of them are sent |
| InputStream.SerialInputStream.Read | comm/src/main/java/org/vesalainen/comm/channel/SerialInputStream.java:43-66 | returns the next unread byte unsigned; reads the channel if and only if nothing is unread, once and into the whole buffer; -1 if and only if that read brings nothing |
| InputStream.SerialInputStream.ReadBulk | comm/src/main/java/org/vesalainen/comm/channel/SerialInputStream.java:91-102 | stores the next bytes, at most len, at off and leaves the rest of the array alone; reads the channel if and only if nothing is unread, once and into the whole buffer; fails if and only if the bytes do not fit there or len is negative, after that read |
| InputStream.TookIsRead | comm/src/main/java/org/vesalainen/comm/channel/SerialInputStream.java:91-102 | a bulk read that fits stores and returns just what the reads of the runs below do |
| InputStream.ReadExactly | comm/src/main/java/org/vesalainen/comm/channel/SerialInputStream.java:42-102 | a read returns the first len of the unread bytes, or all if there are fewer, and leaves the others unread; with bytes unread it changes nothing but the position |
| InputStream.EndOfInput | comm/src/main/java/org/vesalainen/comm/channel/SerialInputStream.java:42-102 | read() returns -1 if and only if nothing is unread and the channel has nothing; a bulk read returns 0 if and only if that is so or len is 0 |
| InputStream.NothingToRead | comm/src/main/java/org/vesalainen/comm/channel/SerialInputStream.java:91-102 | a concrete input for which read() returns -1 and a bulk read of four bytes returns 0 |
| InputStream.SerialInputStream.Available | comm/src/main/java/org/vesalainen/comm/channel/SerialInputStream.java:69-72 | the number of unread bytes in the buffer |
| InputStream.SerialInputStream.Mark | comm/src/main/java/org/vesalainen/comm/channel/SerialInputStream.java:75-82 | marks the next byte, or fails if fewer bytes are buffered than the read limit |
| InputStream.SerialInputStream.Reset | comm/src/main/java/org/vesalainen/comm/channel/SerialInputStream.java:105-108 | goes back to the mark, or fails without one |
| InputStream.RunMovesOn | comm/src/main/java/org/vesalainen/comm/channel/SerialInputStream.java:42-102 | without reset, the bytes returned are those of the channel that the cursor passed |
| InputStream.Fifo | comm/src/main/java/org/vesalainen/comm/channel/SerialInputStream.java:42-102 | without reset, for any chunks: bytes returned, then bytes unread, are the bytes unread before and then all bytes taken from the channel |
| InputStream.MarkSurvivesExactly | comm/src/main/java/org/vesalainen/comm/channel/SerialInputStream.java:42-108 | a mark survives reads if and only if each found the buffer non-empty |
| InputStream.Rewind | comm/src/main/java/org/vesalainen/comm/channel/SerialInputStream.java:75-108 | reset brings back the marked state, with the bytes read since as the next ones, if and only if each read found the buffer non-empty |
| InputStream.MarkKeepsItsPromise | comm/src/main/java/org/vesalainen/comm/channel/SerialInputStream.java:75-88 | reads of at least one byte within the accepted read limit can always be undone |
| InputStream.EmptyReadLosesMark | comm/src/main/java/org/vesalainen/comm/channel/SerialInputStream.java:91-102 | a concrete run in which a read of no bytes loses the mark |
| Loopback.WhatIsWrittenIsRead | comm/src/main/java/org/vesalainen/comm/channel/SerialInputStream.java:42-102 | over a line that delivers a prefix of what was sent, bytes returned and buffered are a prefix of all bytes written, and all of them after a flush once the line has delivered everything |
| Basics.ByteRoundTrip | comm/src/main/java/org/vesalainen/comm/channel/SerialInputStream.java:60-60 | a byte written as int comes back as its low eight bits, and every byte comes back |
| Basics.Arithmetic | comm/src/main/java/org/vesalainen/comm/channel/SpeedDetector.java:253-281 | increments are exact modulo 2^32; narrowing and unsigned widening are exact modulo 256 |
| LinuxSelect.FillSet | linux/SerialChannel.c:191-204 | the descriptor set holds the descriptors of the addresses, none above nfds |
| LinuxSelect.StoreFlags | linux/SerialChannel.c:233-242 | the addresses are overwritten, in place, by the flags of their descriptors; the rest of the array stays |
| LinuxSelect.NativeSelect | linux/SerialChannel.c:191-243 | the arrays of addresses become the flags of their own descriptors, the rest of the arrays is unchanged, rc counts the ready descriptors; nothing is changed without a selection |
| LinuxSelect.StoreAddresses | comm/src/main/java/org/vesalainen/comm/channel/LinuxSerialChannel.java:233-249 | the first walk stores the addresses of the interested keys in order, and fails if and only if they do not fit |
| LinuxSelect.InterestedCount | comm/src/main/java/org/vesalainen/comm/channel/LinuxSerialChannel.java:233-249 | as many addresses are stored as there are interested keys |
| LinuxSelect.IndexLinesUp | comm/src/main/java/org/vesalainen/comm/channel/LinuxSerialChannel.java:241-274 | where the second walk looks for a key's flag is where the first walk stored its address |
| LinuxSelect.UpdateKey | comm/src/main/java/org/vesalainen/comm/channel/LinuxSerialChannel.java:275-292 | a ready key becomes selected with just these operations, and counts if that changed it; no other key changes |
| LinuxSelect.UpdateKeys | comm/src/main/java/org/vesalainen/comm/channel/LinuxSerialChannel.java:255-293 | the second walk gives every key its interest intersected with the readiness of its own channel, and counts the keys it changed |
| LinuxSelect.NothingReady | comm/src/main/java/org/vesalainen/comm/channel/LinuxSerialChannel.java:253-253 | when rc is 0 no key is ready, so that skipping the second walk is harmless |
| LinuxSelect.DoSelect | comm/src/main/java/org/vesalainen/comm/channel/LinuxSerialChannel.java:231-296 | result, key states and selected set for every outcome; the result is the number of changed keys |
| LinuxSelect.CountsChanges | comm/src/main/java/org/vesalainen/comm/channel/LinuxSerialChannel.java:253-295 | the count is that of keys newly selected or given other ready operations; keys not ready are untouched |
| LinuxSelect.Idempotent | comm/src/main/java/org/vesalainen/comm/channel/LinuxSerialChannel.java:253-295 | repeating a select with the same readiness and nothing cleared changes nothing and counts 0 |
| LinuxSelect.ReadyExactly | comm/src/main/java/org/vesalainen/comm/channel/LinuxSerialChannel.java:257-274 | a key is ready to read if and only if it wants to and its own descriptor is readable, likewise to write, and to nothing else |
| WinSelect.Partition | win/SerialChannel/SerialChannel/SerialChannel.cpp:447-490 | entries signalled at once and entries waited for partition all entries, and index[] is strictly increasing |
| WinSelect.StartWaits | win/SerialChannel/SerialChannel/SerialChannel.cpp:447-490 | contexts zeroed, index map, count, handles created and closed, and the way it ends, after the first loop or at its early exit |
| WinSelect.FinishWaits | win/SerialChannel/SerialChannel/SerialChannel.cpp:515-548 | contexts zeroed, count and handles closed after the last loop or at its failing completion |
| WinSelect.Events.CloseAll | win/SerialChannel/SerialChannel/SerialChannel.cpp:473-476 | every handle that was waited for is closed, in order |
| WinSelect.WaitAndFinish | win/SerialChannel/SerialChannel/SerialChannel.cpp:491-552 | end, contexts and handle log of the wait and what follows it; it waits if and only if some entry is pending |
| WinSelect.DoSelect | win/SerialChannel/SerialChannel/SerialChannel.cpp:423-553 | end, contexts and handle log of the whole call for every answer of the system; it waits if and only if the entries fit, all start and some is pending, and then not at all if an entry was ready at once, else for the timeout given |
| WinSelect.EndExactly | win/SerialChannel/SerialChannel/SerialChannel.cpp:428-552 | in terms of the entries and the wait alone: when the call returns a count (at most 64 entries, all start, and none is pending, or the wait timed out, or it was signalled and every pending entry finishes), when it reports a wakeup (the first entry that does not start says so), and so when it throws |
| WinSelect.ZeroedExactly | win/SerialChannel/SerialChannel/SerialChannel.cpp:484-548 | for every way the call can end, which contexts are zeroed, in terms of the entries and the wait alone |
| WinSelect.HandlesExactly | win/SerialChannel/SerialChannel/SerialChannel.cpp:447-552 | for every way the call can end: which event handles were created, and how often each was closed: 0, 1 or 2 times |
| WinSelect.ZeroedAreReady | win/SerialChannel/SerialChannel/SerialChannel.cpp:484-548 | on a final return the contexts zeroed are those signalled at once or done after the wait |
| WinSelect.ReturnIsExact | win/SerialChannel/SerialChannel/SerialChannel.cpp:447-552 | on every final return the count is the number of contexts zeroed and every event handle created was closed exactly once |
| WinSelect.BalancedExactlyWhen | win/SerialChannel/SerialChannel/SerialChannel.cpp:447-552 | for every way a call can end: handles created and closed balance if and only if the stated condition on its first stop or its first failing completion holds |
| WinSelect.WakeupLeaks | win/SerialChannel/SerialChannel/SerialChannel.cpp:455-478 | a concrete call whose one event handle is never closed |
| WinSelect.SecondCompletionFails | win/SerialChannel/SerialChannel/SerialChannel.cpp:515-530 | a concrete call that closes its first handle twice |
| SpeedSearch.CountersAreSuffixes | comm/src/main/java/org/vesalainen/comm/channel/SpeedDetector.java:253-288 | for at most maxCount + 1 bytes: corrects and errors are the lengths of the longest good and bad suffixes, and one of them is 0 |
| SpeedSearch.CountStops | comm/src/main/java/org/vesalainen/comm/channel/SpeedDetector.java:255-259 | the count is the number of bytes up to maxCount + 1 and stays there |
| SpeedSearch.VerdictExactly | comm/src/main/java/org/vesalainen/comm/channel/SpeedDetector.java:253-281 | success and failure at a byte, both exactly, in terms of the last testLength + 1 bytes and the number of bytes |
| SpeedSearch.FirstSuccessExactly | comm/src/main/java/org/vesalainen/comm/channel/SpeedDetector.java:253-288 | the first verdict is a success if and only if a good run exceeds testLength within the maximum count before any run of either kind did |
| SpeedSearch.VerdictOfSearch | comm/src/main/java/org/vesalainen/comm/channel/SpeedDetector.java:222-238 | a search fails exactly when its configurations are used up |
| SpeedSearch.NextExactly | comm/src/main/java/org/vesalainen/comm/channel/SpeedDetector.java:184-238 | a timeout or a failed match goes to the next configuration with fresh counters, or fails if there is none; anything else keeps the configuration |
| SpeedSearch.NoneSkipped | comm/src/main/java/org/vesalainen/comm/channel/SpeedDetector.java:222-238 | no configuration is skipped: over any bytes and timeouts, every configuration up to the current one was current, with fresh counters, after some prefix |
| SpeedSearch.TimeoutsTryAll | comm/src/main/java/org/vesalainen/comm/channel/SpeedDetector.java:126-145 | n timeouts alone lead to configuration n, and to failure only when all have been tried |
| SpeedSearch.CurrentConfiguration | comm/src/main/java/org/vesalainen/comm/channel/SpeedDetector.java:184-238 | in every search without a verdict all bytes since its configuration became current were counted by a matcher that was fresh then |
| SpeedSearch.SuccessIsJustified | comm/src/main/java/org/vesalainen/comm/channel/SpeedDetector.java:184-238 | over any bytes and timeouts: after a success confNo is valid, and the last testLength + 1 bytes were good and matched since that configuration became current |
| SpeedSearch.ByteDescends | comm/src/main/java/org/vesalainen/comm/channel/SpeedDetector.java:184-238 | every byte without a verdict lowers the pair of configurations left and counts left |
| SpeedSearch.CallsAreBounded | comm/src/main/java/org/vesalainen/comm/channel/SpeedDetector.java:184-281 | over any bytes and timeouts one port makes at most configurations * (Limit() + 1) match calls, where Limit() + 1 is maxCount + 2, or less if maxCount is negative, testLength not positive or maxCount the largest int |
| SpeedSearch.BoundIsReached | comm/src/main/java/org/vesalainen/comm/channel/SpeedDetector.java:184-281 | with a good and a bad byte, testLength positive, maxCount not negative and not the largest int, the bound is tight: some bytes take exactly that many calls to fail |
| SpeedSearch.DetectionEndsExactly | comm/src/main/java/org/vesalainen/comm/channel/SpeedDetector.java:241-281 | with 32-bit counters: some number of bytes always brings a verdict if and only if maxCount is not the largest int, or testLength is not positive, or the ranges hold all bytes or none and testLength is not the largest int |
| Reception.ReadReceived | comm/src/main/java/org/vesalainen/comm/channel/SpeedDetector.java:187-208 | all bytes of a read are received at the speed the port had at its beginning |
| Reception.CurrentFrom | comm/src/main/java/org/vesalainen/comm/channel/SpeedDetector.java:222-238 | a configuration is current from one event on, and was not before |
| Reception.ReceivedAsReported | comm/src/main/java/org/vesalainen/comm/channel/SpeedDetector.java:191-206 | the bytes that justify a success were all received with the reported configuration if and only if the read of the first of them began after it was set |
| Reception.ReportedUnheard | comm/src/main/java/org/vesalainen/comm/channel/SpeedDetector.java:191-206 | a concrete read of four bytes, all received at 300, after which 600 is reported |
| SpeedDetection.InRange | comm/src/main/java/org/vesalainen/comm/channel/SpeedDetector.java:311-321 | true if and only if some range holds the byte |
| SpeedDetection.Matcher.Match | comm/src/main/java/org/vesalainen/comm/channel/SpeedDetector.java:253-281 | counters and answer are those of the specification above, with int overflow |
| SpeedDetection.Matcher.Reset | comm/src/main/java/org/vesalainen/comm/channel/SpeedDetector.java:283-288 | all counters are 0 |
| SpeedDetection.Ctx.NextConfiguration | comm/src/main/java/org/vesalainen/comm/channel/SpeedDetector.java:222-238 | moves to the next configuration with the channel set to it and a fresh matcher, or reports that there is none and leaves both alone |
| SpeedDetection.Ctx.TimeOut | comm/src/main/java/org/vesalainen/comm/channel/SpeedDetector.java:135-143 | a timeout moves the search to its next configuration, with the channel set to it, or fails it if there is none (SpeedSearch.NextExactly) |
| SpeedDetection.Ctx.MatchChunk | comm/src/main/java/org/vesalainen/comm/channel/SpeedDetector.java:191-206 | the search after one read is the specified one over its bytes, and without a verdict it got further |
| SpeedDetection.Ctx.TryMatch | comm/src/main/java/org/vesalainen/comm/channel/SpeedDetector.java:184-211 | reads up to 1000 bytes at a time until a read brings the verdict or delivers nothing; it ends whatever the channel delivers if detection can end, and otherwise once a read brings nothing; verdict and search depend on the bytes taken alone, not on their split into reads; without failure the channel runs at the current speed; the speed at which each byte was taken is on record |
| Configuring.SpeedDetector.AddByte | comm/src/main/java/org/vesalainen/comm/channel/SpeedDetector.java:60-63 | the good bytes are those of before and this one |
| Configuring.SpeedDetector.AddRange | comm/src/main/java/org/vesalainen/comm/channel/SpeedDetector.java:64-67 | the good bytes are those of before and those from start to end |
| Configuring.SpeedDetector.AddSpeeds | comm/src/main/java/org/vesalainen/comm/channel/SpeedDetector.java:76-82 | all speeds are added in order behind those of before |
| Configuring.SpeedDetector.RegisterAll | comm/src/main/java/org/vesalainen/comm/channel/SpeedDetector.java:95-102 | every port gets a channel at the first speed, and a registered key whose search has not begun |
| Configuring.Selector.Select | comm/src/main/java/org/vesalainen/comm/channel/SerialSelector.java:94-128 | cancelled keys are gone, the selected set grows by some remaining keys, and the count is how many |
| Configuring.MatchKey | comm/src/main/java/org/vesalainen/comm/channel/SpeedDetector.java:113-122 | a success is entered in the map at its port and cancels the key, a failure cancels it, and only a key without a verdict is ever matched |
| Configuring.MatchSelected | comm/src/main/java/org/vesalainen/comm/channel/SpeedDetector.java:108-124 | the selected set is emptied; each of its keys is tried exactly once and no other is; only their searches change, and only forward; the result map stays right |
| Configuring.TimeOutAll | comm/src/main/java/org/vesalainen/comm/channel/SpeedDetector.java:135-143 | every registered search, and no other, goes to its next configuration or fails and is cancelled |
| Configuring.HandleTimeout | comm/src/main/java/org/vesalainen/comm/channel/SpeedDetector.java:126-145 | every search without a verdict has gone through at least as many configurations as selects timed out, so there are at most as many such timeouts as configurations |
| Configuring.Round | comm/src/main/java/org/vesalainen/comm/channel/SpeedDetector.java:103-146 | one round tries each key that the select found, exactly once; or, if it found none, times out all that are registered; or, if none are, it is the last; the result map and the registration stay right |
| Configuring.SpeedDetector.Configure | comm/src/main/java/org/vesalainen/comm/channel/SpeedDetector.java:83-149 | fails exactly without configurations or ranges; otherwise the map holds the ports that succeeded at speeds their searches found, and rounds are made until a select finds nothing and no key is left, every port then having its verdict, or until the time is up |
| Configuring.MatchesAreBounded | comm/src/main/java/org/vesalainen/comm/channel/SpeedDetector.java:184-281 | the matcher of a port is called at most configurations * (Limit() + 1) times, whatever its channel delivers |
| Configuring.MapIsExact | comm/src/main/java/org/vesalainen/comm/channel/SpeedDetector.java:113-118 | for distinct ports: a port is in the map if and only if its search succeeded, at the speed of its current configuration |
| Configuring.ReportIsJustified | comm/src/main/java/org/vesalainen/comm/channel/SpeedDetector.java:83-149 | every reported speed is that of the channel and of a search whose last testLength + 1 bytes were good, all matched since that speed was set, out of the bytes the channel delivered |
| Configuring.ReportIsHeard | comm/src/main/java/org/vesalainen/comm/channel/SpeedDetector.java:184-211 | for the port of a reported speed: its justifying bytes were all read by the channel at that speed if the read of the first of them began after the speed was set, and only then if no speed is tried twice |

## Left out

- SpeedDetection.Ctx.TryMatch: a channel that delivers something at every read is excluded for the settings with which detection need not end (SpeedSearch.DetectionEndsExactly), because the loop then need not end either.
- Configuring.SpeedDetector.Configure: excludes the same endless lines; time is a number of rounds; opening a port that fails, exceptions of a read or a configuration change, closing the channels and the printing of progress are not modelled; cancelled keys leave the selector at the next select.
- Channels.SerialChannel.WriteAll: one thread, as under writeLock, and no buffer twice; a single-buffer write never fails, and after finitely many empty writes one makes progress.
- Channels.SerialChannel.ReadAll: one thread, as under readLock, and buffers that do not overlap in memory; a single-buffer read never fails.
- NativeVectored.DoRead: at most 16 buffers, a limit that no code checks before it fills arrays of that size (linux/SerialChannel.c:571-585), and buffers that do not overlap in memory; failures of the Java native interface, the copy of a temporary array made by the virtual machine, and what a failed readv may have written are not modelled.
- NativeVectored.DoWrite: at most 16 buffers, as for DoRead, and no buffer twice; the static byte counter for debugging is left out.
- OutputStream.SerialOutputStream.WriteBulk: excludes the calls whose loop does not end (OutputStream.BulkEndsExactly); flushes that fail are not covered.
- InputStream.SerialInputStream.ReadBulk: a channel that throws, and the use of a stream after its close, are not covered.
- LinuxSelect.DoSelect: the conversion of the timeout is left out; order and interest of the keys stay fixed during the call, descriptors are below FD_SETSIZE, and the arrays are those of the caller because only one select is in progress at a time.
- WinSelect.DoSelect: what the system calls answer is given for each entry beforehand; wakeups are the answer ERROR_INVALID_PARAMETER.
- SelectProtocol.NoLostWakeup: about safety under sequentially consistent memory and one select at a time; fairness is not assumed, so delivery is stated as possible from every attended state. The saved signal mask, which is shadowed by an uninitialised local at linux/SerialChannel.c:148, is modelled as one that unblocks SIGUSR1, and the missing return value at linux/SerialChannel.c:155 as 0. Failures of pthread calls and of GetDirectBufferAddress inside the window are left out.
- CloseProtocol.CloseExclusion: reads, writes and closes on one context; freeing the context and reuse of a descriptor number are left out.
- CloseProtocol.CloseReturns: a signal to readThread 0 is undefined by POSIX and modelled as none; a writev always ends by itself, as doClose does not interrupt it; the signals of wakeupSelect are those that a selecting thread takes in its own pselect.
- Opening, enumerating and configuring ports, port monitors, and the Windows reads and writes: device access and case tables.
- The Windows select in Java (comm/src/main/java/org/vesalainen/comm/channel/WinSerialChannel.java:241-292): its second walk skips the test of interestOps, so its indices line up only when every key wants to read.
- SerialSelector is modelled only as the environment of the speed detector.
