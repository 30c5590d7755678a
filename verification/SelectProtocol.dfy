/**
 The protocol between doSelect and wakeupSelect in linux/SerialChannel.c.

 Any number of threads run the two calls, any number of times; each step is one access to
 the shared state (wakeup, selectPending, selectThread, selectMutex, the pending SIGUSR1 of
 a thread), and memory is sequentially consistent.  At most one doSelect is in progress at a
 time, because its Java caller works on static buffers.  The entry test of wakeup and the
 store of selectPending are separate steps, as they are in the code.
 */
module SelectProtocol {
  import opened Basics
  import opened Paths

  type Tid = nat

  datatype SelectResult = Count(rc: nat) | Failure

  datatype Pc =
    | Idle
    | Finished(result: SelectResult)      // doSelect has returned
    // doSelect
    | TestStored                          // the entry test of wakeup
    | ClearStored                         // a stored wakeup is consumed
    | StorePending                        // about to set selectPending
    | Prepare                             // handler and mask of SIGUSR1
    | LockToRegister
    | Register                            // about to set selectThread
    | UnlockRegistered
    | InPselect
    | LockToDeregister(out: SelectResult)
    | Deregister(out: SelectResult)       // about to clear selectThread
    | UnlockDeregistered(out: SelectResult)
    | ClearWakeup(out: SelectResult)      // about to clear wakeup
    | ClearPending(out: SelectResult)     // about to clear selectPending
    // wakeupSelect
    | StoreWakeup                         // about to set wakeup
    | TestWakeup                          // the loop condition, first half
    | TestPending                         // and second half
    | LockToSignal
    | TestTarget                          // is a thread registered
    | Kill                                // about to signal it
    | UnlockSignalled
    | Sleep
  {
    /** Inside doSelect. */
    predicate Selecting() {
      TestStored? || ClearStored? || StorePending? || Pending()
    }

    /** Between the store of selectPending and its clearing. */
    predicate Pending() {
      BeforePselectReturns() || LockToDeregister? || Deregister? || UnlockDeregistered? ||
      ClearWakeup? || ClearPending?
    }

    /** selectPending has been stored and pselect has not yet returned. */
    predicate BeforePselectReturns() {
      Prepare? || LockToRegister? || Register? || UnlockRegistered? || InPselect?
    }

    /** Between the registration of selectThread and its deregistration. */
    predicate Registered() {
      UnlockRegistered? || InPselect? || LockToDeregister? || Deregister?
    }

    predicate HoldsMutex() {
      Register? || UnlockRegistered? || Deregister? || UnlockDeregistered? ||
      TestTarget? || Kill? || UnlockSignalled?
    }

    /** The next step starts a call or stores a wakeup. */
    predicate Fresh() {
      Idle? || Finished? || StoreWakeup?
    }

    /** About to lock selectMutex. */
    predicate Locks() {
      LockToRegister? || LockToDeregister? || LockToSignal?
    }

    /** About to unlock it. */
    predicate Unlocks() {
      UnlockRegistered? || UnlockDeregistered? || UnlockSignalled?
    }

    /** In the loop of wakeupSelect, the wakeup already stored. */
    predicate Signalling() {
      TestWakeup? || TestPending? || LockToSignal? || TestTarget? || Kill? || UnlockSignalled? || Sleep?
    }
  }

  /** The shared memory, with the pending signals the kernel keeps. */
  datatype Memory = Memory(
    wakeup: bool,
    selectPending: bool,
    selectThread: Option<Tid>,   // None stands for 0
    mutex: Option<Tid>,          // the owner of selectMutex
    signals: set<Tid>)           // threads with SIGUSR1 pending

  /** One program counter per thread, and the memory. */
  datatype State = State(pc: seq<Pc>, mem: Memory)

  ghost predicate Init(s: State) {
    && (forall t :: 0 <= t < |s.pc| ==> s.pc[t].Idle?)
    && s.mem == Memory(false, false, None, None, {})
  }

  /** Thread t, at p, enters doSelect (when no other thread is in it) or wakeupSelect. */
  ghost predicate Call(free: bool, m: Memory, p': Pc, m': Memory) {
    m' == m && ((free && p' == TestStored) || p' == StoreWakeup)
  }

  ghost predicate Lock(t: Tid, m: Memory, m': Memory) {
    m.mutex.None? && m' == m.(mutex := Some(t))
  }

  /**
   pselect returns: interrupted by SIGUSR1, which its mask unblocks, with a count (0 for a
   timeout or another signal), or with an error.
   */
  ghost predicate Pselect(t: Tid, m: Memory, p': Pc, m': Memory) {
    && p'.LockToDeregister?
    && (m' == m || (p'.out == Count(0) && t in m.signals && m' == m.(signals := m.signals - {t})))
  }

  /**
   One step of thread t at p with memory m; free says that no thread is in doSelect.
   */
  ghost predicate Local(free: bool, t: Tid, p: Pc, m: Memory, p': Pc, m': Memory) {
    match p
    case Idle => Call(free, m, p', m')
    case Finished(_) => Call(free, m, p', m')
    case TestStored => p' == (if m.wakeup then ClearStored else StorePending) && m' == m
    case ClearStored => p' == Finished(Count(0)) && m' == m.(wakeup := false)
    case StorePending => p' == Prepare && m' == m.(selectPending := true)
    case Prepare => (p' == LockToRegister || p' == ClearPending(Failure)) && m' == m
    case LockToRegister => p' == Register && Lock(t, m, m')
    case Register => p' == UnlockRegistered && m' == m.(selectThread := Some(t))
    case UnlockRegistered => p' == InPselect && m' == m.(mutex := None)
    case InPselect => Pselect(t, m, p', m')
    case LockToDeregister(out) => p' == Deregister(out) && Lock(t, m, m')
    case Deregister(out) => p' == UnlockDeregistered(out) && m' == m.(selectThread := None)
    case UnlockDeregistered(out) =>
      p' == (if out.Failure? then ClearPending(out) else ClearWakeup(out)) && m' == m.(mutex := None)
    case ClearWakeup(out) => p' == ClearPending(out) && m' == m.(wakeup := false)
    case ClearPending(out) => p' == Finished(out) && m' == m.(selectPending := false)
    case StoreWakeup => p' == TestWakeup && m' == m.(wakeup := true)
    case TestWakeup => p' == (if m.wakeup then TestPending else Idle) && m' == m
    case TestPending => p' == (if m.selectPending then LockToSignal else Idle) && m' == m
    case LockToSignal => p' == TestTarget && Lock(t, m, m')
    case TestTarget => p' == (if m.selectThread.Some? then Kill else UnlockSignalled) && m' == m
    case Kill =>
      m.selectThread.Some? && p' == UnlockSignalled && m' == m.(signals := m.signals + {m.selectThread.value})
    case UnlockSignalled => p' == Sleep && m' == m.(mutex := None)
    case Sleep => p' == TestWakeup && m' == m
  }

  ghost predicate NoSelector(s: State) {
    forall u :: 0 <= u < |s.pc| ==> !s.pc[u].Selecting()
  }

  ghost predicate Step(s: State, t: Tid, s': State)
    requires t < |s.pc|
  {
    && |s'.pc| == |s.pc|
    && (forall u :: 0 <= u < |s.pc| && u != t ==> s'.pc[u] == s.pc[u])
    && Local(NoSelector(s), t, s.pc[t], s.mem, s'.pc[t], s'.mem)
  }

  ghost predicate Next(s: State, s': State) {
    exists t: Tid :: t < |s.pc| && Step(s, t, s')
  }

  /** A sequence of states joined by steps. */
  ghost predicate IsPath(r: seq<State>) {
    Linked(Next, r)
  }

  /** A path from an initial state. */
  ghost predicate IsRun(r: seq<State>) {
    IsPath(r) && Init(r[0])
  }

  // ---------------------------------------------------------------- the invariant

  ghost predicate OneSelector(s: State) {
    forall t, u :: 0 <= t < |s.pc| && 0 <= u < |s.pc| && s.pc[t].Selecting() && s.pc[u].Selecting() ==> t == u
  }

  ghost predicate SomePending(s: State) {
    exists t :: 0 <= t < |s.pc| && s.pc[t].Pending()
  }

  ghost predicate PendingMatches(s: State) {
    s.mem.selectPending <==> SomePending(s)
  }

  ghost predicate ThreadMatches(s: State) {
    && (s.mem.selectThread.Some? ==> s.mem.selectThread.value < |s.pc|)
    && forall t :: 0 <= t < |s.pc| ==> (s.pc[t].Registered() <==> s.mem.selectThread == Some(t))
  }

  ghost predicate MutexMatches(s: State) {
    && (s.mem.mutex.Some? ==> s.mem.mutex.value < |s.pc|)
    && forall t :: 0 <= t < |s.pc| ==> (s.pc[t].HoldsMutex() <==> s.mem.mutex == Some(t))
  }

  ghost predicate KillHasTarget(s: State) {
    forall t :: 0 <= t < |s.pc| && s.pc[t].Kill? ==> s.mem.selectThread.Some?
  }

  ghost predicate Inv(s: State) {
    OneSelector(s) && PendingMatches(s) && ThreadMatches(s) && MutexMatches(s) && KillHasTarget(s)
  }

  // What a step does to its own program counter and to the memory, one aspect at a time.

  lemma MutexChanges(free: bool, t: Tid, p: Pc, m: Memory, p': Pc, m': Memory)
    requires Local(free, t, p, m, p', m')
    ensures m'.mutex == if p.Locks() then Some(t) else if p.Unlocks() then None else m.mutex
    ensures p'.HoldsMutex() <==> p.Locks() || (p.HoldsMutex() && !p.Unlocks())
    ensures p.Locks() ==> m.mutex.None?
  {
  }

  lemma LocalMutex(free: bool, t: Tid, p: Pc, m: Memory, p': Pc, m': Memory)
    requires Local(free, t, p, m, p', m')
    requires p.HoldsMutex() <==> m.mutex == Some(t)
    ensures p'.HoldsMutex() <==> m'.mutex == Some(t)
    ensures m'.mutex == m.mutex || m'.mutex == Some(t) || m.mutex == Some(t)
    ensures m'.mutex == m.mutex || m'.mutex.None? || m.mutex.None?
  {
    MutexChanges(free, t, p, m, p', m');
  }

  // Each part of the invariant is kept by every step.

  lemma StepKeepsOneSelector(s: State, t: Tid, s': State)
    requires t < |s.pc| && Step(s, t, s')
    requires OneSelector(s)
    ensures OneSelector(s')
  {
  }

  lemma StepKeepsPending(s: State, t: Tid, s': State)
    requires t < |s.pc| && Step(s, t, s')
    requires OneSelector(s) && PendingMatches(s)
    ensures PendingMatches(s')
  {
    if u :| 0 <= u < |s.pc| && u != t && s.pc[u].Pending() {
      assert s'.pc[u].Pending();
      assert !s.pc[t].Selecting();
    } else {
      assert SomePending(s) <==> s.pc[t].Pending();
      assert SomePending(s') <==> s'.pc[t].Pending();
    }
  }

  lemma StepKeepsMutex(s: State, t: Tid, s': State)
    requires t < |s.pc| && Step(s, t, s')
    requires MutexMatches(s)
    ensures MutexMatches(s')
  {
    LocalMutex(NoSelector(s), t, s.pc[t], s.mem, s'.pc[t], s'.mem);
  }

  lemma StepKeepsThread(s: State, t: Tid, s': State)
    requires t < |s.pc| && Step(s, t, s')
    requires OneSelector(s) && ThreadMatches(s)
    ensures ThreadMatches(s')
  {
  }

  lemma StepKeepsInv(s: State, t: Tid, s': State)
    requires t < |s.pc| && Step(s, t, s')
    requires Inv(s)
    ensures Inv(s')
  {
    StepKeepsOneSelector(s, t, s');
    StepKeepsPending(s, t, s');
    StepKeepsMutex(s, t, s');
    StepKeepsThread(s, t, s');
  }

  lemma NextKeepsInv(s: State, s': State)
    requires Next(s, s') && Inv(s)
    ensures Inv(s')
  {
    var t: Tid :| t < |s.pc| && Step(s, t, s');
    StepKeepsInv(s, t, s');
  }

  lemma {:induction false} RunKeepsInv(r: seq<State>, i: nat)
    requires IsRun(r) && i < |r|
    ensures Inv(r[i])
  {
    if i > 0 {
      RunKeepsInv(r, i - 1);
      LinkAt(Next, r, i);
      NextKeepsInv(r[i - 1], r[i]);
    }
  }

  /** The thread that makes step i of a path. */
  lemma StepOf(r: seq<State>, i: nat) returns (t: Tid)
    requires IsPath(r) && 0 < i < |r|
    ensures t < |r[i - 1].pc| && Step(r[i - 1], t, r[i])
  {
    LinkAt(Next, r, i);
    t :| t < |r[i - 1].pc| && Step(r[i - 1], t, r[i]);
  }

  // ---------------------------------------------------------------- the signal window

  /**
   In every reachable state a non-zero selectThread names the thread that is between its
   registration and its deregistration, and selectPending is 1.
   */
  lemma SignalWindow(r: seq<State>, i: nat)
    requires IsRun(r) && i < |r|
    ensures var s := r[i];
      s.mem.selectThread.Some? ==>
        var t := s.mem.selectThread.value;
        t < |s.pc| && s.pc[t].Registered() && s.mem.selectPending
  {
    RunKeepsInv(r, i);
    var s := r[i];
    if s.mem.selectThread.Some? {
      assert s.pc[s.mem.selectThread.value].Pending();
    }
  }

  /**
   Every pthread_kill reaches the selecting thread in pselect, or on its way from pselect to
   the mutex that the killer holds; at most that one thread becomes pending.
   */
  lemma KillHitsSelector(r: seq<State>, i: nat, w: Tid)
    requires IsRun(r) && i + 1 < |r|
    requires w < |r[i].pc| && r[i].pc[w].Kill? && Step(r[i], w, r[i + 1])
    ensures exists t :: 0 <= t < |r[i].pc| && (r[i].pc[t].InPselect? || r[i].pc[t].LockToDeregister?) &&
                        r[i + 1].mem.signals == r[i].mem.signals + {t}
  {
    RunKeepsInv(r, i);
    var t := r[i].mem.selectThread.value;
    assert r[i].pc[t].Registered() && !r[i].pc[t].HoldsMutex();
  }

  // ---------------------------------------------------------------- no lost wakeup

  ghost predicate InWindow(s: State) {
    exists t :: 0 <= t < |s.pc| && s.pc[t].BeforePselectReturns()
  }

  ghost predicate SomeSignalling(s: State) {
    exists w :: 0 <= w < |s.pc| && s.pc[w].Signalling()
  }

  /** A wakeup set while a select has not left pselect has a waker working to deliver it. */
  ghost predicate Attended(s: State) {
    InWindow(s) && s.mem.wakeup ==> SomeSignalling(s)
  }

  lemma LocalWakeup(free: bool, t: Tid, p: Pc, m: Memory, p': Pc, m': Memory)
    requires Local(free, t, p, m, p', m')
    ensures m'.wakeup == (p.StoreWakeup? || (m.wakeup && !p.ClearStored? && !p.ClearWakeup?))
    ensures p.StoreWakeup? || (p.Signalling() && m.wakeup && m.selectPending) ==> p'.Signalling()
  {
  }

  lemma LocalWindow(free: bool, t: Tid, p: Pc, m: Memory, p': Pc, m': Memory)
    requires Local(free, t, p, m, p', m')
    ensures p'.BeforePselectReturns() && !p.BeforePselectReturns() ==> p.StorePending?
    ensures p'.StorePending? ==> p.TestStored? && !m.wakeup && m' == m
    ensures p.StorePending? ==> p' == Prepare && m'.wakeup == m.wakeup
  {
  }

  lemma StepKeepsAttended(s: State, t: Tid, s': State)
    requires t < |s.pc| && Step(s, t, s')
    requires Inv(s) && Attended(s) && !s.pc[t].StorePending?
    ensures Attended(s')
  {
    LocalWakeup(NoSelector(s), t, s.pc[t], s.mem, s'.pc[t], s'.mem);
    LocalWindow(NoSelector(s), t, s.pc[t], s.mem, s'.pc[t], s'.mem);
    if InWindow(s') && s'.mem.wakeup {
      var u :| 0 <= u < |s'.pc| && s'.pc[u].BeforePselectReturns();
      assert s.pc[u].BeforePselectReturns() && s.pc[u].Pending();
      if s.pc[t].StoreWakeup? {
        assert s'.pc[t].Signalling();
      } else {
        var w :| 0 <= w < |s.pc| && s.pc[w].Signalling();
        assert s'.pc[w].Signalling();
      }
    }
  }

  /** The condition at the store of selectPending that decides the fate of a wakeup. */
  ghost predicate SafeToStore(s: State) {
    s.mem.wakeup ==> SomeSignalling(s)
  }

  lemma StoreDecides(s: State, t: Tid, s': State)
    requires t < |s.pc| && Step(s, t, s') && s.pc[t].StorePending?
    ensures Attended(s') <==> SafeToStore(s)
  {
    LocalWindow(NoSelector(s), t, s.pc[t], s.mem, s'.pc[t], s'.mem);
    assert s'.pc[t].BeforePselectReturns() && !s'.pc[t].Signalling() && !s.pc[t].Signalling();
    if w :| 0 <= w < |s.pc| && s.pc[w].Signalling() {
      assert s'.pc[w].Signalling();
    }
  }

  /** Step i of r is thread t's store of selectPending. */
  ghost predicate StoresAt(r: seq<State>, i: nat, t: Tid)
    requires 0 < i < |r|
  {
    t < |r[i - 1].pc| && r[i - 1].pc[t].StorePending? && Step(r[i - 1], t, r[i])
  }

  /**
   No lost wakeup, exactly: a run has an attended wakeup in all its states if and only if at
   every store of selectPending either wakeup is still 0 or some waker is in its loop.
   */
  lemma NoLostWakeup(r: seq<State>)
    requires IsRun(r)
    ensures (forall i :: 0 <= i < |r| ==> Attended(r[i])) <==>
            (forall i: nat, t: Tid :: 0 < i < |r| && StoresAt(r, i, t) ==> SafeToStore(r[i - 1]))
  {
    forall i: nat, t: Tid | 0 < i < |r| && StoresAt(r, i, t) && Attended(r[i])
      ensures SafeToStore(r[i - 1])
    {
      StoreDecides(r[i - 1], t, r[i]);
    }
    if forall i: nat, t: Tid :: 0 < i < |r| && StoresAt(r, i, t) ==> SafeToStore(r[i - 1]) {
      forall i | 0 <= i < |r| ensures Attended(r[i]) {
        AttendedUpTo(r, i);
      }
    }
  }

  lemma {:induction false} AttendedUpTo(r: seq<State>, i: nat)
    requires IsRun(r) && i < |r|
    requires forall j: nat, t: Tid :: 0 < j < |r| && StoresAt(r, j, t) ==> SafeToStore(r[j - 1])
    ensures Attended(r[i])
  {
    if i > 0 {
      AttendedUpTo(r, i - 1);
      RunKeepsInv(r, i - 1);
      var t := StepOf(r, i);
      if r[i - 1].pc[t].StorePending? {
        assert StoresAt(r, i, t);
        StoreDecides(r[i - 1], t, r[i]);
      } else {
        StepKeepsAttended(r[i - 1], t, r[i]);
      }
    }
  }

  /** Step k of r is a waker's store of wakeup. */
  ghost predicate WakesAt(r: seq<State>, k: nat)
    requires 0 < k < |r|
  {
    exists w: Tid :: w < |r[k - 1].pc| && w < |r[k].pc| && r[k - 1].pc[w].StoreWakeup? && r[k].pc[w].TestWakeup?
  }

  /** At step e thread t found wakeup 0, and it has not stored selectPending up to state i. */
  ghost predicate InGap(r: seq<State>, t: Tid, e: nat, i: nat) {
    && 0 < e <= i < |r| && t < |r[e - 1].pc| && r[e - 1].pc[t].TestStored?
    && forall l :: e <= l <= i ==> t < |r[l].pc| && r[l].pc[t].StorePending?
  }

  /** wakeup is set in state i exactly if a waker stored it after state e. */
  ghost predicate SetSince(r: seq<State>, e: nat, i: nat)
    requires i < |r|
  {
    r[i].mem.wakeup <==> exists k :: e < k <= i && WakesAt(r, k)
  }

  lemma GapBegins(r: seq<State>, t: Tid, i: nat)
    requires IsRun(r) && 0 < i < |r| && t < |r[i].pc| == |r[i - 1].pc|
    requires r[i].pc[t].StorePending? && !r[i - 1].pc[t].StorePending?
    ensures InGap(r, t, i, i) && SetSince(r, i, i)
  {
    assert r[i - 1].pc[t].TestStored? && !r[i].mem.wakeup by {
      var u := StepOf(r, i);
      RunKeepsInv(r, i - 1);
    }
  }

  lemma GapGrows(r: seq<State>, t: Tid, e: nat, i: nat)
    requires IsRun(r) && 0 < i < |r| && t < |r[i].pc| && r[i].pc[t].StorePending?
    requires InGap(r, t, e, i - 1) && SetSince(r, e, i - 1)
    ensures InGap(r, t, e, i) && SetSince(r, e, i)
  {
    var u := StepOf(r, i);
    RunKeepsInv(r, i - 1);
    StoresWakeup(r, i, u);
  }

  lemma NotFirst(r: seq<State>, t: Tid, i: nat)
    requires IsRun(r) && i < |r| && t < |r[i].pc| && r[i].pc[t].StorePending?
    ensures i > 0 && |r[i - 1].pc| == |r[i].pc|
  {
    if i > 0 {
      var u := StepOf(r, i);
    }
  }

  /** Between the test and the store, wakeup is set exactly by the wakers that store it. */
  lemma {:induction false} SetInGap(r: seq<State>, t: Tid, i: nat) returns (e: nat)
    requires IsRun(r) && i < |r| && t < |r[i].pc| && r[i].pc[t].StorePending?
    ensures InGap(r, t, e, i) && SetSince(r, e, i)
  {
    NotFirst(r, t, i);
    if r[i - 1].pc[t].StorePending? {
      e := SetInGap(r, t, i - 1);
      GapGrows(r, t, e, i);
    } else {
      e := i;
      GapBegins(r, t, i);
    }
  }

  lemma StoresWakeup(r: seq<State>, k: nat, u: Tid)
    requires 0 < k < |r| && u < |r[k - 1].pc| && Step(r[k - 1], u, r[k])
    ensures WakesAt(r, k) <==> r[k - 1].pc[u].StoreWakeup?
  {
  }

  /**
   How a wakeup gets lost, exactly: at a store of selectPending by thread t, if and only if some
   waker stored its wakeup after the entry test of this very call and before the store, and no
   waker is in its loop any more.
   */
  lemma LostExactly(r: seq<State>, i: nat, t: Tid) returns (e: nat)
    requires IsRun(r) && 0 < i < |r| && StoresAt(r, i, t)
    ensures InGap(r, t, e, i - 1)
    ensures !Attended(r[i]) <==> (exists k :: e < k < i && WakesAt(r, k)) && !SomeSignalling(r[i - 1])
  {
    e := SetInGap(r, t, i - 1);
    StoreDecides(r[i - 1], t, r[i]);
  }

  /** Every store of selectPending directly follows the entry test of its own thread. */
  ghost predicate AtomicEntry(r: seq<State>) {
    forall i: nat, t: Tid :: 0 < i < |r| && StoresAt(r, i, t) ==>
      i > 1 && t < |r[i - 2].pc| && r[i - 2].pc[t].TestStored?
  }

  /** With the entry test and the store taken as one step, no wakeup is ever lost. */
  lemma AtomicEntryLosesNothing(r: seq<State>)
    requires IsRun(r) && AtomicEntry(r)
    ensures forall i :: 0 <= i < |r| ==> Attended(r[i])
  {
    forall i: nat, t: Tid | 0 < i < |r| && StoresAt(r, i, t)
      ensures SafeToStore(r[i - 1])
    {
      var u := StepOf(r, i - 1);
      assert u == t;
      LocalWindow(NoSelector(r[i - 2]), t, r[i - 2].pc[t], r[i - 2].mem, r[i - 1].pc[t], r[i - 1].mem);
    }
    NoLostWakeup(r);
  }

  // ---------------------------------------------------------------- building paths

  function Do(s: State, t: Tid, p': Pc, m': Memory): State
    requires t < |s.pc|
  {
    State(s.pc[t := p'], m')
  }

  lemma Append(r: seq<State>, t: Tid, p': Pc, m': Memory) returns (r': seq<State>)
    requires IsPath(r) && t < |r[|r| - 1].pc|
    requires var s := r[|r| - 1]; Local(NoSelector(s), t, s.pc[t], s.mem, p', m')
    ensures r' == r + [Do(r[|r| - 1], t, p', m')] && IsPath(r') && r'[0] == r[0]
  {
    var s := r[|r| - 1];
    var s' := Do(s, t, p', m');
    assert Step(s, t, s') && Next(s, s');
    r' := r + [s'];
  }

  /** A step of a call in progress that does not store a wakeup. */
  ghost predicate QuietStep(s: State, s': State) {
    exists t: Tid :: t < |s.pc| && Step(s, t, s') && !s.pc[t].Fresh()
  }

  /** A path on which no call starts and no wakeup is stored. */
  ghost predicate IsQuiet(r: seq<State>) {
    Linked(QuietStep, r)
  }

  lemma Cons(s: State, t: Tid, r: seq<State>)
    requires IsQuiet(r) && t < |s.pc| && Step(s, t, r[0]) && !s.pc[t].Fresh()
    ensures IsQuiet([s] + r)
  {
    assert QuietStep(s, r[0]);
    LinkFront(QuietStep, s, r);
  }

  /** A whole wakeupSelect call that sees no pending select. */
  lemma WakeupInTheGap() returns (r: seq<State>)
    ensures IsRun(r)
    ensures r[|r| - 1] == State([StorePending, Idle], Memory(true, false, None, None, {}))
  {
    var m := Memory(false, false, None, None, {});
    r := [State([Idle, Idle], m)];
    r := Append(r, 0, TestStored, m);
    r := Append(r, 0, StorePending, m);
    r := Append(r, 1, StoreWakeup, m);
    m := m.(wakeup := true);
    r := Append(r, 1, TestWakeup, m);
    r := Append(r, 1, TestPending, m);
    r := Append(r, 1, Idle, m);
    assert r[|r| - 1].pc == [StorePending, Idle];
  }

  /**
   The gap between the test and the store does lose a wakeup: thread 0 tests wakeup, thread 1
   makes a whole wakeupSelect call, and thread 0 goes on to block in pselect.
   */
  lemma LostWakeup() returns (r: seq<State>)
    ensures IsRun(r)
    ensures r[|r| - 1] == State([InPselect, Idle], Memory(true, true, Some(0), None, {}))
    ensures !Attended(r[|r| - 1])
  {
    r := WakeupInTheGap();
    var m := Memory(true, true, None, None, {});
    r := Append(r, 0, Prepare, m);
    r := Append(r, 0, LockToRegister, m);
    r := Append(r, 0, Register, m.(mutex := Some(0)));
    r := Append(r, 0, UnlockRegistered, m.(mutex := Some(0), selectThread := Some(0)));
    r := Append(r, 0, InPselect, m.(selectThread := Some(0)));
    assert r[|r| - 1].pc == [InPselect, Idle];
    assert r[|r| - 1].pc[0].BeforePselectReturns();
  }

  // ---------------------------------------------------------------- a signal can be delivered

  /** Steps a signalling waker still has to make before its kill. */
  function ToKill(p: Pc): nat {
    match p
    case Kill => 1
    case TestTarget => 2
    case LockToSignal => 3
    case TestPending => 4
    case TestWakeup => 5
    case Sleep => 6
    case _ => 7
  }

  /** Steps a waker that owns the mutex still has to make before it is free. */
  function ToUnlock(p: Pc): nat {
    match p
    case TestTarget => 3
    case Kill => 2
    case _ => 1
  }

  /** The next step of a signalling waker that is not kept waiting for the mutex, nor leaves its loop. */
  lemma WakerMoves(free: bool, w: Tid, p: Pc, m: Memory) returns (p': Pc, m': Memory)
    requires p.Signalling() && (p.TestWakeup? ==> m.wakeup) && (p.TestPending? ==> m.selectPending)
    requires m.mutex == if p.HoldsMutex() then Some(w) else None
    requires p.Kill? ==> m.selectThread.Some?
    ensures Local(free, w, p, m, p', m')
    ensures p'.Signalling() && m'.wakeup == m.wakeup && m'.selectThread == m.selectThread && m.signals <= m'.signals
    ensures m'.mutex == if p'.HoldsMutex() then Some(w) else None
    ensures p.HoldsMutex() && p'.HoldsMutex() ==> ToUnlock(p') < ToUnlock(p)
    ensures if p.Kill? then m'.signals == m.signals + {m.selectThread.value}
            else if p.TestTarget? && m.selectThread.None? then p'.UnlockSignalled?
            else ToKill(p') < ToKill(p)
    ensures AimedAt(p, m) && !p.Kill? && m.selectThread.Some? ==> AimedAt(p', m')
  {
    p', m' :=
      if p.TestWakeup? then TestPending
      else if p.TestPending? then LockToSignal
      else if p.LockToSignal? then TestTarget
      else if p.TestTarget? then if m.selectThread.Some? then Kill else UnlockSignalled
      else if p.Kill? then UnlockSignalled
      else if p.Sleep? then TestWakeup
      else Sleep,
      if p.LockToSignal? then m.(mutex := Some(w))
      else if p.Kill? then m.(signals := m.signals + {m.selectThread.value})
      else if p.UnlockSignalled? then m.(mutex := None)
      else m;
  }

  /** On its way from its test of wakeup to a kill, whatever becomes of wakeup. */
  predicate AimedAt(p: Pc, m: Memory) {
    p.TestPending? || p.LockToSignal? || (p.TestTarget? && m.selectThread.Some?) || p.Kill?
  }

  ghost predicate SomeAimed(s: State) {
    exists w :: 0 <= w < |s.pc| && AimedAt(s.pc[w], s.mem)
  }

  /**
   A waker that holds the mutex, or waits for nobody, can bring SIGUSR1 to the thread in
   pselect, if the wakeup is still set or the waker is past its test of it.
   */
  lemma {:induction false} SignalArrives(s: State, t: Tid, w: Tid) returns (r: seq<State>)
    requires Inv(s) && t < |s.pc| && w < |s.pc| && s.pc[t].InPselect? && s.pc[w].Signalling()
    requires t in s.mem.signals || s.mem.wakeup || AimedAt(s.pc[w], s.mem)
    requires s.mem.mutex.None? || s.mem.mutex == Some(w)
    ensures IsQuiet(r) && r[0] == s
    ensures var z := r[|r| - 1]; |z.pc| == |s.pc| && z.pc[t].InPselect? && t in z.mem.signals
    decreases if t in s.mem.signals then 0 else ToKill(s.pc[w])
  {
    if t in s.mem.signals {
      r := [s];
    } else {
      assert s.pc[t].Pending() && s.pc[t].Registered();
      var p', m' := WakerMoves(NoSelector(s), w, s.pc[w], s.mem);
      var s' := Do(s, w, p', m');
      assert Step(s, w, s');
      StepKeepsInv(s, w, s');
      r := SignalArrives(s', t, w);
      Cons(s, w, r);
      r := [s] + r;
    }
  }

  /** Steps a selecting thread still has to make before pselect. */
  function ToPselect(p: Pc): nat {
    match p
    case InPselect => 0
    case UnlockRegistered => 1
    case Register => 2
    case LockToRegister => 3
    case Prepare => 4
    case _ => 5
  }

  /** Steps until the mutex is free, if a waker owns it. */
  ghost function OwnerSteps(s: State): nat {
    if s.mem.mutex.None? || s.mem.mutex.value >= |s.pc| then 0 else ToUnlock(s.pc[s.mem.mutex.value])
  }

  /** A select that waits for the mutex gets it: the owner can only be a waker, which leaves. */
  lemma MutexOwnerLeaves(s: State, t: Tid) returns (u: Tid, s': State)
    requires Inv(s) && t < |s.pc| && (s.pc[t].LockToRegister? || s.pc[t].LockToDeregister?) && s.mem.mutex.Some?
    ensures u < |s.pc| && u != t && Step(s, u, s') && s'.pc[t] == s.pc[t] && s'.pc == s.pc[u := s'.pc[u]]
    ensures s.pc[u].HoldsMutex() && s.pc[u].Signalling() && s'.pc[u].Signalling()
    ensures s'.mem.wakeup == s.mem.wakeup && s.mem.signals <= s'.mem.signals &&
        s'.mem.selectThread == s.mem.selectThread
    ensures OwnerSteps(s') < OwnerSteps(s)
  {
    u := s.mem.mutex.value;
    assert s.pc[t].Selecting() && s.pc[u].HoldsMutex() && s.pc[t].Pending();
    assert !s.pc[u].Selecting();
    var p', m' := WakerMoves(NoSelector(s), u, s.pc[u], s.mem);
    s' := Do(s, u, p', m');
  }

  /** The next step of a select on its way to pselect, when it need not wait for the mutex. */
  lemma SelectMoves(free: bool, t: Tid, p: Pc, m: Memory) returns (p': Pc, m': Memory)
    requires p.StorePending? || (p.BeforePselectReturns() && !p.InPselect?)
    requires p.LockToRegister? ==> m.mutex.None?
    ensures Local(free, t, p, m, p', m')
    ensures p'.BeforePselectReturns() && ToPselect(p') < ToPselect(p)
    ensures m'.wakeup == m.wakeup && m'.signals == m.signals && (m.selectThread.Some? ==> m'.selectThread.Some?)
  {
    p', m' :=
      if p.StorePending? then Prepare
      else if p.Prepare? then LockToRegister
      else if p.LockToRegister? then Register
      else if p.Register? then UnlockRegistered
      else InPselect,
      if p.StorePending? then m.(selectPending := true)
      else if p.LockToRegister? then m.(mutex := Some(t))
      else if p.Register? then m.(selectThread := Some(t))
      else if p.UnlockRegistered? then m.(mutex := None)
      else m;
  }

  /** What the way to pselect keeps of the chances of a signal. */
  ghost predicate StillReachable(s: State, s': State) {
    && s'.mem.wakeup == s.mem.wakeup && s.mem.signals <= s'.mem.signals
    && (SomeSignalling(s) ==> SomeSignalling(s')) && (SomeAimed(s) ==> SomeAimed(s'))
  }

  /** Thread t has found wakeup 0 and has not yet left pselect. */
  predicate Entering(p: Pc) {
    p.StorePending? || p.BeforePselectReturns()
  }

  /** The select itself goes on. */
  lemma SelectAdvances(s: State, t: Tid) returns (s': State)
    requires Inv(s) && t < |s.pc| && Entering(s.pc[t]) && !s.pc[t].InPselect?
    requires s.pc[t].LockToRegister? ==> s.mem.mutex.None?
    ensures Step(s, t, s') && s'.pc[t].BeforePselectReturns() && StillReachable(s, s')
    ensures ToPselect(s'.pc[t]) < ToPselect(s.pc[t])
  {
    var p', m' := SelectMoves(NoSelector(s), t, s.pc[t], s.mem);
    s' := Do(s, t, p', m');
    if w :| 0 <= w < |s.pc| && s.pc[w].Signalling() {
      assert s'.pc[w].Signalling();
    }
    if w :| 0 <= w < |s.pc| && AimedAt(s.pc[w], s.mem) {
      assert AimedAt(s'.pc[w], s'.mem);
    }
  }

  /** The waker it waits for goes on. */
  lemma OwnerAdvances(s: State, t: Tid) returns (u: Tid, s': State)
    requires Inv(s) && t < |s.pc| && s.pc[t].LockToRegister? && s.mem.mutex.Some?
    ensures u < |s.pc| && Step(s, u, s') && s.pc[u].Signalling() && s'.pc[t] == s.pc[t] && StillReachable(s, s')
    ensures OwnerSteps(s') < OwnerSteps(s)
  {
    u, s' := MutexOwnerLeaves(s, t);
    assert s.mem.selectThread.None? by {
      if s.mem.selectThread.Some? {
        assert s.pc[s.mem.selectThread.value].Selecting() && s.pc[t].Selecting();
      }
    }
    assert s'.pc[u].Signalling();
    if w :| 0 <= w < |s.pc| && AimedAt(s.pc[w], s.mem) {
      assert w != u && AimedAt(s'.pc[w], s'.mem);
    }
  }

  /** The steps that bring a select into pselect, whatever the wakers do. */
  lemma {:induction false} SelectEnters(s: State, t: Tid) returns (r: seq<State>)
    requires Inv(s) && t < |s.pc| && Entering(s.pc[t])
    ensures IsQuiet(r) && r[0] == s
    ensures var z := r[|r| - 1]; Inv(z) && |z.pc| == |s.pc| && z.pc[t].InPselect? && StillReachable(s, z)
    decreases ToPselect(s.pc[t]), OwnerSteps(s)
  {
    if s.pc[t].InPselect? {
      r := [s];
    } else {
      var u, s' := EnteringStep(s, t);
      r := SelectEnters(s', t);
      Cons(s, u, r);
      r := [s] + r;
    }
  }

  /** One step towards pselect. */
  lemma EnteringStep(s: State, t: Tid) returns (u: Tid, s': State)
    requires Inv(s) && t < |s.pc| && Entering(s.pc[t]) && !s.pc[t].InPselect?
    ensures u < |s.pc| && Step(s, u, s') && !s.pc[u].Fresh() && Inv(s')
    ensures Entering(s'.pc[t]) && StillReachable(s, s')
    ensures || ToPselect(s'.pc[t]) < ToPselect(s.pc[t])
            || (s'.pc[t] == s.pc[t] && OwnerSteps(s') < OwnerSteps(s))
  {
    if s.pc[t].LockToRegister? && s.mem.mutex.Some? {
      u, s' := OwnerAdvances(s, t);
    } else {
      u := t;
      s' := SelectAdvances(s, t);
    }
    StepKeepsInv(s, u, s');
  }

  /** There is a waker that can still signal. */
  ghost predicate Attainable(s: State) {
    (s.mem.wakeup && SomeSignalling(s)) || SomeAimed(s)
  }

  /** The owner of the mutex has made its kill, and lets another waker have the mutex. */
  lemma SignalAfterUnlock(s: State, t: Tid, w: Tid) returns (r: seq<State>)
    requires Inv(s) && t < |s.pc| && w < |s.pc| && s.pc[t].InPselect? && SomeAimed(s)
    requires s.mem.mutex == Some(w) && s.pc[w].UnlockSignalled?
    ensures IsQuiet(r) && r[0] == s
    ensures var z := r[|r| - 1]; |z.pc| == |s.pc| && z.pc[t].InPselect? && t in z.mem.signals
  {
    var v :| 0 <= v < |s.pc| && AimedAt(s.pc[v], s.mem);
    var s' := Do(s, w, Sleep, s.mem.(mutex := None));
    assert Step(s, w, s');
    StepKeepsInv(s, w, s');
    r := SignalArrives(s', t, v);
    Cons(s, w, r);
    r := [s] + r;
  }

  /** From a select in pselect to its pending signal. */
  lemma SignalFromAnyWaker(s: State, t: Tid) returns (r: seq<State>)
    requires Inv(s) && t < |s.pc| && s.pc[t].InPselect? && Attainable(s)
    ensures IsQuiet(r) && r[0] == s
    ensures var z := r[|r| - 1]; |z.pc| == |s.pc| && z.pc[t].InPselect? && t in z.mem.signals
  {
    assert s.pc[t].Selecting() && s.pc[t].Registered();
    if s.mem.mutex.Some? {
      var w := s.mem.mutex.value;
      assert s.pc[w].HoldsMutex();
      assert w != t && !s.pc[w].Selecting();
      if s.pc[w].UnlockSignalled? && !s.mem.wakeup {
        r := SignalAfterUnlock(s, t, w);
      } else {
        r := SignalArrives(s, t, w);
      }
    } else if SomeAimed(s) {
      var w :| 0 <= w < |s.pc| && AimedAt(s.pc[w], s.mem);
      r := SignalArrives(s, t, w);
    } else {
      var w :| 0 <= w < |s.pc| && s.pc[w].Signalling();
      r := SignalArrives(s, t, w);
    }
  }

  /** The last step of q: SIGUSR1 interrupts the pselect of thread t. */
  ghost predicate Interrupted(q: seq<State>, t: Tid) {
    && |q| > 1
    && var before, after := q[|q| - 2], q[|q| - 1];
      && t < |before.pc| && t < |after.pc| && before.pc[t].InPselect? && t in before.mem.signals
      && after.pc[t] == LockToDeregister(Count(0)) && t !in after.mem.signals
  }

  lemma InterruptStep(z: State, t: Tid) returns (z': State)
    requires t < |z.pc| && z.pc[t].InPselect? && t in z.mem.signals
    ensures QuietStep(z, z') && |z'.pc| == |z.pc| && z'.pc[t] == LockToDeregister(Count(0)) && t !in z'.mem.signals
  {
    z' := Do(z, t, LockToDeregister(Count(0)), z.mem.(signals := z.mem.signals - {t}));
    assert Step(z, t, z');
  }

  lemma Interrupt(q: seq<State>, t: Tid) returns (q': seq<State>)
    requires IsQuiet(q) && t < |q[|q| - 1].pc| && q[|q| - 1].pc[t].InPselect? && t in q[|q| - 1].mem.signals
    ensures IsQuiet(q') && q'[0] == q[0] && Interrupted(q', t)
  {
    var z' := InterruptStep(q[|q| - 1], t);
    q' := q + [z'];
  }

  /** The calls in progress bring about the interruption. */
  lemma InterruptFrom(s: State, t: Tid) returns (q: seq<State>)
    requires Inv(s) && t < |s.pc| && Entering(s.pc[t]) && (Attainable(s) || t in s.mem.signals)
    ensures IsQuiet(q) && q[0] == s && Interrupted(q, t)
  {
    q := SelectEnters(s, t);
    var z := q[|q| - 1];
    if t !in z.mem.signals {
      var b := SignalFromAnyWaker(z, t);
      LinkJoin(QuietStep, q, b);
      q := q + b[1..];
    }
    q := Interrupt(q, t);
  }

  // ---------------------------------------------------------------- from pselect to the return

  predicate Leaving(p: Pc, out: SelectResult) {
    || p == LockToDeregister(out) || p == Deregister(out) || p == UnlockDeregistered(out)
    || p == ClearWakeup(out) || p == ClearPending(out)
  }

  /** Steps a select that has left pselect still has to make. */
  function ToReturn(p: Pc): nat {
    match p
    case LockToDeregister(_) => 5
    case Deregister(_) => 4
    case UnlockDeregistered(_) => 3
    case ClearWakeup(_) => 2
    case ClearPending(_) => 1
    case _ => 0
  }

  lemma ReturnMoves(free: bool, t: Tid, p: Pc, m: Memory, out: SelectResult) returns (p': Pc, m': Memory)
    requires Leaving(p, out) && (p.LockToDeregister? ==> m.mutex.None?)
    ensures Local(free, t, p, m, p', m')
    ensures (Leaving(p', out) || p' == Finished(out)) && ToReturn(p') < ToReturn(p)
  {
    p', m' :=
      if p.LockToDeregister? then Deregister(out)
      else if p.Deregister? then UnlockDeregistered(out)
      else if p.UnlockDeregistered? then if out.Failure? then ClearPending(out) else ClearWakeup(out)
      else if p.ClearWakeup? then ClearPending(out)
      else Finished(out),
      if p.LockToDeregister? then m.(mutex := Some(t))
      else if p.Deregister? then m.(selectThread := None)
      else if p.UnlockDeregistered? then m.(mutex := None)
      else if p.ClearWakeup? then m.(wakeup := false)
      else m.(selectPending := false);
  }

  /** A select that has left pselect can go on to return what it has. */
  lemma {:induction false} SelectReturns(s: State, t: Tid, out: SelectResult) returns (r: seq<State>)
    requires Inv(s) && t < |s.pc| && (Leaving(s.pc[t], out) || s.pc[t] == Finished(out))
    ensures IsQuiet(r) && r[0] == s
    ensures t < |r[|r| - 1].pc| && r[|r| - 1].pc[t] == Finished(out)
    decreases ToReturn(s.pc[t]), OwnerSteps(s)
  {
    if s.pc[t] == Finished(out) {
      r := [s];
    } else {
      var u, s' := t, s;
      if s.pc[t].LockToDeregister? && s.mem.mutex.Some? {
        u, s' := MutexOwnerLeaves(s, t);
      } else {
        var p', m' := ReturnMoves(NoSelector(s), t, s.pc[t], s.mem, out);
        s' := Do(s, t, p', m');
      }
      StepKeepsInv(s, u, s');
      r := SelectReturns(s', t, out);
      Cons(s, u, r);
      r := [s] + r;
    }
  }

  // ---------------------------------------------------------------- what a return leaves of wakeup

  /** Thread t stays in this call from state i up to state j. */
  ghost predicate SameCall(r: seq<State>, t: Tid, i: nat, j: nat) {
    i <= j < |r| && forall l :: i <= l <= j ==> t < |r[l].pc| && (l < j ==> !r[l].pc[t].Finished?)
  }

  /** If wakeup is set in state l, a waker stored it after state i. */
  ghost predicate OnlyWoken(r: seq<State>, i: nat, l: nat)
    requires l < |r|
  {
    r[l].mem.wakeup ==> exists k :: i < k <= l && WakesAt(r, k)
  }

  lemma StaysOnlyWoken(r: seq<State>, i: nat, l: nat)
    requires IsPath(r) && i <= l && l + 1 < |r| && OnlyWoken(r, i, l)
    ensures OnlyWoken(r, i, l + 1)
  {
    var u := StepOf(r, l + 1);
    StoresWakeup(r, l + 1, u);
    LocalWakeup(NoSelector(r[l]), u, r[l].pc[u], r[l].mem, r[l + 1].pc[u], r[l + 1].mem);
    if r[l].mem.wakeup {
      var k :| i < k <= l && WakesAt(r, k);
      assert WakesAt(r, k);
    }
  }

  lemma {:induction false} LeavingWith(r: seq<State>, t: Tid, n: nat, i: nat, l: nat)
    requires IsPath(r) && SameCall(r, t, i, l) && r[i].pc[t] == LockToDeregister(Count(n))
    ensures Leaving(r[l].pc[t], Count(n)) || r[l].pc[t] == Finished(Count(n))
    ensures r[l].pc[t].ClearPending? || r[l].pc[t].Finished? ==> OnlyWoken(r, i, l)
  {
    if i < l {
      assert SameCall(r, t, i, l - 1);
      LeavingWith(r, t, n, i, l - 1);
      LeavingStep(r, t, n, i, l);
    }
  }

  lemma LeavingStep(r: seq<State>, t: Tid, n: nat, i: nat, l: nat)
    requires IsPath(r) && i < l < |r| && t < |r[l - 1].pc| && t < |r[l].pc| && Leaving(r[l - 1].pc[t], Count(n))
    requires r[l - 1].pc[t].ClearPending? ==> OnlyWoken(r, i, l - 1)
    ensures Leaving(r[l].pc[t], Count(n)) || r[l].pc[t] == Finished(Count(n))
    ensures r[l].pc[t].ClearPending? || r[l].pc[t].Finished? ==> OnlyWoken(r, i, l)
  {
    var u := StepOf(r, l);
    if r[l - 1].pc[t].ClearPending? {
      StaysOnlyWoken(r, i, l - 1);
    }
  }

  /**
   A select that returns a count uses the wakeup up: over every path, wakeup is set when it
   returns only if a waker stored it after pselect had returned.
   */
  lemma CountUsesWakeup(r: seq<State>, t: Tid, n: nat, i: nat, j: nat)
    requires IsPath(r) && SameCall(r, t, i, j)
    requires r[i].pc[t] == LockToDeregister(Count(n)) && r[j].pc[t] == Finished(Count(n))
    ensures r[j].mem.wakeup ==> exists k :: i < k <= j && WakesAt(r, k)
  {
    LeavingWith(r, t, n, i, j);
  }

  /** wakeup is set in state l exactly if it was in state i or a waker stored it since. */
  ghost predicate KeptOrWoken(r: seq<State>, i: nat, l: nat)
    requires i <= l < |r|
  {
    r[l].mem.wakeup <==> r[i].mem.wakeup || exists k :: i < k <= l && WakesAt(r, k)
  }

  lemma FailingStep(r: seq<State>, t: Tid, i: nat, l: nat)
    requires IsRun(r) && i < l < |r| && t < |r[l - 1].pc| && t < |r[l].pc|
    requires Leaving(r[l - 1].pc[t], Failure) && !r[l - 1].pc[t].ClearWakeup? && KeptOrWoken(r, i, l - 1)
    ensures (Leaving(r[l].pc[t], Failure) && !r[l].pc[t].ClearWakeup?) || r[l].pc[t] == Finished(Failure)
    ensures KeptOrWoken(r, i, l)
  {
    var s, s' := r[l - 1], r[l];
    var u := StepOf(r, l);
    RunKeepsInv(r, l - 1);
    StoresWakeup(r, l, u);
    LocalWakeup(NoSelector(s), u, s.pc[u], s.mem, s'.pc[u], s'.mem);
    assert u != t ==> s.pc[t].Selecting() && !s.pc[u].Selecting();
    if k :| i < k <= l - 1 && WakesAt(r, k) {
      assert WakesAt(r, k);
    }
  }

  lemma {:induction false} FailingWith(r: seq<State>, t: Tid, i: nat, j: nat)
    requires IsRun(r) && SameCall(r, t, i, j) && r[i].pc[t] == LockToDeregister(Failure)
    ensures (Leaving(r[j].pc[t], Failure) && !r[j].pc[t].ClearWakeup?) || r[j].pc[t] == Finished(Failure)
    ensures KeptOrWoken(r, i, j)
  {
    if i < j {
      assert SameCall(r, t, i, j - 1);
      FailingWith(r, t, i, j - 1);
      FailingStep(r, t, i, j);
    }
  }

  /** A select that fails leaves wakeup to the next: only wakers change it until it returns. */
  lemma FailureKeepsWakeup(r: seq<State>, t: Tid, i: nat, j: nat)
    requires IsRun(r) && SameCall(r, t, i, j) && r[i].pc[t] == LockToDeregister(Failure)
    ensures r[j].mem.wakeup <==> r[i].mem.wakeup || exists k :: i < k <= j && WakesAt(r, k)
  {
    FailingWith(r, t, i, j);
  }

  // ---------------------------------------------------------------- every call can return

  /** Steps of a call that is not a select, once no select is pending. */
  function Left(p: Pc): nat {
    match p
    case TestPending => 1
    case TestWakeup => 2
    case Sleep => 3
    case StoreWakeup => 3
    case UnlockSignalled => 4
    case TestTarget => 5
    case LockToSignal => 6
    case _ => 0
  }

  function Work(pc: seq<Pc>): nat {
    if |pc| == 0 then 0 else Left(pc[0]) + Work(pc[1..])
  }

  lemma {:induction false} WorkDrops(pc: seq<Pc>, t: Tid, p': Pc)
    requires t < |pc| && Left(p') < Left(pc[t])
    ensures Work(pc[t := p']) < Work(pc)
  {
    if t > 0 {
      WorkDrops(pc[1..], t - 1, p');
      assert pc[t := p'][1..] == pc[1..][t - 1 := p'];
    } else {
      assert pc[t := p'][1..] == pc[1..];
    }
  }

  ghost predicate AllReturned(s: State) {
    forall t :: 0 <= t < |s.pc| ==> s.pc[t].Idle? || s.pc[t].Finished?
  }

  /** The next step of a waker that is not kept waiting, when no select is pending. */
  lemma WakerLeaves(free: bool, w: Tid, p: Pc, m: Memory) returns (p': Pc, m': Memory)
    requires (p.Signalling() && !p.Kill?) || p.StoreWakeup?
    requires !m.selectPending && m.selectThread.None? && (p.LockToSignal? ==> m.mutex.None?)
    ensures Local(free, w, p, m, p', m') && Left(p') < Left(p) && !p'.Selecting()
  {
    p', m' :=
      if p.StoreWakeup? then TestWakeup
      else if p.TestWakeup? then if m.wakeup then TestPending else Idle
      else if p.TestPending? then Idle
      else if p.LockToSignal? then TestTarget
      else if p.TestTarget? then UnlockSignalled
      else if p.UnlockSignalled? then Sleep
      else TestWakeup,
      if p.StoreWakeup? then m.(wakeup := true)
      else if p.LockToSignal? then m.(mutex := Some(w))
      else if p.UnlockSignalled? then m.(mutex := None)
      else m;
  }

  /** Some waker is not kept waiting. */
  lemma SomeoneLeaves(s: State) returns (w: Tid, s': State)
    requires Inv(s) && NoSelector(s) && !AllReturned(s)
    ensures w < |s.pc| && Step(s, w, s') && NoSelector(s') && Work(s'.pc) < Work(s.pc)
  {
    if s.mem.mutex.Some? {
      w := s.mem.mutex.value;
      assert s.pc[w].HoldsMutex() && !s.pc[w].Selecting();
    } else {
      w :| 0 <= w < |s.pc| && !s.pc[w].Idle? && !s.pc[w].Finished?;
      assert !s.pc[w].Selecting();
    }
    var p', m' := WakerLeaves(NoSelector(s), w, s.pc[w], s.mem);
    s' := Do(s, w, p', m');
    WorkDrops(s.pc, w, p');
  }

  lemma {:induction false} WakersReturn(s: State) returns (q: seq<State>)
    requires Inv(s) && NoSelector(s)
    ensures IsPath(q) && q[0] == s && AllReturned(q[|q| - 1])
    decreases Work(s.pc)
  {
    if AllReturned(s) {
      q := [s];
    } else {
      var w, s' := SomeoneLeaves(s);
      StepKeepsInv(s, w, s');
      q := WakersReturn(s');
      assert Next(s, s');
      LinkFront(Next, s, q);
      q := [s] + q;
    }
  }

  lemma QuietIsPath(q: seq<State>)
    requires IsQuiet(q)
    ensures IsPath(q)
  {
    forall i | 0 < i < |q| ensures Next(q[i - 1], q[i]) {
      LinkAt(QuietStep, q, i);
    }
  }

  /** The select in progress can return. */
  lemma SelectorReturns(s: State, t: Tid) returns (q: seq<State>)
    requires Inv(s) && t < |s.pc| && s.pc[t].Selecting()
    ensures IsQuiet(q) && q[0] == s && t < |q[|q| - 1].pc| && q[|q| - 1].pc[t].Finished?
  {
    if s.pc[t].TestStored? || s.pc[t].ClearStored? {
      q := FromEntry(s, t);
    } else if Entering(s.pc[t]) {
      q := FromEntering(s, t);
    } else {
      q := SelectReturns(s, t, s.pc[t].out);
    }
  }

  lemma FromEntering(s: State, t: Tid) returns (q: seq<State>)
    requires Inv(s) && t < |s.pc| && Entering(s.pc[t])
    ensures IsQuiet(q) && q[0] == s && t < |q[|q| - 1].pc| && q[|q| - 1].pc[t].Finished?
  {
    q := SelectEnters(s, t);
    var b := AnyAnswer(q[|q| - 1], t, Count(0));
    LinkJoin(QuietStep, q, b);
    q := q + b[1..];
  }

  lemma FromEntry(s: State, t: Tid) returns (q: seq<State>)
    requires Inv(s) && t < |s.pc| && (s.pc[t].TestStored? || s.pc[t].ClearStored?)
    ensures IsQuiet(q) && q[0] == s && t < |q[|q| - 1].pc| && q[|q| - 1].pc[t].Finished?
    decreases if s.pc[t].TestStored? then 1 else 0
  {
    var p' := if s.pc[t].ClearStored? then Finished(Count(0)) else if s.mem.wakeup then ClearStored else StorePending;
    var s' := Do(s, t, p', if s.pc[t].ClearStored? then s.mem.(wakeup := false) else s.mem);
    assert Step(s, t, s');
    StepKeepsInv(s, t, s');
    if p'.ClearStored? {
      q := FromEntry(s', t);
    } else if p'.StorePending? {
      q := FromEntering(s', t);
    } else {
      q := [s'];
    }
    Cons(s, t, q);
    q := [s] + q;
  }

  /**
   Freedom from deadlock and from wakers that can never leave their loop: every reachable state
   can be continued until all calls have returned.
   */
  lemma EveryCallCanReturn(r: seq<State>, i: nat) returns (q: seq<State>)
    requires IsRun(r) && i < |r|
    ensures IsPath(q) && q[0] == r[i] && AllReturned(q[|q| - 1])
  {
    RunKeepsInv(r, i);
    if NoSelector(r[i]) {
      q := WakersReturn(r[i]);
    } else {
      var t :| 0 <= t < |r[i].pc| && r[i].pc[t].Selecting();
      q := SelectorReturns(r[i], t);
      NoOtherSelector(q, |q| - 1, t);
      QuietIsPath(q);
      var b := WakersReturn(q[|q| - 1]);
      LinkJoin(Next, q, b);
      q := q + b[1..];
    }
  }

  /** On a quiet path no second select begins. */
  lemma {:induction false} NoOtherSelector(q: seq<State>, i: nat, t: Tid)
    requires IsQuiet(q) && Inv(q[0]) && i < |q| && t < |q[0].pc| && q[0].pc[t].Selecting()
    ensures Inv(q[i]) && |q[i].pc| == |q[0].pc|
    ensures forall u :: 0 <= u < |q[i].pc| && u != t ==> !q[i].pc[u].Selecting()
  {
    if i > 0 {
      NoOtherSelector(q, i - 1, t);
      LinkAt(QuietStep, q, i);
      NoneBegins(q[i - 1], q[i], t);
    }
  }

  lemma NoneBegins(s: State, s': State, t: Tid)
    requires QuietStep(s, s') && Inv(s) && forall u :: 0 <= u < |s.pc| && u != t ==> !s.pc[u].Selecting()
    ensures Inv(s') && |s'.pc| == |s.pc|
    ensures forall u :: 0 <= u < |s'.pc| && u != t ==> !s'.pc[u].Selecting()
  {
    var u: Tid :| u < |s.pc| && Step(s, u, s') && !s.pc[u].Fresh();
    StepKeepsInv(s, u, s');
  }

  /** pselect can return with any count or an error, and doSelect goes on to return it. */
  lemma AnyAnswer(s: State, t: Tid, out: SelectResult) returns (q: seq<State>)
    requires Inv(s) && t < |s.pc| && s.pc[t].InPselect?
    ensures IsQuiet(q) && q[0] == s && t < |q[|q| - 1].pc| && q[|q| - 1].pc[t] == Finished(out)
  {
    var s' := Do(s, t, LockToDeregister(out), s.mem);
    assert Step(s, t, s');
    StepKeepsInv(s, t, s');
    q := SelectReturns(s', t, out);
    Cons(s, t, q);
    q := [s] + q;
  }

  /** The preparation can fail: the select returns the failure with selectPending cleared and wakeup as it was. */
  lemma SetupFails(s: State, t: Tid) returns (q: seq<State>)
    requires Inv(s) && t < |s.pc| && s.pc[t].Prepare?
    ensures IsQuiet(q) && q[0] == s && t < |q[|q| - 1].pc| && q[|q| - 1].pc[t] == Finished(Failure)
    ensures q[|q| - 1].mem == s.mem.(selectPending := false)
  {
    var s' := Do(s, t, ClearPending(Failure), s.mem);
    var z := Do(s', t, Finished(Failure), s.mem.(selectPending := false));
    assert Step(s, t, s') && Step(s', t, z);
    q := [z];
    Cons(s', t, q);
    q := [s'] + q;
    Cons(s, t, q);
    q := [s] + q;
  }

  lemma {:induction false} QuietKeepsInv(q: seq<State>, i: nat)
    requires IsQuiet(q) && Inv(q[0]) && i < |q|
    ensures Inv(q[i])
  {
    if i > 0 {
      QuietKeepsInv(q, i - 1);
      LinkAt(QuietStep, q, i);
      NextKeepsInv(q[i - 1], q[i]);
    }
  }

  /**
   What attendance buys: whenever a wakeup is attended and a select has not left pselect in a
   reachable state, the calls in progress can go on, without any new call or wakeup, so that
   SIGUSR1 interrupts that select, and then on to its return of 0.
   */
  lemma AttendedWakeupDelivers(r: seq<State>, i: nat, t: Tid) returns (q: seq<State>, back: seq<State>)
    requires IsRun(r) && i < |r| && t < |r[i].pc| && r[i].pc[t].BeforePselectReturns() && r[i].mem.wakeup
    requires Attended(r[i]) || t in r[i].mem.signals
    ensures IsQuiet(q) && q[0] == r[i] && Interrupted(q, t)
    ensures IsQuiet(back) && back[0] == q[|q| - 1]
    ensures t < |back[|back| - 1].pc| && back[|back| - 1].pc[t] == Finished(Count(0))
  {
    RunKeepsInv(r, i);
    q := InterruptFrom(r[i], t);
    QuietKeepsInv(q, |q| - 1);
    back := SelectReturns(q[|q| - 1], t, Count(0));
  }

  /** Nobody is there to signal thread t. */
  ghost predicate Deserted(s: State, t: Tid) {
    !SomeSignalling(s) && t !in s.mem.signals
  }

  lemma LocalDeserted(free: bool, t: Tid, p: Pc, m: Memory, p': Pc, m': Memory)
    requires Local(free, t, p, m, p', m') && !p.Fresh() && !p.Signalling()
    ensures !p'.Signalling() && m'.signals <= m.signals
  {
  }

  lemma {:induction false} StaysDeserted(q: seq<State>, t: Tid, i: nat)
    requires IsQuiet(q) && Deserted(q[0], t) && i < |q|
    ensures Deserted(q[i], t)
  {
    if i > 0 {
      StaysDeserted(q, t, i - 1);
      LinkAt(QuietStep, q, i);
      var u: Tid :| u < |q[i - 1].pc| && Step(q[i - 1], u, q[i]) && !q[i - 1].pc[u].Fresh();
      LocalDeserted(NoSelector(q[i - 1]), u, q[i - 1].pc[u], q[i - 1].mem, q[i].pc[u], q[i].mem);
    }
  }

  /**
   Attendance, exactly: with a wakeup set and a select that has not left pselect, the calls in
   progress can bring about its interruption without a new call or wakeup if and only if the
   wakeup is attended or SIGUSR1 is already pending.
   */
  lemma WakeupReachesExactly(r: seq<State>, i: nat, t: Tid)
    requires IsRun(r) && i < |r| && t < |r[i].pc| && r[i].pc[t].BeforePselectReturns() && r[i].mem.wakeup
    ensures (exists q :: IsQuiet(q) && q[0] == r[i] && Interrupted(q, t)) <==> Attended(r[i]) || t in r[i].mem.signals
  {
    if Attended(r[i]) || t in r[i].mem.signals {
      var q, back := AttendedWakeupDelivers(r, i, t);
    } else {
      forall q | IsQuiet(q) && q[0] == r[i] ensures !Interrupted(q, t) {
        if |q| > 1 {
          StaysDeserted(q, t, |q| - 2);
        }
      }
    }
  }

  /** The lost wakeup stays lost: no call in progress can interrupt the select. */
  lemma LostForGood() returns (r: seq<State>)
    ensures IsRun(r) && r[|r| - 1] == State([InPselect, Idle], Memory(true, true, Some(0), None, {}))
    ensures forall q :: IsQuiet(q) && q[0] == r[|r| - 1] ==> !Interrupted(q, 0)
  {
    r := LostWakeup();
    WakeupReachesExactly(r, |r| - 1, 0);
  }

  // ---------------------------------------------------------------- a signal without a wakeup

  /** A step that does not store a wakeup; calls may start. */
  ghost predicate UnwokenStep(s: State, s': State) {
    exists t: Tid :: t < |s.pc| && Step(s, t, s') && !s.pc[t].StoreWakeup?
  }

  lemma QuietIsUnwoken(q: seq<State>)
    requires IsQuiet(q)
    ensures Linked(UnwokenStep, q)
  {
    forall i | 0 < i < |q| ensures UnwokenStep(q[i - 1], q[i]) {
      LinkAt(QuietStep, q, i);
    }
  }

  /** No wakeup is stored, no signal is pending for thread t, and none is on its way. */
  ghost predicate Calm(s: State, t: Tid) {
    !s.mem.wakeup && t !in s.mem.signals && !SomeAimed(s)
  }

  lemma LocalCalm(free: bool, t: Tid, p: Pc, m: Memory, p': Pc, m': Memory)
    requires Local(free, t, p, m, p', m') && !p.StoreWakeup? && !m.wakeup && !AimedAt(p, m)
    ensures !m'.wakeup && !AimedAt(p', m') && m'.signals <= m.signals
    ensures m'.selectThread.Some? ==> m.selectThread.Some? || p.HoldsMutex()
  {
  }

  lemma StepStaysCalm(s: State, s': State, t: Tid)
    requires Inv(s) && UnwokenStep(s, s') && Calm(s, t)
    ensures Inv(s') && Calm(s', t)
  {
    var u: Tid :| u < |s.pc| && Step(s, u, s') && !s.pc[u].StoreWakeup?;
    StepKeepsInv(s, u, s');
    LocalCalm(NoSelector(s), u, s.pc[u], s.mem, s'.pc[u], s'.mem);
    forall w | 0 <= w < |s'.pc| ensures !AimedAt(s'.pc[w], s'.mem) {
      assert !AimedAt(s.pc[w], s.mem);
      assert s.pc[w].TestTarget? ==> s.pc[w].HoldsMutex();
    }
  }

  lemma {:induction false} StaysCalm(q: seq<State>, t: Tid, i: nat)
    requires Linked(UnwokenStep, q) && Inv(q[0]) && Calm(q[0], t) && i < |q|
    ensures Inv(q[i]) && Calm(q[i], t)
  {
    if i > 0 {
      StaysCalm(q, t, i - 1);
      LinkAt(UnwokenStep, q, i);
      StepStaysCalm(q[i - 1], q[i], t);
    }
  }

  /**
   A signal that outlives its wakeup, exactly: from a reachable state in which wakeup is 0 and
   thread t is about to enter pselect, or in it, t can be interrupted without a new wakeup if
   and only if SIGUSR1 is already pending for it, or a waker is on its way from its test of
   wakeup to its kill.
   */
  lemma StaleSignalExactly(r: seq<State>, i: nat, t: Tid)
    requires IsRun(r) && i < |r| && t < |r[i].pc| && Entering(r[i].pc[t]) && !r[i].mem.wakeup
    ensures (exists q :: Linked(UnwokenStep, q) && q[0] == r[i] && Interrupted(q, t)) <==>
            t in r[i].mem.signals || SomeAimed(r[i])
    ensures (exists q :: IsQuiet(q) && q[0] == r[i] && Interrupted(q, t)) <==> t in r[i].mem.signals || SomeAimed(r[i])
  {
    RunKeepsInv(r, i);
    if t in r[i].mem.signals || SomeAimed(r[i]) {
      var q := InterruptFrom(r[i], t);
      QuietIsUnwoken(q);
    } else {
      forall q | Linked(UnwokenStep, q) && q[0] == r[i] ensures !Interrupted(q, t) {
        if |q| > 1 {
          StaysCalm(q, t, |q| - 2);
        }
      }
      forall q | IsQuiet(q) ensures Linked(UnwokenStep, q) {
        QuietIsUnwoken(q);
      }
    }
  }

  /** Before t has stored selectPending, only wakers between their test of wakeup and their lock count. */
  lemma AimedInGap(r: seq<State>, i: nat, t: Tid)
    requires IsRun(r) && i < |r| && t < |r[i].pc| && r[i].pc[t].StorePending?
    ensures SomeAimed(r[i]) <==>
            exists w :: 0 <= w < |r[i].pc| && (r[i].pc[w].TestPending? || r[i].pc[w].LockToSignal?)
  {
    RunKeepsInv(r, i);
    var s := r[i];
    assert s.mem.selectThread.None? by {
      if s.mem.selectThread.Some? {
        assert s.pc[s.mem.selectThread.value].Selecting() && s.pc[t].Selecting();
      }
    }
    if w :| 0 <= w < |s.pc| && (s.pc[w].TestPending? || s.pc[w].LockToSignal?) {
      assert AimedAt(s.pc[w], s.mem);
    }
  }

  /** Thread 1 is about to signal thread 0, whose pselect has just timed out. */
  lemma LateKill() returns (r: seq<State>)
    ensures IsRun(r)
    ensures r[|r| - 1] == State([LockToDeregister(Count(0)), Kill], Memory(true, true, Some(0), Some(1), {}))
  {
    var m := Memory(false, false, None, None, {});
    r := [State([Idle, Idle], m)];
    r := Append(r, 0, TestStored, m);
    r := Append(r, 0, StorePending, m);
    m := m.(selectPending := true);
    r := Append(r, 0, Prepare, m);
    r := Append(r, 0, LockToRegister, m);
    r := Append(r, 0, Register, m.(mutex := Some(0)));
    r := Append(r, 0, UnlockRegistered, m.(mutex := Some(0), selectThread := Some(0)));
    m := m.(selectThread := Some(0));
    r := Append(r, 0, InPselect, m);
    r := LateKillFrom(r);
  }

  lemma LateKillFrom(r: seq<State>) returns (r': seq<State>)
    requires IsRun(r) && r[|r| - 1].pc == [InPselect, Idle]
    requires r[|r| - 1].mem == Memory(false, true, Some(0), None, {})
    ensures IsRun(r')
    ensures r'[|r'| - 1] == State([LockToDeregister(Count(0)), Kill], Memory(true, true, Some(0), Some(1), {}))
  {
    var m := r[|r| - 1].mem;
    r' := Append(r, 1, StoreWakeup, m);
    m := m.(wakeup := true);
    r' := Append(r', 1, TestWakeup, m);
    r' := Append(r', 1, TestPending, m);
    r' := Append(r', 1, LockToSignal, m);
    r' := Append(r', 1, TestTarget, m.(mutex := Some(1)));
    r' := Append(r', 1, Kill, m.(mutex := Some(1)));
    r' := Append(r', 0, LockToDeregister(Count(0)), m.(mutex := Some(1)));
    assert r'[|r'| - 1].pc == [LockToDeregister(Count(0)), Kill];
  }

  /** Its kill is made, and thread 0 has deregistered. */
  lemma SignalSent() returns (r: seq<State>)
    ensures IsRun(r)
    ensures r[|r| - 1] == State([ClearWakeup(Count(0)), Sleep], Memory(true, true, None, None, {0}))
  {
    r := LateKill();
    var m := Memory(true, true, Some(0), None, {0});
    r := Append(r, 1, UnlockSignalled, m.(mutex := Some(1)));
    r := Append(r, 1, Sleep, m);
    r := Append(r, 0, Deregister(Count(0)), m.(mutex := Some(0)));
    m := m.(selectThread := None);
    r := Append(r, 0, UnlockDeregistered(Count(0)), m.(mutex := Some(0)));
    r := Append(r, 0, ClearWakeup(Count(0)), m);
    assert r[|r| - 1].pc == [ClearWakeup(Count(0)), Sleep];
  }

  /** Both calls have returned, and SIGUSR1 is left pending for thread 0, which blocks it. */
  lemma SignalLeft() returns (r: seq<State>)
    ensures IsRun(r)
    ensures r[|r| - 1] == State([Finished(Count(0)), Idle], Memory(false, false, None, None, {0}))
  {
    r := SignalSent();
    var m := Memory(false, true, None, None, {0});
    r := Append(r, 0, ClearPending(Count(0)), m);
    m := m.(selectPending := false);
    r := Append(r, 0, Finished(Count(0)), m);
    r := Append(r, 1, TestWakeup, m);
    r := Append(r, 1, Idle, m);
    assert r[|r| - 1].pc == [Finished(Count(0)), Idle];
  }

  /** The next select of thread 0 is interrupted although nobody woke it. */
  lemma StaleSignal() returns (r: seq<State>, q: seq<State>)
    ensures IsRun(r) && r[|r| - 1] == State([StorePending, Idle], Memory(false, false, None, None, {0}))
    ensures Linked(UnwokenStep, q) && q[0] == r[|r| - 1] && Interrupted(q, 0)
  {
    r := SignalLeft();
    var m := r[|r| - 1].mem;
    r := Append(r, 0, TestStored, m);
    r := Append(r, 0, StorePending, m);
    assert r[|r| - 1].pc == [StorePending, Idle];
    StaleSignalExactly(r, |r| - 1, 0);
    q :| Linked(UnwokenStep, q) && q[0] == r[|r| - 1] && Interrupted(q, 0);
  }

  // ---------------------------------------------------------------- a wakeup with nobody selecting

  /** A wakeup is stored and no select has passed its entry test. */
  ghost predicate Stored(s: State) {
    && s.mem.wakeup && !s.mem.selectPending
    && forall t :: 0 <= t < |s.pc| && s.pc[t].Selecting() ==> s.pc[t].TestStored? || s.pc[t].ClearStored?
  }

  lemma LocalStored(free: bool, t: Tid, p: Pc, m: Memory, p': Pc, m': Memory)
    requires Local(free, t, p, m, p', m')
    requires m.wakeup && (p.Selecting() ==> p.TestStored? || p.ClearStored?)
    ensures p'.Selecting() ==> p'.TestStored? || p'.ClearStored?
    ensures m'.selectPending == m.selectPending
    ensures p.ClearStored? ==> p' == Finished(Count(0)) && !m'.wakeup
  {
  }

  lemma StepKeepsStored(s: State, t: Tid, s': State)
    requires t < |s.pc| && Step(s, t, s') && Stored(s)
    ensures Stored(s') <==> !s.pc[t].ClearStored?
    ensures s.pc[t].ClearStored? ==> s'.pc[t] == Finished(Count(0)) && !s'.mem.wakeup
  {
    LocalStored(NoSelector(s), t, s.pc[t], s.mem, s'.pc[t], s'.mem);
    LocalWakeup(NoSelector(s), t, s.pc[t], s.mem, s'.pc[t], s'.mem);
  }

  /** The step from s to s' is that of a doSelect that consumes the wakeup at its entry and returns 0. */
  ghost predicate Consumes(s: State, s': State) {
    && !s'.mem.wakeup
    && exists t: Tid :: t < |s.pc| && t < |s'.pc| && s.pc[t].ClearStored? && s'.pc[t] == Finished(Count(0))
  }

  /**
   A stored wakeup stays until a doSelect consumes it, and that doSelect returns 0 from its
   entry test, without having blocked.
   */
  lemma {:induction false} StoredWakeupWaits(r: seq<State>, i: nat, j: nat) returns (k: nat)
    requires IsPath(r) && i <= j < |r| && Stored(r[i])
    decreases j - i
    ensures i <= k <= j
    ensures forall l :: i <= l <= k ==> Stored(r[l])
    ensures k == j || Consumes(r[k], r[k + 1])
  {
    k := i;
    if i < j && !Consumes(r[i], r[i + 1]) {
      LinkAt(Next, r, i + 1);
      StoredOrConsumed(r[i], r[i + 1]);
      k := StoredWakeupWaits(r, i + 1, j);
    }
  }

  lemma StoredOrConsumed(s: State, s': State)
    requires Next(s, s') && Stored(s)
    ensures Stored(s') || Consumes(s, s')
  {
    var t: Tid :| t < |s.pc| && Step(s, t, s');
    StepKeepsStored(s, t, s');
    if s.pc[t].ClearStored? {
      assert s'.pc[t] == Finished(Count(0));
    }
  }
}
