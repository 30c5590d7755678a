/**
 The protocol between doRead, doWrite and doClose on one context of linux/SerialChannel.c.

 Any number of threads make any number of these calls.  A step is one access to the context's
 mutexes or to readThread, the end of a system call, or the delivery of SIGUSR1 to a thread.
 A readv ends when the port has something to return (data; anything at all in non-blocking
 mode), when the descriptor has been closed, or when SIGUSR1 interrupts it; a writev ends
 whenever the kernel lets it; close succeeds or fails, and a failed close takes the same
 unlocking steps.  Between its calls here a thread may also select, which blocks SIGUSR1 in it
 for good.
 */
module CloseProtocol {
  import opened Basics
  import opened Paths

  type Tid = nat

  datatype Pc =
    | Idle
    // doRead
    | LockRead
    | SetReadThread            // about to store its thread in readThread
    | InReadv
    | UnlockRead
    // doWrite
    | LockWrite
    | InWritev
    | UnlockWrite
    // doClose
    | TryRead                  // about to try readMutex
    | KillReader               // found it busy, about to signal readThread
    | Snooze
    | CloserLockWrite
    | InClose
    | CloserUnlockWrite
    | CloserUnlockRead
  {
    /** A doRead that has readMutex. */
    predicate ReaderHolds() {
      SetReadThread? || InReadv? || UnlockRead?
    }

    /** A doClose between its successful trylock and its unlocking of readMutex. */
    predicate CloserHolds() {
      CloserLockWrite? || InClose? || CloserUnlockWrite? || CloserUnlockRead?
    }

    predicate HoldsRead() {
      ReaderHolds() || CloserHolds()
    }

    predicate HoldsWrite() {
      InWritev? || UnlockWrite? || InClose? || CloserUnlockWrite?
    }

    /** In the try-signal-sleep loop of doClose. */
    predicate Spinning() {
      TryRead? || KillReader? || Snooze?
    }

    predicate Closing() {
      Spinning() || CloserHolds()
    }

    /** A doClose that has not yet called close. */
    predicate BeforeClose() {
      Spinning() || CloserLockWrite? || InClose?
    }

    /** Cannot go on before it has readMutex; spinning counts as waiting. */
    predicate WantsRead() {
      LockRead? || Spinning()
    }

    predicate WantsWrite() {
      LockWrite? || CloserLockWrite?
    }
  }

  datatype Memory = Memory(
    readMutex: Option<Tid>,
    writeMutex: Option<Tid>,
    readThread: Option<Tid>,   // None stands for the initial 0
    open: bool,                // the descriptor
    data: bool,                // readv has something to return
    signals: set<Tid>,         // threads with SIGUSR1 pending
    blocked: set<Tid>)         // threads that block SIGUSR1

  datatype State = State(pc: seq<Pc>, mem: Memory)

  const INITIAL_MEMORY := Memory(None, None, None, true, false, {}, {})

  ghost predicate Init(s: State) {
    && (forall t :: 0 <= t < |s.pc| ==> s.pc[t].Idle?)
    && s.mem == INITIAL_MEMORY
  }

  /** SIGUSR1 reaches thread t: its handler does nothing, but a readv is interrupted. */
  ghost predicate Delivered(t: Tid, p: Pc, m: Memory, p': Pc, m': Memory) {
    && t in m.signals && t !in m.blocked && m' == m.(signals := m.signals - {t})
    && p' == if p.InReadv? then UnlockRead else p
  }

  /** A whole doSelect of thread t; its pselect may take a pending SIGUSR1. */
  ghost predicate Selected(t: Tid, m: Memory, m': Memory) {
    m' == m.(blocked := m.blocked + {t}) || m' == m.(blocked := m.blocked + {t}, signals := m.signals - {t})
  }

  /** One step of the calls of thread t at p. */
  ghost predicate Own(t: Tid, p: Pc, m: Memory, p': Pc, m': Memory) {
    match p
    case Idle => (m' == m && (p' == LockRead || p' == LockWrite || p' == TryRead)) || (p' == Idle && Selected(t, m, m'))
    case LockRead => m.readMutex.None? && p' == SetReadThread && m' == m.(readMutex := Some(t))
    case SetReadThread => p' == InReadv && m' == m.(readThread := Some(t))
    case InReadv => (m.data || !m.open) && p' == UnlockRead && (m' == m || m' == m.(data := false))
    case UnlockRead => p' == Idle && m' == m.(readMutex := None)
    case LockWrite => m.writeMutex.None? && p' == InWritev && m' == m.(writeMutex := Some(t))
    case InWritev => p' == UnlockWrite && m' == m
    case UnlockWrite => p' == Idle && m' == m.(writeMutex := None)
    case TryRead =>
      if m.readMutex.Some? then p' == KillReader && m' == m
      else p' == CloserLockWrite && m' == m.(readMutex := Some(t))
    case KillReader =>
      p' == Snooze && m' == if m.readThread.Some? then m.(signals := m.signals + {m.readThread.value}) else m
    case Snooze => p' == TryRead && m' == m
    case CloserLockWrite => m.writeMutex.None? && p' == InClose && m' == m.(writeMutex := Some(t))
    case InClose => p' == CloserUnlockWrite && (m' == m || (m.open && m' == m.(open := false)))
    case CloserUnlockWrite => p' == CloserUnlockRead && m' == m.(writeMutex := None)
    case CloserUnlockRead => p' == Idle && m' == m.(readMutex := None)
  }

  ghost predicate Local(t: Tid, p: Pc, m: Memory, p': Pc, m': Memory) {
    Own(t, p, m, p', m') || Delivered(t, p, m, p', m')
  }

  ghost predicate Step(s: State, t: Tid, s': State)
    requires t < |s.pc|
  {
    && |s'.pc| == |s.pc|
    && (forall u :: 0 <= u < |s.pc| && u != t ==> s'.pc[u] == s.pc[u])
    && Local(t, s.pc[t], s.mem, s'.pc[t], s'.mem)
  }

  /** The port gets something for readv to return. */
  ghost predicate Arrives(s: State, s': State) {
    s' == s.(mem := s.mem.(data := true))
  }

  ghost predicate Next(s: State, s': State) {
    Arrives(s, s') || exists t: Tid :: t < |s.pc| && Step(s, t, s')
  }

  ghost predicate IsPath(r: seq<State>) {
    Linked(Next, r)
  }

  ghost predicate IsRun(r: seq<State>) {
    IsPath(r) && Init(r[0])
  }

  // ---------------------------------------------------------------- the invariant

  ghost predicate ReadMutexMatches(s: State) {
    && (s.mem.readMutex.Some? ==> s.mem.readMutex.value < |s.pc|)
    && forall t :: 0 <= t < |s.pc| ==> (s.pc[t].HoldsRead() <==> s.mem.readMutex == Some(t))
  }

  ghost predicate WriteMutexMatches(s: State) {
    && (s.mem.writeMutex.Some? ==> s.mem.writeMutex.value < |s.pc|)
    && forall t :: 0 <= t < |s.pc| ==> (s.pc[t].HoldsWrite() <==> s.mem.writeMutex == Some(t))
  }

  ghost predicate ReaderKnown(s: State) {
    forall t :: 0 <= t < |s.pc| && (s.pc[t].InReadv? || s.pc[t].UnlockRead?) ==> s.mem.readThread == Some(t)
  }

  ghost predicate Inv(s: State) {
    ReadMutexMatches(s) && WriteMutexMatches(s) && ReaderKnown(s)
  }

  // What a step does to its own program counter and to the mutexes.

  /** The step takes readMutex. */
  predicate TakesRead(p: Pc, m: Memory) {
    p.LockRead? || (p.TryRead? && m.readMutex.None?)
  }

  lemma OwnRead(t: Tid, p: Pc, m: Memory, p': Pc, m': Memory)
    requires Own(t, p, m, p', m')
    ensures m'.readMutex == if TakesRead(p, m) then Some(t)
        else if p.UnlockRead? || p.CloserUnlockRead? then None else m.readMutex
    ensures p'.HoldsRead() <==> TakesRead(p, m) || (p.HoldsRead() && !p.UnlockRead? && !p.CloserUnlockRead?)
    ensures TakesRead(p, m) ==> m.readMutex.None?
  {
  }

  lemma LocalRead(t: Tid, p: Pc, m: Memory, p': Pc, m': Memory)
    requires Local(t, p, m, p', m')
    requires p.HoldsRead() <==> m.readMutex == Some(t)
    ensures p'.HoldsRead() <==> m'.readMutex == Some(t)
    ensures m'.readMutex == m.readMutex || (m.readMutex.None? && m'.readMutex == Some(t)) ||
            (m.readMutex == Some(t) && m'.readMutex.None?)
  {
    if Own(t, p, m, p', m') {
      OwnRead(t, p, m, p', m');
    }
  }

  lemma OwnWrite(t: Tid, p: Pc, m: Memory, p': Pc, m': Memory)
    requires Own(t, p, m, p', m')
    ensures m'.writeMutex == if p.WantsWrite() then Some(t)
        else if p.UnlockWrite? || p.CloserUnlockWrite? then None else m.writeMutex
    ensures p'.HoldsWrite() <==> p.WantsWrite() || (p.HoldsWrite() && !p.UnlockWrite? && !p.CloserUnlockWrite?)
    ensures p.WantsWrite() ==> m.writeMutex.None?
  {
  }

  lemma LocalWrite(t: Tid, p: Pc, m: Memory, p': Pc, m': Memory)
    requires Local(t, p, m, p', m')
    requires p.HoldsWrite() <==> m.writeMutex == Some(t)
    ensures p'.HoldsWrite() <==> m'.writeMutex == Some(t)
    ensures m'.writeMutex == m.writeMutex || (m.writeMutex.None? && m'.writeMutex == Some(t)) ||
            (m.writeMutex == Some(t) && m'.writeMutex.None?)
  {
    if Own(t, p, m, p', m') {
      OwnWrite(t, p, m, p', m');
    }
  }

  lemma LocalReader(t: Tid, p: Pc, m: Memory, p': Pc, m': Memory)
    requires Local(t, p, m, p', m')
    ensures m'.readThread == if p.SetReadThread? && p'.InReadv? then Some(t) else m.readThread
    ensures p'.InReadv? || p'.UnlockRead? ==> p.SetReadThread? || p.InReadv? || p.UnlockRead?
    ensures p.SetReadThread? ==> p'.SetReadThread? || p'.InReadv?
  {
  }

  lemma StepKeepsInv(s: State, t: Tid, s': State)
    requires t < |s.pc| && Step(s, t, s') && Inv(s)
    ensures Inv(s')
  {
    LocalRead(t, s.pc[t], s.mem, s'.pc[t], s'.mem);
    LocalWrite(t, s.pc[t], s.mem, s'.pc[t], s'.mem);
    LocalReader(t, s.pc[t], s.mem, s'.pc[t], s'.mem);
    assert ReaderKnown(s') by {
      forall u | 0 <= u < |s.pc| && (s'.pc[u].InReadv? || s'.pc[u].UnlockRead?)
        ensures s'.mem.readThread == Some(u)
      {
        assert u != t ==> s.pc[u].HoldsRead();
      }
    }
  }

  lemma NextKeepsInv(s: State, s': State)
    requires Next(s, s') && Inv(s)
    ensures Inv(s') && |s'.pc| == |s.pc|
  {
    if !Arrives(s, s') {
      var t: Tid :| t < |s.pc| && Step(s, t, s');
      StepKeepsInv(s, t, s');
    }
  }

  lemma {:induction false} RunKeepsInv(r: seq<State>, i: nat)
    requires IsRun(r) && i < |r|
    ensures Inv(r[i]) && |r[i].pc| == |r[0].pc|
  {
    if i > 0 {
      RunKeepsInv(r, i - 1);
      NextKeepsInv(r[i - 1], r[i]);
    }
  }

  // ---------------------------------------------------------------- exclusion

  /**
   In every reachable state: no readv and no writev is in progress during a close, and at most
   one readv, one writev and one close are in progress at all.
   */
  lemma CloseExclusion(r: seq<State>, i: nat, t: Tid, u: Tid)
    requires IsRun(r) && i < |r| && t < |r[i].pc| && u < |r[i].pc| && t != u
    ensures var p, q := r[i].pc[t], r[i].pc[u];
      && (p.InClose? ==> !q.InReadv? && !q.InWritev? && !q.InClose?)
      && (p.InReadv? ==> !q.InReadv?)
      && (p.InWritev? ==> !q.InWritev?)
  {
    RunKeepsInv(r, i);
  }

  // ---------------------------------------------------------------- whom doClose signals

  ghost predicate SomeInReadv(s: State) {
    exists t :: 0 <= t < |s.pc| && s.pc[t].InReadv?
  }

  /** readThread names a thread in readv. */
  ghost predicate TargetInReadv(s: State) {
    s.mem.readThread.Some? && s.mem.readThread.value < |s.pc| && s.pc[s.mem.readThread.value].InReadv?
  }

  /** In every reachable state: a signal sent by doClose goes to a thread in readv exactly if there is one. */
  lemma KillReachesReader(r: seq<State>, i: nat)
    requires IsRun(r) && i < |r|
    ensures TargetInReadv(r[i]) <==> SomeInReadv(r[i])
  {
    RunKeepsInv(r, i);
  }

  /** Step j of r is a doRead's store of readThread. */
  ghost predicate StoresAt(r: seq<State>, j: nat)
    requires 0 < j < |r|
  {
    exists t: Tid :: t < |r[j - 1].pc| && t < |r[j].pc| && r[j - 1].pc[t].SetReadThread? && r[j].pc[t].InReadv?
  }

  /** readThread is still 0, so that doClose would signal no thread at all, exactly until the first doRead stores it. */
  lemma {:induction false} TargetExactlyAfterStore(r: seq<State>, i: nat)
    requires IsRun(r) && i < |r|
    ensures r[i].mem.readThread.None? <==> forall j: nat :: 0 < j <= i ==> !StoresAt(r, j)
  {
    if i > 0 {
      TargetExactlyAfterStore(r, i - 1);
      StoreSetsTarget(r, i);
    }
  }

  lemma StoreSetsTarget(r: seq<State>, i: nat)
    requires IsPath(r) && 0 < i < |r|
    ensures r[i].mem.readThread.None? <==> r[i - 1].mem.readThread.None? && !StoresAt(r, i)
  {
    LinkAt(Next, r, i);
    if !Arrives(r[i - 1], r[i]) {
      var t: Tid :| t < |r[i - 1].pc| && Step(r[i - 1], t, r[i]);
      LocalReader(t, r[i - 1].pc[t], r[i - 1].mem, r[i].pc[t], r[i].mem);
    }
  }

  /** A busy readMutex belongs to a doRead exactly if no doClose is between its trylock and its unlock. */
  lemma BusyIsReadExactly(r: seq<State>, i: nat)
    requires IsRun(r) && i < |r| && r[i].mem.readMutex.Some?
    ensures r[i].mem.readMutex.value < |r[i].pc|
    ensures r[i].pc[r[i].mem.readMutex.value].ReaderHolds() <==>
        forall t :: 0 <= t < |r[i].pc| ==> !r[i].pc[t].CloserHolds()
  {
    RunKeepsInv(r, i);
    assert r[i].pc[r[i].mem.readMutex.value].HoldsRead();
  }

  /** The next step of thread t appended to a path. */
  lemma Append(r: seq<State>, t: Tid, p': Pc, m': Memory) returns (r': seq<State>)
    requires IsPath(r) && t < |r[|r| - 1].pc| && Local(t, r[|r| - 1].pc[t], r[|r| - 1].mem, p', m')
    ensures r' == r + [State(r[|r| - 1].pc[t := p'], m')] && IsPath(r') && r'[0] == r[0]
  {
    var s := r[|r| - 1];
    var s' := State(s.pc[t := p'], m');
    assert Step(s, t, s') && Next(s, s');
    r' := r + [s'];
  }

  /** Two closes and no read: one signals readThread 0 because the other has the mutex. */
  lemma BusyWithoutReader() returns (r: seq<State>)
    ensures IsRun(r)
    ensures r[|r| - 1] == State([CloserLockWrite, KillReader], INITIAL_MEMORY.(readMutex := Some(0)))
  {
    r := [State([Idle, Idle], INITIAL_MEMORY)];
    r := Append(r, 0, TryRead, INITIAL_MEMORY);
    r := Append(r, 0, CloserLockWrite, INITIAL_MEMORY.(readMutex := Some(0)));
    r := Append(r, 1, TryRead, INITIAL_MEMORY.(readMutex := Some(0)));
    r := Append(r, 1, KillReader, INITIAL_MEMORY.(readMutex := Some(0)));
    assert r[|r| - 1].pc == [CloserLockWrite, KillReader];
  }

  /** One read and one close: the signal is sent before the read has stored its thread. */
  lemma KillBeforeStore() returns (r: seq<State>)
    ensures IsRun(r)
    ensures r[|r| - 1] == State([SetReadThread, KillReader], INITIAL_MEMORY.(readMutex := Some(0)))
  {
    r := [State([Idle, Idle], INITIAL_MEMORY)];
    r := Append(r, 0, LockRead, INITIAL_MEMORY);
    r := Append(r, 0, SetReadThread, INITIAL_MEMORY.(readMutex := Some(0)));
    r := Append(r, 1, TryRead, INITIAL_MEMORY.(readMutex := Some(0)));
    r := Append(r, 1, KillReader, INITIAL_MEMORY.(readMutex := Some(0)));
    assert r[|r| - 1].pc == [SetReadThread, KillReader];
  }

  /** The first of three threads has read, and has returned. */
  lemma OneRead() returns (r: seq<State>)
    ensures IsRun(r)
    ensures r[|r| - 1] == State([Idle, Idle, Idle], INITIAL_MEMORY.(readThread := Some(0)))
  {
    var m := INITIAL_MEMORY.(data := true);
    r := [State([Idle, Idle, Idle], INITIAL_MEMORY)];
    assert Arrives(r[0], State([Idle, Idle, Idle], m));
    r := r + [State([Idle, Idle, Idle], m)];
    r := Append(r, 0, LockRead, m);
    r := Append(r, 0, SetReadThread, m.(readMutex := Some(0)));
    m := m.(readThread := Some(0));
    r := Append(r, 0, InReadv, m.(readMutex := Some(0)));
    r := Append(r, 0, UnlockRead, m.(readMutex := Some(0), data := false));
    r := Append(r, 0, Idle, m.(data := false));
    assert r[|r| - 1].pc == [Idle, Idle, Idle];
  }

  /** The second thread is about to store its own readThread, and the third has found the mutex busy. */
  lemma ThenAnotherReads() returns (r: seq<State>)
    ensures IsRun(r)
    ensures var m := INITIAL_MEMORY.(readThread := Some(0), readMutex := Some(1));
      r[|r| - 1] == State([Idle, SetReadThread, KillReader], m)
  {
    var m := INITIAL_MEMORY.(readThread := Some(0));
    r := OneRead();
    r := Append(r, 1, LockRead, m);
    m := m.(readMutex := Some(1));
    r := Append(r, 1, SetReadThread, m);
    r := Append(r, 2, TryRead, m);
    r := Append(r, 2, KillReader, m);
    assert r[|r| - 1].pc == [Idle, SetReadThread, KillReader];
  }

  /** A thread that has read, and reads no longer, gets the signal that is meant for the next reader. */
  lemma KillOfFormerReader() returns (r: seq<State>)
    ensures IsRun(r)
    ensures var m := INITIAL_MEMORY.(readThread := Some(0), readMutex := Some(1), signals := {0});
      r[|r| - 1] == State([Idle, SetReadThread, Snooze], m)
  {
    r := ThenAnotherReads();
    r := Append(r, 2, Snooze, r[|r| - 1].mem.(signals := {0}));
    assert r[|r| - 1].pc == [Idle, SetReadThread, Snooze];
  }

  // ---------------------------------------------------------------- no deadlock

  /** Thread t waits for thread u. */
  ghost predicate WaitsFor(s: State, t: Tid, u: Tid) {
    && t < |s.pc|
    && ((s.pc[t].WantsRead() && s.mem.readMutex == Some(u)) || (s.pc[t].WantsWrite() && s.mem.writeMutex == Some(u)))
  }

  ghost predicate WaitChain(s: State, p: seq<Tid>) {
    |p| > 0 && forall k :: 0 < k < |p| ==> WaitsFor(s, p[k - 1], p[k])
  }

  /** Mutexes are taken in this order: readMutex, then writeMutex, then none. */
  function Rank(p: Pc): nat {
    if p.WantsRead() then 2 else if p.WantsWrite() then 1 else 0
  }

  lemma {:induction false} ChainDescends(s: State, p: seq<Tid>)
    requires Inv(s) && WaitChain(s, p) && |p| > 1
    ensures p[0] < |s.pc| && p[|p| - 1] < |s.pc|
    ensures Rank(s.pc[p[|p| - 1]]) + |p| - 1 <= Rank(s.pc[p[0]])
  {
    assert WaitsFor(s, p[0], p[1]);
    if |p| > 2 {
      assert forall k :: 0 < k < |p[1..]| ==>
               p[1..][k - 1] == p[k] && p[1..][k] == p[k + 1] && WaitsFor(s, p[k], p[k + 1]);
      ChainDescends(s, p[1..]);
    }
  }

  /** No reachable state has a cycle of waiting threads; no chain has more than two waits. */
  lemma NoCycle(r: seq<State>, i: nat, p: seq<Tid>)
    requires IsRun(r) && i < |r| && WaitChain(r[i], p) && |p| > 1
    ensures p[0] != p[|p| - 1] && |p| <= 3
  {
    RunKeepsInv(r, i);
    ChainDescends(r[i], p);
  }

  // ---------------------------------------------------------------- every call can finish

  /** An upper bound on the steps a call still needs once nobody stands in its way. */
  function Left(p: Pc): nat {
    match p
    case Idle => 0
    case UnlockRead => 1
    case InReadv => 2
    case SetReadThread => 3
    case LockRead => 4
    case UnlockWrite => 1
    case InWritev => 2
    case LockWrite => 3
    case CloserUnlockRead => 1
    case CloserUnlockWrite => 2
    case InClose => 3
    case CloserLockWrite => 4
    case TryRead => 5
    case Snooze => 6
    case KillReader => 7
  }

  function Work(pc: seq<Pc>): nat {
    if |pc| == 0 then 0 else Left(pc[0]) + Work(pc[1..])
  }

  lemma {:induction false} WorkDrops(pc: seq<Pc>, t: Tid, p': Pc)
    requires t < |pc| && Left(p') < Left(pc[t])
    ensures Work(pc[t := p']) < Work(pc)
  {
    if t > 0 {
      WorkDrops(pc[1..], t - 1, p');
      assert pc[t := p'][1..] == pc[1..][t - 1 := p'];
    } else {
      assert pc[t := p'][1..] == pc[1..];
    }
  }

  ghost predicate AllIdle(s: State) {
    forall t :: 0 <= t < |s.pc| ==> s.pc[t].Idle?
  }

  /** The next step of a call that nothing keeps waiting. */
  function NextPc(p: Pc): Pc {
    match p
    case LockRead => SetReadThread
    case SetReadThread => InReadv
    case InReadv => UnlockRead
    case LockWrite => InWritev
    case InWritev => UnlockWrite
    case TryRead => CloserLockWrite
    case KillReader => Snooze
    case Snooze => TryRead
    case CloserLockWrite => InClose
    case InClose => CloserUnlockWrite
    case CloserUnlockWrite => CloserUnlockRead
    case _ => Idle
  }

  function NextMemory(t: Tid, p: Pc, m: Memory): Memory {
    match p
    case LockRead => m.(readMutex := Some(t))
    case TryRead => m.(readMutex := Some(t))
    case SetReadThread => m.(readThread := Some(t))
    case UnlockRead => m.(readMutex := None)
    case CloserUnlockRead => m.(readMutex := None)
    case LockWrite => m.(writeMutex := Some(t))
    case CloserLockWrite => m.(writeMutex := Some(t))
    case UnlockWrite => m.(writeMutex := None)
    case CloserUnlockWrite => m.(writeMutex := None)
    case InClose => m.(open := false)
    case KillReader => if m.readThread.Some? then m.(signals := m.signals + {m.readThread.value}) else m
    case _ => m
  }

  lemma Advance(t: Tid, p: Pc, m: Memory)
    requires !p.Idle?
    requires p.InReadv? ==> m.data || !m.open
    requires p.WantsRead() ==> m.readMutex.None?
    requires p.WantsWrite() ==> m.writeMutex.None?
    ensures Own(t, p, m, NextPc(p), NextMemory(t, p, m)) && Left(NextPc(p)) < Left(p)
  {
  }

  /** The state after the next step of thread t. */
  function Advanced(s: State, t: Tid): State
    requires t < |s.pc|
  {
    State(s.pc[t := NextPc(s.pc[t])], NextMemory(t, s.pc[t], s.mem))
  }

  /** Whoever waits, somebody it waits for can go on. */
  lemma SomeoneAdvances(s: State) returns (t: Tid)
    requires Inv(s) && !AllIdle(s) && s.mem.data
    ensures t < |s.pc| && Step(s, t, Advanced(s, t)) && Work(Advanced(s, t).pc) < Work(s.pc) && Advanced(s, t).mem.data
  {
    if s.mem.writeMutex.Some? {
      t := s.mem.writeMutex.value;
      assert s.pc[t].HoldsWrite();
    } else if s.mem.readMutex.Some? {
      t := s.mem.readMutex.value;
      assert s.pc[t].HoldsRead();
    } else {
      t :| t < |s.pc| && !s.pc[t].Idle?;
    }
    Advance(t, s.pc[t], s.mem);
    WorkDrops(s.pc, t, NextPc(s.pc[t]));
  }

  lemma {:induction false} FinishFrom(s: State) returns (q: seq<State>)
    requires Inv(s) && s.mem.data
    ensures IsPath(q) && q[0] == s && AllIdle(q[|q| - 1])
    decreases Work(s.pc)
  {
    if AllIdle(s) {
      q := [s];
    } else {
      var t := SomeoneAdvances(s);
      StepKeepsInv(s, t, Advanced(s, t));
      q := FinishFrom(Advanced(s, t));
      LinkFront(Next, s, q);
      q := [s] + q;
    }
  }

  /**
   Freedom from deadlock: with data for the reads, every reachable state can be continued until
   all calls in progress, the closes among them, have returned.
   */
  lemma EveryCallCanFinish(r: seq<State>, i: nat) returns (q: seq<State>)
    requires IsRun(r) && i < |r|
    ensures IsPath(q) && q[0] == r[i] && AllIdle(q[|q| - 1])
  {
    RunKeepsInv(r, i);
    var s := r[i].(mem := r[i].mem.(data := true));
    NextKeepsInv(r[i], s);
    q := FinishFrom(s);
    LinkFront(Next, r[i], q);
    q := [r[i]] + q;
  }

  /** A close can fail: it then gives back both mutexes and returns with the descriptor as it was. */
  lemma CloseCanFail(s: State, c: Tid) returns (q: seq<State>)
    requires Inv(s) && c < |s.pc| && s.pc[c].InClose?
    ensures IsPath(q) && q[0] == s
    ensures q[|q| - 1] == State(s.pc[c := Idle], s.mem.(readMutex := None, writeMutex := None))
  {
    q := [s];
    q := Append(q, c, CloserUnlockWrite, s.mem);
    q := Append(q, c, CloserUnlockRead, s.mem.(writeMutex := None));
    q := Append(q, c, Idle, s.mem.(readMutex := None, writeMutex := None));
    assert q[|q| - 1].pc == s.pc[c := Idle];
  }

  // ---------------------------------------------------------------- closing a silent port

  /** A path on which the port stays silent. */
  ghost predicate IsSilent(q: seq<State>) {
    IsPath(q) && forall i :: 0 <= i < |q| ==> !q[i].mem.data
  }

  /** Thread u is on its way into a readv of an open port, or in it, and blocks SIGUSR1. */
  ghost predicate Deaf(s: State, u: Tid) {
    s.mem.open && u < |s.pc| && u in s.mem.blocked && (s.pc[u].SetReadThread? || s.pc[u].InReadv?)
  }

  ghost predicate SomeDeaf(s: State) {
    exists u: Tid :: Deaf(s, u)
  }

  // A deaf reader of a silent port never leaves its readv, and no close gets past it.

  lemma LocalDeaf(t: Tid, p: Pc, m: Memory, p': Pc, m': Memory)
    requires Local(t, p, m, p', m')
    ensures m.blocked <= m'.blocked
    ensures p.SetReadThread? ==> p'.SetReadThread? || p'.InReadv?
    ensures p.InReadv? && t in m.blocked && !m.data && m.open ==> p'.InReadv?
    ensures m'.open || !m.open || p.InClose?
    ensures p.Spinning() && m.readMutex.Some? ==> p'.Spinning()
  {
  }

  lemma StaysDeaf(s: State, s': State, u: Tid, c: Tid)
    requires Inv(s) && Next(s, s') && !s.mem.data && !s'.mem.data
    requires Deaf(s, u) && c < |s.pc| && s.pc[c].Spinning()
    ensures |s'.pc| == |s.pc| && Deaf(s', u) && s'.pc[c].Spinning()
  {
    var t: Tid :| t < |s.pc| && Step(s, t, s');
    LocalDeaf(t, s.pc[t], s.mem, s'.pc[t], s'.mem);
    assert s.pc[u].HoldsRead() && s.mem.readMutex == Some(u);
    assert s.pc[t].InClose? ==> s.pc[t].HoldsRead();
  }

  lemma {:induction false} NeverReturns(q: seq<State>, i: nat, u: Tid, c: Tid)
    requires IsSilent(q) && i < |q| && Inv(q[0]) && Deaf(q[0], u) && c < |q[0].pc| && q[0].pc[c].Spinning()
    ensures Inv(q[i]) && |q[i].pc| == |q[0].pc| && Deaf(q[i], u) && q[i].pc[c].Spinning()
  {
    if i > 0 {
      NeverReturns(q, i - 1, u, c);
      StaysDeaf(q[i - 1], q[i], u, c);
      NextKeepsInv(q[i - 1], q[i]);
    }
  }

  // Without one the close can be brought to its end, by its signal if need be.

  /** The thread in readv that would have to be interrupted: open port, SIGUSR1 not yet pending. */
  ghost predicate NeedsKill(s: State, u: Tid) {
    u < |s.pc| && s.pc[u].InReadv? && s.mem.open && u !in s.mem.signals
  }

  /** The other call that has readMutex. */
  ghost predicate InTheWay(s: State, c: Tid, u: Tid) {
    s.mem.readMutex == Some(u) && u != c && u < |s.pc|
  }

  /** The steps of the call that has readMutex in place of thread c. */
  ghost function OwnerLeft(s: State, c: Tid): nat {
    if s.mem.readMutex.Some? && InTheWay(s, c, s.mem.readMutex.value) then Left(s.pc[s.mem.readMutex.value]) else 0
  }

  /** The steps of thread c to its signal, while that is needed; otherwise to its return. */
  ghost function CloserLeft(s: State, c: Tid): nat
    requires c < |s.pc|
  {
    if OwnerLeft(s, c) == 0 then Left(s.pc[c])
    else if !NeedsKill(s, s.mem.readMutex.value) then 0
    else match s.pc[c]
      case KillReader => 1
      case TryRead => 2
      case _ => 3
  }

  /** The steps of a write in progress. */
  ghost function WriterLeft(s: State): nat {
    if s.mem.writeMutex.Some? && s.mem.writeMutex.value < |s.pc| then Left(s.pc[s.mem.writeMutex.value]) else 0
  }

  /** Nearer to the return of the close of thread c. */
  ghost predicate Nearer(s': State, s: State, c: Tid)
    requires c < |s.pc| && c < |s'.pc|
  {
    || OwnerLeft(s', c) < OwnerLeft(s, c)
    || (OwnerLeft(s', c) == OwnerLeft(s, c) && CloserLeft(s', c) < CloserLeft(s, c))
    || (OwnerLeft(s', c) == OwnerLeft(s, c) && CloserLeft(s', c) == CloserLeft(s, c) && WriterLeft(s') < WriterLeft(s))
  }

  /** What a step towards the return of the close of thread c keeps. */
  ghost predicate Approach(s: State, c: Tid, t: Tid, s': State) {
    && t < |s.pc| && c < |s.pc| && Step(s, t, s') && !s.pc[t].Idle?
    && !s'.mem.data && !SomeDeaf(s')
    && (s'.pc[c].Closing() || s'.pc[c].Idle?)
    && (s.pc[c].BeforeClose() || !s.mem.open ==> s'.pc[c].BeforeClose() || !s'.mem.open)
    && Nearer(s', s, c)
  }

  /** The write that keeps a close waiting goes on. */
  lemma WriterApproaches(s: State, c: Tid) returns (t: Tid)
    requires Inv(s) && c < |s.pc| && s.pc[c].Closing() && !s.mem.data && !SomeDeaf(s)
    requires s.mem.writeMutex.Some? && !s.pc[s.mem.writeMutex.value].CloserHolds()
    ensures t < |s.pc| && Approach(s, c, t, Advanced(s, t))
  {
    t := s.mem.writeMutex.value;
    assert s.pc[t].HoldsWrite() && !s.pc[t].HoldsRead();
    Advance(t, s.pc[t], s.mem);
    var s' := Advanced(s, t);
    assert forall u: Tid :: Deaf(s', u) ==> Deaf(s, u);
  }

  /** The call that has readMutex goes on. */
  lemma OwnerApproaches(s: State, c: Tid) returns (t: Tid, s': State)
    requires Inv(s) && c < |s.pc| && s.pc[c].Closing() && !s.mem.data && !SomeDeaf(s)
    requires s.mem.readMutex.Some? && InTheWay(s, c, s.mem.readMutex.value) && !NeedsKill(s, s.mem.readMutex.value)
    requires s.pc[s.mem.readMutex.value].CloserLockWrite? ==> s.mem.writeMutex.None?
    ensures Approach(s, c, t, s')
  {
    t := s.mem.readMutex.value;
    assert s.pc[t].HoldsRead();
    if s.pc[t].InReadv? && s.mem.open {
      assert !Deaf(s, t);
      s' := State(s.pc[t := UnlockRead], s.mem.(signals := s.mem.signals - {t}));
      assert Delivered(t, s.pc[t], s.mem, s'.pc[t], s'.mem);
    } else {
      Advance(t, s.pc[t], s.mem);
      s' := Advanced(s, t);
    }
    assert forall u: Tid :: Deaf(s', u) ==> Deaf(s, u);
  }

  /** The close goes through its loop until it has signalled the thread in readv. */
  lemma KillerApproaches(s: State, c: Tid) returns (s': State)
    requires Inv(s) && c < |s.pc| && s.pc[c].Spinning() && !s.mem.data && !SomeDeaf(s)
    requires s.mem.readMutex.Some? && InTheWay(s, c, s.mem.readMutex.value) && NeedsKill(s, s.mem.readMutex.value)
    ensures Approach(s, c, c, s')
  {
    if s.pc[c].TryRead? {
      s' := State(s.pc[c := KillReader], s.mem);
    } else {
      s' := Advanced(s, c);
    }
    assert Own(c, s.pc[c], s.mem, s'.pc[c], s'.mem);
    assert forall u: Tid :: Deaf(s', u) ==> Deaf(s, u);
  }

  /** With nobody in its way the close itself goes on. */
  lemma CloserApproaches(s: State, c: Tid)
    requires Inv(s) && c < |s.pc| && s.pc[c].Closing() && !s.mem.data && !SomeDeaf(s)
    requires OwnerLeft(s, c) == 0 && (s.pc[c].CloserLockWrite? ==> s.mem.writeMutex.None?)
    ensures Approach(s, c, c, Advanced(s, c))
  {
    if s.mem.readMutex.Some? {
      assert s.pc[s.mem.readMutex.value].HoldsRead();
    }
    Advance(c, s.pc[c], s.mem);
    var s' := Advanced(s, c);
    assert forall u: Tid :: Deaf(s', u) ==> Deaf(s, u);
  }

  /** One step nearer to the return of the close of thread c. */
  lemma SomeoneApproaches(s: State, c: Tid) returns (t: Tid, s': State)
    requires Inv(s) && c < |s.pc| && s.pc[c].Closing() && !s.mem.data && !SomeDeaf(s)
    ensures Approach(s, c, t, s')
  {
    var owner := if s.mem.readMutex.Some? then s.mem.readMutex.value else c;
    assert s.mem.readMutex.Some? ==> owner < |s.pc| && s.pc[owner].HoldsRead();
    if s.pc[owner].CloserLockWrite? && s.mem.writeMutex.Some? {
      assert s.pc[s.mem.writeMutex.value].HoldsWrite();
      t := WriterApproaches(s, c);
      s' := Advanced(s, t);
    } else if owner == c {
      t, s' := c, Advanced(s, c);
      CloserApproaches(s, c);
    } else if NeedsKill(s, owner) {
      t := c;
      s' := KillerApproaches(s, c);
    } else {
      t, s' := OwnerApproaches(s, c);
    }
  }

  /** No data arrives and no new call begins. */
  ghost predicate IsQuiet(q: seq<State>) {
    IsSilent(q) && Linked(QuietStep, q)
  }

  ghost predicate QuietStep(s: State, s': State) {
    exists t: Tid :: t < |s.pc| && Step(s, t, s') && !s.pc[t].Idle?
  }

  lemma QuietCons(s: State, q: seq<State>)
    requires IsQuiet(q) && QuietStep(s, q[0]) && !s.mem.data
    ensures IsQuiet([s] + q)
  {
    assert Next(s, q[0]);
    LinkFront(Next, s, q);
    LinkFront(QuietStep, s, q);
  }

  /** The close of thread c returns; if it had not yet called close, the descriptor is closed. */
  lemma {:induction false} CloseReturns(s: State, c: Tid) returns (q: seq<State>)
    requires Inv(s) && c < |s.pc| && (s.pc[c].Closing() || s.pc[c].Idle?) && !s.mem.data && !SomeDeaf(s)
    ensures IsQuiet(q) && q[0] == s && Returned(q, c)
    ensures s.pc[c].BeforeClose() || !s.mem.open ==> !q[|q| - 1].mem.open
    decreases OwnerLeft(s, c), CloserLeft(s, c), WriterLeft(s)
  {
    if s.pc[c].Idle? {
      q := [s];
    } else {
      var t, s' := SomeoneApproaches(s, c);
      StepKeepsInv(s, t, s');
      q := CloseReturns(s', c);
      QuietCons(s, q);
      q := [s] + q;
    }
  }

  ghost predicate Returned(q: seq<State>, c: Tid) {
    |q| > 0 && c < |q[|q| - 1].pc| && q[|q| - 1].pc[c].Idle?
  }

  /**
   Closing a silent port, exactly: from a reachable state in which thread c is in doClose, the
   port can stay silent and c return, even without any new call, if and only if no thread that
   blocks SIGUSR1 is in a readv of the open port or about to be.
   */
  lemma CloseReturnsExactly(r: seq<State>, i: nat, c: Tid)
    requires IsRun(r) && i < |r| && c < |r[i].pc| && r[i].pc[c].Closing() && !r[i].mem.data
    ensures (exists q :: IsSilent(q) && q[0] == r[i] && Returned(q, c)) <==> !SomeDeaf(r[i])
    ensures (exists q :: IsQuiet(q) && q[0] == r[i] && Returned(q, c)) <==> !SomeDeaf(r[i])
  {
    RunKeepsInv(r, i);
    if SomeDeaf(r[i]) {
      var u: Tid :| Deaf(r[i], u);
      assert r[i].pc[u].HoldsRead() && r[i].pc[c].Spinning();
      forall q | IsSilent(q) && q[0] == r[i] ensures !Returned(q, c) {
        NeverReturns(q, |q| - 1, u, c);
      }
    } else {
      var q := CloseReturns(r[i], c);
    }
  }

  /** The first of two threads has selected, and is now in a readv of a silent port. */
  lemma SelectedThenReads() returns (r: seq<State>)
    ensures IsRun(r)
    ensures r[|r| - 1] == State([InReadv, Idle], INITIAL_MEMORY.(blocked := {0}, readMutex := Some(0),
        readThread := Some(0)))
  {
    var m := INITIAL_MEMORY.(blocked := {0});
    r := [State([Idle, Idle], INITIAL_MEMORY)];
    r := Append(r, 0, Idle, m);
    r := Append(r, 0, LockRead, m);
    r := Append(r, 0, SetReadThread, m.(readMutex := Some(0)));
    r := Append(r, 0, InReadv, m.(readMutex := Some(0), readThread := Some(0)));
    assert r[|r| - 1].pc == [InReadv, Idle];
  }

  /** It cannot be interrupted: another thread's close has signalled it, and spins for as long as the port is silent. */
  lemma DeafReader() returns (r: seq<State>)
    ensures IsRun(r)
    ensures var m := INITIAL_MEMORY.(blocked := {0}, readMutex := Some(0), readThread := Some(0), signals := {0});
      r[|r| - 1] == State([InReadv, Snooze], m)
    ensures forall q :: IsSilent(q) && q[0] == r[|r| - 1] ==> !Returned(q, 1)
  {
    r := SelectedThenReads();
    var m := r[|r| - 1].mem;
    r := Append(r, 1, TryRead, m);
    r := Append(r, 1, KillReader, m);
    r := Append(r, 1, Snooze, m.(signals := {0}));
    assert r[|r| - 1].pc == [InReadv, Snooze] && Deaf(r[|r| - 1], 0);
    CloseReturnsExactly(r, |r| - 1, 1);
  }
}
