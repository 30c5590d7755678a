/**
 doSelect of win/SerialChannel/SerialChannel/SerialChannel.cpp: an event for every channel, a
 wait for those that are not signalled at once, and the contexts of ready channels zeroed.
 What the system calls answer is given for each entry.
 */
module WinSelect {
  import opened Basics

  const MAXIMUM_WAIT_OBJECTS: nat := 64
  const INFINITE: nat := 0xFFFF_FFFF

  /** WaitCommEvent: true at once, ERROR_IO_PENDING, ERROR_INVALID_PARAMETER, another error. */
  datatype CommEvent = Immediate | Pending | InvalidParameter | Broken

  /** GetOverlappedResult: true, ERROR_IO_INCOMPLETE with the answer of CancelIo, another error. */
  datatype Overlapped = Done | Incomplete(cancelled: bool) | Lost

  /** What the system answers for one channel. */
  datatype Entry = Entry(maskSet: bool, eventCreated: bool, event: CommEvent, result: Overlapped) {
    predicate Starts() {
      maskSet && eventCreated && (event.Immediate? || event.Pending?)
    }

    predicate Finishes() {
      result.Done? || (result.Incomplete? && result.cancelled)
    }
  }

  /** WaitForMultipleObjects. */
  datatype WaitResult = Timeout | WaitFailed | Signalled

  /** How the call ends: with its count, with 0 because of a wakeup, or with an exception. */
  datatype End = Returned(count: nat) | WokenUp | Raised

  /** The event handles of one call, numbered as they are created, and the log of their closing. */
  class Events {
    var created: nat
    var closed: seq<nat>

    constructor ()
      ensures created == 0 && closed == []
    {
      created, closed := 0, [];
    }

    method Create() returns (h: nat)
      modifies `created
      ensures h == old(created) && created == old(created) + 1
    {
      h, created := created, created + 1;
    }

    method Close(h: nat)
      modifies `closed
      ensures closed == old(closed) + [h]
    {
      closed := closed + [h];
    }

    /** The loop that closed all handles that were waited for. */
    method CloseAll(waits: array<nat>, waitCount: nat)
      requires waitCount <= waits.Length
      modifies `closed
      ensures closed == old(closed) + waits[..waitCount]
    {
      for ii := 0 to waitCount
        invariant closed == old(closed) + waits[..ii]
      {
        assert waits[..ii + 1] == waits[..ii] + [waits[ii]];
        Close(waits[ii]);
      }
    }
  }

  ghost predicate Increasing(s: seq<nat>) {
    forall i, j :: 0 <= i < j < |s| ==> s[i] < s[j]
  }

  /** How often h was closed. */
  function Count(closed: seq<nat>, h: nat): nat {
    if |closed| == 0 then 0 else Count(closed[..|closed| - 1], h) + if closed[|closed| - 1] == h then 1 else 0
  }

  lemma {:induction false} CountAppend(a: seq<nat>, b: seq<nat>, h: nat)
    ensures Count(a + b, h) == Count(a, h) + Count(b, h)
  {
    if |b| == 0 {
      assert a + b == a;
    } else {
      CountAppend(a, b[..|b| - 1], h);
      assert (a + b)[..|a + b| - 1] == a + b[..|b| - 1];
    }
  }

  lemma {:induction false} CountOnce(closed: seq<nat>, h: nat)
    requires Increasing(closed)
    ensures Count(closed, h) == if h in closed then 1 else 0
  {
    if |closed| > 0 {
      var n := |closed| - 1;
      CountOnce(closed[..n], h);
      assert closed == closed[..n] + [closed[n]];
      assert closed[n] !in closed[..n];
    }
  }

  lemma {:induction false} CountPositive(closed: seq<nat>, i: nat)
    requires i < |closed|
    ensures Count(closed, closed[i]) > 0
  {
    if i < |closed| - 1 {
      CountPositive(closed[..|closed| - 1], i);
    }
  }

  // ---------------------------------------------------------------- the entries by kind

  /** The entries before n that are signalled at once. */
  ghost function AtOnce(env: seq<Entry>, n: nat): set<nat>
    requires n <= |env|
  {
    set i | 0 <= i < n && env[i].event.Immediate?
  }

  /** The same, in the order in which their handles are closed. */
  function AtOnceInOrder(env: seq<Entry>, n: nat): (a: seq<nat>)
    requires n <= |env|
    ensures forall i :: 0 <= i < |a| ==> a[i] < n
  {
    if n == 0 then [] else AtOnceInOrder(env, n - 1) + if env[n - 1].event.Immediate? then [n - 1] else []
  }

  /** The entries before n that are waited for, in order: what index[] holds. */
  function Waiting(env: seq<Entry>, n: nat): (w: seq<nat>)
    requires n <= |env|
    ensures |w| <= n && forall i :: 0 <= i < |w| ==> w[i] < n
  {
    if n == 0 then [] else Waiting(env, n - 1) + if env[n - 1].event.Pending? then [n - 1] else []
  }

  lemma {:induction false} WaitingIncreases(env: seq<Entry>, n: nat)
    requires n <= |env|
    ensures Increasing(Waiting(env, n))
    ensures forall h: nat :: h in Waiting(env, n) <==> h < n && env[h].event.Pending?
  {
    if n > 0 {
      WaitingIncreases(env, n - 1);
    }
  }

  lemma {:induction false} AtOnceIncreases(env: seq<Entry>, n: nat)
    requires n <= |env|
    ensures Increasing(AtOnceInOrder(env, n))
    ensures forall h: nat :: h in AtOnceInOrder(env, n) <==> h < n && env[h].event.Immediate?
  {
    if n > 0 {
      AtOnceIncreases(env, n - 1);
    }
  }

  /** Each handle of the entries before n that started is in one of the two orders, once. */
  lemma BothOrdersCount(env: seq<Entry>, n: nat, h: nat)
    requires n <= |env| && forall i :: 0 <= i < n ==> env[i].Starts()
    ensures Count(AtOnceInOrder(env, n), h) == if h < n && env[h].event.Immediate? then 1 else 0
    ensures Count(AtOnceInOrder(env, n) + Waiting(env, n), h) == if h < n then 1 else 0
  {
    AtOnceIncreases(env, n);
    WaitingIncreases(env, n);
    CountOnce(AtOnceInOrder(env, n), h);
    CountOnce(Waiting(env, n), h);
    CountAppend(AtOnceInOrder(env, n), Waiting(env, n), h);
  }

  lemma {:induction false} KindsAddUp(env: seq<Entry>, n: nat)
    requires n <= |env| && forall i :: 0 <= i < n ==> env[i].Starts()
    ensures |AtOnce(env, n)| + |Waiting(env, n)| == n
  {
    if n > 0 {
      KindsAddUp(env, n - 1);
      if env[n - 1].event.Immediate? {
        assert AtOnce(env, n) == AtOnce(env, n - 1) + {n - 1};
      } else {
        assert AtOnce(env, n) == AtOnce(env, n - 1);
      }
    }
  }

  /** Immediate and waiting entries partition all entries, and index[] is strictly increasing. */
  lemma Partition(env: seq<Entry>, n: nat)
    requires n <= |env| && forall i :: 0 <= i < n ==> env[i].Starts()
    ensures |AtOnce(env, n)| + |Waiting(env, n)| == n
    ensures forall i :: 0 <= i < n ==> (i in AtOnce(env, n) <==> i !in Waiting(env, n))
    ensures Increasing(Waiting(env, n))
  {
    KindsAddUp(env, n);
    WaitingIncreases(env, n);
  }

  /** The first entry, from i on, whose system calls do not let the first loop go on. */
  function Stop(env: seq<Entry>, i: nat): (p: nat)
    requires i <= |env|
    ensures i <= p <= |env|
    ensures forall j :: i <= j < p ==> env[j].Starts()
    ensures p < |env| ==> !env[p].Starts()
    decreases |env| - i
  {
    if i == |env| || !env[i].Starts() then i else Stop(env, i + 1)
  }

  /** The first waited-for entry, from position q on, whose completion fails. */
  function Fault(env: seq<Entry>, w: seq<nat>, q: nat): (p: nat)
    requires q <= |w| && forall i :: 0 <= i < |w| ==> w[i] < |env|
    ensures q <= p <= |w|
    ensures forall j :: q <= j < p ==> env[w[j]].Finishes()
    ensures p < |w| ==> !env[w[p]].Finishes()
    decreases |w| - q
  {
    if q == |w| || !env[w[q]].Finishes() then q else Fault(env, w, q + 1)
  }

  // ---------------------------------------------------------------- the contexts

  /** The contexts after the entries chosen by ready have been zeroed. */
  function Zeroed(ctx: seq<int>, ready: set<nat>): (after: seq<int>)
    ensures |after| == |ctx|
    ensures forall i :: 0 <= i < |ctx| ==> after[i] == if i in ready then 0 else ctx[i]
  {
    seq(|ctx|, i requires 0 <= i < |ctx| => if i in ready then 0 else ctx[i])
  }

  /** The waited-for entries before position q that are done. */
  ghost function ReadyAfterWait(env: seq<Entry>, w: seq<nat>, q: nat): set<nat>
    requires q <= |w| && forall i :: 0 <= i < |w| ==> w[i] < |env|
  {
    set j | 0 <= j < q && env[w[j]].result.Done? :: w[j]
  }

  // ---------------------------------------------------------------- the first loop

  /** The state of the first loop at entry n. */
  ghost predicate StartedUpTo(env: seq<Entry>, n: nat, ctx0: seq<int>, ctx: seq<int>, index: seq<nat>, waits: seq<nat>,
                              count: nat, created: nat, closed: seq<nat>)
    requires n <= |env|
  {
    && index == waits == Waiting(env, n)
    && ctx == Zeroed(ctx0, AtOnce(env, n))
    && count == |AtOnce(env, n)|
    && created == n && closed == AtOnceInOrder(env, n)
  }

  lemma StartedPending(env: seq<Entry>, n: nat, ctx0: seq<int>, ctx: seq<int>, index: seq<nat>, waits: seq<nat>,
                       count: nat, created: nat, closed: seq<nat>)
    requires n < |env| && env[n].event.Pending?
    requires StartedUpTo(env, n, ctx0, ctx, index, waits, count, created, closed)
    ensures StartedUpTo(env, n + 1, ctx0, ctx, index + [n], waits + [n], count, created + 1, closed)
  {
    assert AtOnce(env, n + 1) == AtOnce(env, n);
  }

  lemma StartedImmediate(env: seq<Entry>, n: nat, ctx0: seq<int>, ctx: seq<int>, index: seq<nat>, waits: seq<nat>,
                         count: nat, created: nat, closed: seq<nat>)
    requires n < |env| && n < |ctx| && env[n].event.Immediate?
    requires StartedUpTo(env, n, ctx0, ctx, index, waits, count, created, closed)
    ensures StartedUpTo(env, n + 1, ctx0, ctx[n := 0], index, waits, count + 1, created + 1, closed + [n])
  {
    assert AtOnce(env, n + 1) == AtOnce(env, n) + {n};
    assert Waiting(env, n + 1) == Waiting(env, n);
  }

  /** The end of a round of the first loop: WaitCommEvent was pending, or true at once. */
  method StartEntry(ctxArr: array<int>, len: nat, env: seq<Entry>, index: array<nat>, waits: array<nat>, events: Events,
                    ii: nat, h: nat, waitCount: nat, count: nat, ghost ctx0: seq<int>)
    returns (waitCount': nat, count': nat)
    requires ii < len == |env| <= MAXIMUM_WAIT_OBJECTS && len <= ctxArr.Length && h == ii && waitCount <= ii
    requires index != waits && index.Length == waits.Length == MAXIMUM_WAIT_OBJECTS
    requires env[ii].Starts() && events.created == ii + 1
    requires StartedUpTo(env, ii, ctx0, ctxArr[..len], index[..waitCount], waits[..waitCount], count, ii, events.closed)
    modifies ctxArr, index, waits, events`closed
    ensures waitCount' <= ii + 1
    ensures StartedUpTo(env, ii + 1, ctx0, ctxArr[..len], index[..waitCount'], waits[..waitCount'],
                        count', events.created, events.closed)
    ensures ctxArr[len..] == old(ctxArr[len..])
  {
    waitCount', count' := waitCount, count;
    if env[ii].event.Pending? {
      StartedPending(env, ii, ctx0, ctxArr[..len], index[..waitCount], waits[..waitCount], count, ii, events.closed);
      index[waitCount] := ii;
      waits[waitCount] := h;
      waitCount' := waitCount + 1;
      assert index[..waitCount'] == old(index[..waitCount]) + [ii];
      assert waits[..waitCount'] == old(waits[..waitCount]) + [ii];
    } else {
      StartedImmediate(env, ii, ctx0, ctxArr[..len], index[..waitCount], waits[..waitCount], count, ii, events.closed);
      events.Close(h);
      ctxArr[ii] := 0;
      count' := count + 1;
      assert ctxArr[..len] == old(ctxArr[..len])[ii := 0];
    }
  }

  /** The first loop; None if it ran to its end. */
  method StartWaits(ctxArr: array<int>, len: nat, env: seq<Entry>, index: array<nat>, waits: array<nat>, events: Events)
    returns (end: Option<End>, waitCount: nat, count: nat)
    requires len == |env| <= MAXIMUM_WAIT_OBJECTS && len <= ctxArr.Length
    requires index != waits && index.Length == waits.Length == MAXIMUM_WAIT_OBJECTS
    requires events.created == 0 && events.closed == []
    modifies ctxArr, index, waits, events
    ensures var p := Stop(env, 0);
      && waitCount <= MAXIMUM_WAIT_OBJECTS
      && (end.None? <==> p == len)
      && (p == len ==> StartedUpTo(env, p, old(ctxArr[..len]), ctxArr[..len], index[..waitCount], waits[..waitCount],
                                   count, events.created, events.closed))
      && (p < len ==>
            var e := env[p];
            && end == Some(if e.maskSet && e.eventCreated && e.event.InvalidParameter? then WokenUp else Raised)
            && ctxArr[..len] == Zeroed(old(ctxArr[..len]), AtOnce(env, p))
            && events.created == p + (if e.maskSet && e.eventCreated then 1 else 0)
            && events.closed == AtOnceInOrder(env, p) +
                 if end == Some(WokenUp) then Waiting(env, p) else [])
    ensures ctxArr[len..] == old(ctxArr[len..])
  {
    ghost var ctx0 := ctxArr[..len];
    waitCount, count := 0, 0;
    for ii := 0 to len
      invariant waitCount <= ii && Stop(env, 0) == Stop(env, ii)
      invariant StartedUpTo(env, ii, ctx0, ctxArr[..len], index[..waitCount], waits[..waitCount],
                            count, events.created, events.closed)
      invariant ctxArr[len..] == old(ctxArr[len..])
    {
      var e := env[ii];
      if !e.maskSet {
        return Some(Raised), waitCount, count;
      }
      if !e.eventCreated {
        return Some(Raised), waitCount, count;
      }
      var h := events.Create();
      match e.event {
        case InvalidParameter =>
          events.CloseAll(waits, waitCount);
          return Some(WokenUp), waitCount, count;
        case Broken =>
          return Some(Raised), waitCount, count;
        case _ =>
          waitCount, count := StartEntry(ctxArr, len, env, index, waits, events, ii, h, waitCount, count, ctx0);
      }
    }
    end := None;
  }

  // ---------------------------------------------------------------- the wait and what follows

  /** All entries found ready when the completions before position q have been looked at. */
  ghost function ReadyUpTo(env: seq<Entry>, q: nat): set<nat>
    requires q <= |Waiting(env, |env|)|
  {
    AtOnce(env, |env|) + ReadyAfterWait(env, Waiting(env, |env|), q)
  }

  /** The state of the last loop at position q. */
  ghost predicate FinishedUpTo(env: seq<Entry>, q: nat, ctx0: seq<int>, ctx: seq<int>, count: nat, closed: seq<nat>)
    requires q <= |Waiting(env, |env|)|
  {
    && ctx == Zeroed(ctx0, ReadyUpTo(env, q))
    && count == |ReadyUpTo(env, q)|
    && closed == AtOnceInOrder(env, |env|) + Waiting(env, |env|)[..q]
  }

  /** Looking at one more completion adds its entry, which was not there before, if it is done. */
  lemma ReadyNext(env: seq<Entry>, q: nat)
    requires q < |Waiting(env, |env|)|
    ensures var jj := Waiting(env, |env|)[q];
      if env[jj].result.Done? then ReadyUpTo(env, q + 1) == ReadyUpTo(env, q) + {jj} && jj !in ReadyUpTo(env, q)
      else ReadyUpTo(env, q + 1) == ReadyUpTo(env, q)
  {
    WaitingIncreases(env, |env|);
    var w := Waiting(env, |env|);
    if env[w[q]].result.Done? {
      assert ReadyAfterWait(env, w, q + 1) == ReadyAfterWait(env, w, q) + {w[q]};
    } else {
      assert ReadyAfterWait(env, w, q + 1) == ReadyAfterWait(env, w, q);
    }
  }

  lemma FinishedNext(env: seq<Entry>, q: nat, ctx0: seq<int>, ctx: seq<int>, count: nat, closed: seq<nat>)
    requires q < |Waiting(env, |env|)| && |ctx0| == |ctx| == |env|
    requires FinishedUpTo(env, q, ctx0, ctx, count, closed)
    ensures var jj := Waiting(env, |env|)[q];
      if env[jj].result.Done? then FinishedUpTo(env, q + 1, ctx0, ctx[jj := 0], count + 1, closed + [jj])
      else FinishedUpTo(env, q + 1, ctx0, ctx, count, closed + [jj])
  {
    var w := Waiting(env, |env|);
    assert w[..q + 1] == w[..q] + [w[q]];
    ReadyNext(env, q);
  }

  /** One round of the loop below; false for an exception. */
  method FinishEntry(ctxArr: array<int>, len: nat, env: seq<Entry>, index: array<nat>, waits: array<nat>,
                     waitCount: nat, events: Events, ii: nat, count: nat, ghost ctx0: seq<int>)
    returns (ok: bool, count': nat)
    requires len == |env| <= MAXIMUM_WAIT_OBJECTS && len <= ctxArr.Length && |ctx0| == len
    requires ii < waitCount <= index.Length == waits.Length && index != waits
    requires index[..waitCount] == waits[..waitCount] == Waiting(env, len)
    requires FinishedUpTo(env, ii, ctx0, ctxArr[..len], count, events.closed)
    modifies ctxArr, events`closed
    ensures ok == env[Waiting(env, len)[ii]].Finishes()
    ensures ok ==> FinishedUpTo(env, ii + 1, ctx0, ctxArr[..len], count', events.closed)
    ensures !ok ==> ctxArr[..len] == old(ctxArr[..len]) && events.closed == old(events.closed) + Waiting(env, len)
    ensures ctxArr[len..] == old(ctxArr[len..])
  {
    var jj := index[ii];
    assert jj == index[..waitCount][ii] && waits[ii] == waits[..waitCount][ii];
    FinishedNext(env, ii, ctx0, ctxArr[..len], count, events.closed);
    match env[jj].result {
      case Lost =>
        events.CloseAll(waits, waitCount);
        return false, count;
      case Incomplete(cancelled) =>
        if !cancelled {
          events.CloseAll(waits, waitCount);
          return false, count;
        }
        events.Close(waits[ii]);
        return true, count;
      case Done =>
        events.Close(waits[ii]);
        assert ctxArr[..len][jj := 0] == ctxArr[..][jj := 0][..len];
        ctxArr[jj] := 0;
        return true, count + 1;
    }
  }

  /** The loop over the waited-for entries after the wait was signalled; false for an exception. */
  method FinishWaits(ctxArr: array<int>, len: nat, env: seq<Entry>, index: array<nat>, waits: array<nat>,
                     waitCount: nat, events: Events, count0: nat, ghost ctx0: seq<int>)
    returns (ok: bool, count: nat)
    requires len == |env| <= MAXIMUM_WAIT_OBJECTS && len <= ctxArr.Length && |ctx0| == len
    requires waitCount <= index.Length == waits.Length && index != waits
    requires index[..waitCount] == waits[..waitCount] == Waiting(env, len)
    requires FinishedUpTo(env, 0, ctx0, ctxArr[..len], count0, events.closed)
    modifies ctxArr, events`closed
    ensures var w := Waiting(env, len);
      var q := Fault(env, w, 0);
      && (ok <==> q == |w|)
      && (ok ==> FinishedUpTo(env, q, ctx0, ctxArr[..len], count, events.closed))
      && (!ok ==> ctxArr[..len] == Zeroed(ctx0, ReadyUpTo(env, q)) &&
                  events.closed == AtOnceInOrder(env, len) + w[..q] + w)
    ensures ctxArr[len..] == old(ctxArr[len..])
  {
    ghost var w := Waiting(env, len);
    assert |index[..waitCount]| == |w|;
    count := count0;
    for ii := 0 to waitCount
      invariant Fault(env, w, 0) == Fault(env, w, ii)
      invariant FinishedUpTo(env, ii, ctx0, ctxArr[..len], count, events.closed)
      invariant ctxArr[len..] == old(ctxArr[len..])
    {
      ok, count := FinishEntry(ctxArr, len, env, index, waits, waitCount, events, ii, count, ctx0);
      if !ok {
        return false, count;
      }
    }
    ok := true;
  }

  // ---------------------------------------------------------------- the whole call

  /** What a call does: how it ends, which contexts it zeroes, and what becomes of its event handles. */
  datatype Report = Report(end: End, zeroed: set<nat>, created: nat, closed: seq<nat>)

  /** A call whose first loop stops at entry p. */
  ghost function EarlyEffect(env: seq<Entry>, p: nat): Report
    requires p < |env|
  {
    var once, waited := AtOnceInOrder(env, p), Waiting(env, p);
    if !env[p].maskSet || !env[p].eventCreated then Report(Raised, AtOnce(env, p), p, once)
    else if env[p].event.InvalidParameter? then Report(WokenUp, AtOnce(env, p), p + 1, once + waited)
    else Report(Raised, AtOnce(env, p), p + 1, once)
  }

  /** A call whose first loop runs to its end. */
  ghost function LateEffect(env: seq<Entry>, wait: WaitResult): Report {
    var n := |env|;
    var w := Waiting(env, n);
    var q := Fault(env, w, 0);
    var once, waited := AtOnceInOrder(env, n), w;
    if w == [] || wait.Timeout? then Report(Returned(|AtOnce(env, n)|), AtOnce(env, n), n, once + waited)
    else if wait.WaitFailed? then Report(Raised, AtOnce(env, n), n, once + waited)
    else if q == |w| then Report(Returned(|ReadyUpTo(env, q)|), ReadyUpTo(env, q), n, once + waited)
    else Report(Raised, ReadyUpTo(env, q), n, once + w[..q] + waited)
  }

  ghost function Effect(env: seq<Entry>, wait: WaitResult): Report {
    if |env| > MAXIMUM_WAIT_OBJECTS then Report(Raised, {}, 0, [])
    else if Stop(env, 0) < |env| then EarlyEffect(env, Stop(env, 0))
    else LateEffect(env, wait)
  }

  /** The wait, if there is anything to wait for, and what follows it up to the return. */
  method WaitAndFinish(ctxArr: array<int>, len: nat, timeout: int, env: seq<Entry>, wait: WaitResult, index: array<nat>,
                       waits: array<nat>, waitCount: nat, events: Events, count0: nat, ghost ctx0: seq<int>)
    returns (end: End, to: Option<int>)
    requires len == |env| <= MAXIMUM_WAIT_OBJECTS && len <= ctxArr.Length && |ctx0| == len
    requires waitCount <= index.Length == waits.Length && index != waits
    requires StartedUpTo(env, len, ctx0, ctxArr[..len], index[..waitCount], waits[..waitCount], count0, events.created,
                         events.closed)
    requires |AtOnce(env, len)| + |Waiting(env, len)| == len
    modifies ctxArr, events`closed
    ensures var r := LateEffect(env, wait);
      && end == r.end && ctxArr[..len] == Zeroed(ctx0, r.zeroed)
      && events.created == r.created && events.closed == r.closed
    ensures ctxArr[len..] == old(ctxArr[len..])
    ensures to.Some? <==> Waiting(env, len) != []
    ensures to.Some? ==> to.value == if AtOnce(env, len) != {} then 0 else if timeout < 0 then INFINITE else timeout
  {
    to := None;
    var count := count0;
    assert |index[..waitCount]| == waitCount == |Waiting(env, len)|;
    if waitCount != 0 {
      to := Some(if waitCount != len then 0 else if timeout < 0 then INFINITE else timeout);
      match wait {
        case Timeout =>
          events.CloseAll(waits, waitCount);
        case WaitFailed =>
          events.CloseAll(waits, waitCount);
          return Raised, to;
        case Signalled =>
          assert ReadyUpTo(env, 0) == AtOnce(env, len);
          var ok;
          ok, count := FinishWaits(ctxArr, len, env, index, waits, waitCount, events, count, ctx0);
          if !ok {
            return Raised, to;
          }
          assert Waiting(env, len)[..waitCount] == Waiting(env, len);
      }
    }
    end := Returned(count);
  }

  /** doSelect; to is the time given to the wait, if there was one. */
  method DoSelect(len: nat, ctxArr: array<int>, timeout: int, env: seq<Entry>, wait: WaitResult, events: Events)
    returns (end: End, to: Option<int>)
    requires len == |env| && len <= ctxArr.Length && events.created == 0 && events.closed == []
    modifies ctxArr, events
    ensures var r := Effect(env, wait);
      && end == r.end && ctxArr[..len] == Zeroed(old(ctxArr[..len]), r.zeroed)
      && events.created == r.created && events.closed == r.closed
    ensures ctxArr[len..] == old(ctxArr[len..])
    ensures to.Some? <==>
            && len <= MAXIMUM_WAIT_OBJECTS && (forall i :: 0 <= i < len ==> env[i].Starts())
            && exists i :: 0 <= i < len && env[i].event.Pending?
    ensures to.Some? ==>
              to.value == if exists i :: 0 <= i < len && env[i].event.Immediate? then 0
                          else if timeout < 0 then 0xFFFF_FFFF else timeout
  {
    if len > MAXIMUM_WAIT_OBJECTS {
      assert Zeroed(ctxArr[..len], {}) == ctxArr[..len];
      return Raised, None;
    }
    ghost var ctx0 := ctxArr[..len];
    var index, waits := new nat[MAXIMUM_WAIT_OBJECTS](_ => 0), new nat[MAXIMUM_WAIT_OBJECTS](_ => 0);
    var early, waitCount, count := StartWaits(ctxArr, len, env, index, waits, events);
    if early.Some? {
      return early.value, None;
    }
    Partition(env, len);
    SomePending(env);
    assert (exists i :: 0 <= i < len && env[i].event.Immediate?) <==> AtOnce(env, len) != {} by {
      if i :| 0 <= i < len && env[i].event.Immediate? {
        assert i in AtOnce(env, len);
      }
    }
    end, to := WaitAndFinish(ctxArr, len, timeout, env, wait, index, waits, waitCount, events, count, ctx0);
  }

  // ---------------------------------------------------------------- what a call promises

  lemma SomePending(env: seq<Entry>)
    ensures Waiting(env, |env|) != [] <==> exists i :: 0 <= i < |env| && env[i].event.Pending?
  {
    WaitingIncreases(env, |env|);
    if Waiting(env, |env|) != [] {
      assert Waiting(env, |env|)[0] in Waiting(env, |env|);
    }
  }

  /**
   How a call ends, by what the system answers: it returns if all entries start and none is
   pending, or the wait timed out, or it was signalled and no completion fails; a wakeup ends it
   if that is how the first entry that does not start is answered; else it raises an exception.
   */
  lemma EndExactly(env: seq<Entry>, wait: WaitResult)
    ensures var end := Effect(env, wait).end;
      var fits := |env| <= 64;
      && (end.Returned? <==>
            && fits
            && (forall i :: 0 <= i < |env| ==>
                  env[i].maskSet && env[i].eventCreated && (env[i].event.Immediate? || env[i].event.Pending?))
            && ((forall i :: 0 <= i < |env| ==> !env[i].event.Pending?)
                || wait.Timeout?
                || (wait.Signalled? &&
                    forall i :: 0 <= i < |env| && env[i].event.Pending? ==>
                      env[i].result.Done? || (env[i].result.Incomplete? && env[i].result.cancelled))))
      && (end.WokenUp? <==>
            fits && exists p :: 0 <= p < |env| &&
                                env[p].maskSet && env[p].eventCreated && env[p].event.InvalidParameter? &&
                                forall j :: 0 <= j < p ==> env[j].Starts())
  {
    if |env| <= MAXIMUM_WAIT_OBJECTS {
      if Stop(env, 0) == |env| {
        LateEnd(env, wait);
      }
    }
  }

  lemma LateEnd(env: seq<Entry>, wait: WaitResult)
    ensures !LateEffect(env, wait).end.WokenUp?
    ensures LateEffect(env, wait).end.Returned? <==>
            || (forall i :: 0 <= i < |env| ==> !env[i].event.Pending?)
            || wait.Timeout?
            || (wait.Signalled? && forall i :: 0 <= i < |env| && env[i].event.Pending? ==> env[i].Finishes())
  {
    SomePending(env);
    FaultExactly(env);
  }

  /** No completion fails exactly if each pending entry finishes. */
  lemma FaultExactly(env: seq<Entry>)
    ensures var w := Waiting(env, |env|);
      Fault(env, w, 0) == |w| <==> forall i :: 0 <= i < |env| && env[i].event.Pending? ==> env[i].Finishes()
  {
    var w := Waiting(env, |env|);
    var q := Fault(env, w, 0);
    WaitingIncreases(env, |env|);
    if q < |w| {
      assert w[q] in w && env[w[q]].event.Pending? && !env[w[q]].Finishes();
    } else {
      forall i | 0 <= i < |env| && env[i].event.Pending? ensures env[i].Finishes() {
        var x :| 0 <= x < |w| && w[x] == i;
      }
    }
  }

  /** All entries up to and including i started; all pending ones up to and including i were finished. */
  ghost predicate StartedTo(env: seq<Entry>, i: nat) {
    forall j :: 0 <= j <= i && j < |env| ==>
      env[j].maskSet && env[j].eventCreated && (env[j].event.Immediate? || env[j].event.Pending?)
  }

  ghost predicate FinishedTo(env: seq<Entry>, i: nat) {
    forall j :: 0 <= j <= i && j < |env| && env[j].event.Pending? ==>
      env[j].result.Done? || (env[j].result.Incomplete? && env[j].result.cancelled)
  }

  /** A position before the fault is a pending entry up to which all are finished. */
  lemma BeforeFault(env: seq<Entry>, x: nat)
    requires x < |Waiting(env, |env|)|
    ensures x < Fault(env, Waiting(env, |env|), 0) <==> FinishedTo(env, Waiting(env, |env|)[x])
  {
    var w := Waiting(env, |env|);
    var q := Fault(env, w, 0);
    WaitingIncreases(env, |env|);
    if x < q {
      forall j | 0 <= j <= w[x] && env[j].event.Pending? ensures env[j].Finishes() {
        assert j in w;
        var y :| 0 <= y < |w| && w[y] == j;
        assert y <= x;
      }
    } else {
      assert w[q] <= w[x] && w[q] in w;
    }
  }

  /**
   What a call zeroes, however it ends: every entry that was signalled at once and started, with
   all before it; and, if all started and the wait was signalled, every pending entry that was
   done, unless an entry up to it failed to finish.
   */
  lemma ZeroedExactly(env: seq<Entry>, wait: WaitResult, i: nat)
    ensures i in Effect(env, wait).zeroed <==>
            && |env| <= 64 && i < |env| && StartedTo(env, i)
            && (env[i].event.Immediate?
                || (StartedTo(env, |env|) && wait.Signalled? && env[i].result.Done? && FinishedTo(env, i)))
  {
    if |env| <= MAXIMUM_WAIT_OBJECTS && i < |env| {
      var p := Stop(env, 0);
      assert StartedTo(env, i) <==> i < p;
      assert StartedTo(env, |env|) <==> p == |env|;
      if p == |env| {
        ZeroedLate(env, wait, i);
      }
    }
  }

  lemma ZeroedLate(env: seq<Entry>, wait: WaitResult, i: nat)
    requires i < |env| && forall j :: 0 <= j < |env| ==> env[j].Starts()
    ensures i in LateEffect(env, wait).zeroed <==>
            env[i].event.Immediate? || (wait.Signalled? && env[i].result.Done? && FinishedTo(env, i))
  {
    var w := Waiting(env, |env|);
    var q := Fault(env, w, 0);
    DoneBefore(env, q, i);
    FaultExactly(env);
    if wait.Signalled? && w != [] {
      assert LateEffect(env, wait).zeroed == ReadyUpTo(env, q);
    } else {
      SomePending(env);
      assert LateEffect(env, wait).zeroed == AtOnce(env, |env|);
    }
  }

  lemma DoneBefore(env: seq<Entry>, q: nat, i: nat)
    requires q == Fault(env, Waiting(env, |env|), 0)
    ensures i in ReadyAfterWait(env, Waiting(env, |env|), q) <==>
            i < |env| && env[i].event.Pending? && env[i].result.Done? && FinishedTo(env, i)
  {
    var w := Waiting(env, |env|);
    WaitingIncreases(env, |env|);
    forall x | 0 <= x < |w| ensures x < q <==> FinishedTo(env, w[x]) {
      BeforeFault(env, x);
    }
    DoneAmong(env, w, q, i);
  }

  lemma DoneAmong(env: seq<Entry>, w: seq<nat>, q: nat, i: nat)
    requires q <= |w| && forall x :: 0 <= x < |w| ==> w[x] < |env| && (x < q <==> FinishedTo(env, w[x]))
    requires i in w <==> i < |env| && env[i].event.Pending?
    ensures i in ReadyAfterWait(env, w, q) <==>
            i < |env| && env[i].event.Pending? && env[i].result.Done? && FinishedTo(env, i)
  {
    if i in w {
      var x :| 0 <= x < |w| && w[x] == i;
    }
  }

  /** The channels found ready by a call that gets to its final return. */
  ghost predicate Ready(env: seq<Entry>, wait: WaitResult, i: nat) {
    i < |env| && (env[i].event.Immediate? || (wait.Signalled? && env[i].event.Pending? && env[i].result.Done?))
  }

  /** Every handle the call created was closed exactly once, and no other was closed. */
  ghost predicate Balanced(r: Report) {
    forall h: nat :: Count(r.closed, h) == if h < r.created then 1 else 0
  }

  /**
   On every final return: the count is the number of contexts zeroed, these are the channels
   that were signalled at once or found done after the wait, and every event handle created
   was closed exactly once.
   */
  lemma ReturnIsExact(env: seq<Entry>, wait: WaitResult)
    requires Effect(env, wait).end.Returned?
    ensures var r := Effect(env, wait);
      && r.end.count == |r.zeroed|
      && (forall i: nat :: i in r.zeroed <==> Ready(env, wait, i))
      && r.created == |env| && Balanced(r)
  {
    ZeroedAreReady(env, wait);
    BalancedExactlyWhen(env, wait);
  }

  lemma ZeroedAreReady(env: seq<Entry>, wait: WaitResult)
    requires Effect(env, wait).end.Returned?
    ensures forall i: nat :: i in Effect(env, wait).zeroed <==> Ready(env, wait, i)
  {
    var n := |env|;
    var w := Waiting(env, n);
    Partition(env, n);
    if wait.Signalled? {
      forall i: nat
        ensures i in ReadyAfterWait(env, w, |w|) <==> i < n && env[i].event.Pending? && env[i].result.Done?
      {
        DoneAfterWait(env, i);
      }
    }
  }

  lemma DoneAfterWait(env: seq<Entry>, i: nat)
    ensures var w := Waiting(env, |env|);
      i in ReadyAfterWait(env, w, |w|) <==> i < |env| && env[i].event.Pending? && env[i].result.Done?
  {
    var w := Waiting(env, |env|);
    WaitingIncreases(env, |env|);
    if i < |env| && env[i].event.Pending? {
      var j :| 0 <= j < |w| && w[j] == i;
    }
  }

  /**
   Handle conservation, exactly: a call that leaves its first loop early balances only if it
   fails before it creates an event and no earlier entry was pending; in particular a wakeup
   leaks the handle of the entry that noticed it.  A call that gets to its wait balances
   unless a completion other than the first fails, which closed the earlier handles twice.
   */
  lemma BalancedExactlyWhen(env: seq<Entry>, wait: WaitResult)
    ensures var p := Stop(env, 0);
      var w := Waiting(env, |env|);
      Balanced(Effect(env, wait)) <==>
        (if |env| > MAXIMUM_WAIT_OBJECTS then true
         else if p < |env| then (!env[p].maskSet || !env[p].eventCreated) && Waiting(env, p) == []
         else w == [] || !wait.Signalled? || Fault(env, w, 0) == 0 || Fault(env, w, 0) == |w|)
  {
    if |env| <= MAXIMUM_WAIT_OBJECTS {
      if Stop(env, 0) < |env| {
        EarlyBalance(env, Stop(env, 0));
      } else {
        LateBalance(env, wait);
      }
    }
  }

  /** How often handle h is closed, once it was created. */
  ghost function TimesClosed(env: seq<Entry>, wait: WaitResult, h: nat): nat {
    if !StartedTo(env, h) then 0
    else if h < |env| && env[h].event.Immediate? then 1
    else if Effect(env, wait).end.WokenUp? then 1
    else if !StartedTo(env, |env|) then 0
    else if wait.Signalled? && !FinishedTo(env, |env|) && FinishedTo(env, h) then 2
    else 1
  }

  /** One handle for each entry reached whose mask was set, if the event could be created. */
  ghost predicate Creates(env: seq<Entry>, h: nat) {
    && |env| <= 64 && h < |env| && env[h].maskSet && env[h].eventCreated
    && forall j :: 0 <= j < h ==> env[j].Starts()
  }

  lemma CountsUpTo(env: seq<Entry>, n: nat, h: nat)
    requires n <= |env| && forall i :: 0 <= i < n ==> env[i].Starts()
    ensures Count(AtOnceInOrder(env, n), h) == if h < n && env[h].event.Immediate? then 1 else 0
    ensures Count(Waiting(env, n), h) == if h < n && env[h].event.Pending? then 1 else 0
    ensures Count(AtOnceInOrder(env, n) + Waiting(env, n), h) == if h < n then 1 else 0
  {
    BothOrdersCount(env, n, h);
    CountAppend(AtOnceInOrder(env, n), Waiting(env, n), h);
  }

  /** The handles waited for before the fault. */
  lemma CountsBeforeFault(env: seq<Entry>, h: nat)
    ensures var w := Waiting(env, |env|);
      Count(w[..Fault(env, w, 0)], h) == if h < |env| && env[h].event.Pending? && FinishedTo(env, h) then 1 else 0
  {
    var w := Waiting(env, |env|);
    var q := Fault(env, w, 0);
    WaitingIncreases(env, |env|);
    CountOnce(w[..q], h);
    if h < |env| && env[h].event.Pending? {
      assert h in w;
      var x :| 0 <= x < |w| && w[x] == h;
      BeforeFault(env, x);
      assert h in w[..q] <==> x < q by {
        assert x < q ==> w[..q][x] == h;
      }
    }
  }

  /** They, and then all of them again. */
  lemma CountsTwice(env: seq<Entry>, h: nat)
    requires forall i :: 0 <= i < |env| ==> env[i].Starts()
    ensures var w := Waiting(env, |env|);
      var q := Fault(env, w, 0);
      Count(AtOnceInOrder(env, |env|) + w[..q] + w, h) ==
        if h >= |env| then 0 else if env[h].event.Immediate? then 1 else if FinishedTo(env, h) then 2 else 1
  {
    var once, w := AtOnceInOrder(env, |env|), Waiting(env, |env|);
    var q := Fault(env, w, 0);
    CountsUpTo(env, |env|, h);
    CountAppend(once + w[..q], w, h);
    CountAppend(once, w[..q], h);
    CountsBeforeFault(env, h);
  }

  lemma HandlesEarly(env: seq<Entry>, wait: WaitResult, h: nat)
    requires |env| <= 64 && Stop(env, 0) < |env| && Creates(env, h)
    ensures Count(Effect(env, wait).closed, h) == TimesClosed(env, wait, h)
  {
    CountsUpTo(env, Stop(env, 0), h);
    StartedToStop(env, h);
    StartedToStop(env, |env|);
  }

  lemma StartedToStop(env: seq<Entry>, i: nat)
    ensures StartedTo(env, i) <==> i < Stop(env, 0) || Stop(env, 0) == |env|
  {
  }

  lemma HandlesLate(env: seq<Entry>, wait: WaitResult, h: nat)
    requires |env| <= 64 && Stop(env, 0) == |env| && Creates(env, h)
    ensures Count(Effect(env, wait).closed, h) == TimesClosed(env, wait, h)
  {
    CountsUpTo(env, |env|, h);
    StartedToStop(env, h);
    FaultExactly(env);
    CountsTwice(env, h);
    SomePending(env);
  }

  lemma NothingElseClosed(env: seq<Entry>, wait: WaitResult, h: nat)
    requires !Creates(env, h)
    ensures Count(Effect(env, wait).closed, h) == 0
  {
    if |env| <= MAXIMUM_WAIT_OBJECTS {
      CountsUpTo(env, Stop(env, 0), h);
      if Stop(env, 0) == |env| {
        CountsTwice(env, h);
      }
    }
  }

  /** Which handles a call creates, and how often it closes each, however it ends. */
  lemma HandlesExactly(env: seq<Entry>, wait: WaitResult, h: nat)
    ensures h < Effect(env, wait).created <==> Creates(env, h)
    ensures Count(Effect(env, wait).closed, h) == if Creates(env, h) then TimesClosed(env, wait, h) else 0
  {
    if !Creates(env, h) {
      NothingElseClosed(env, wait, h);
    } else if Stop(env, 0) < |env| {
      HandlesEarly(env, wait, h);
    } else {
      HandlesLate(env, wait, h);
    }
  }

  lemma Leaks(r: Report, h: nat)
    requires h < r.created && Count(r.closed, h) == 0
    ensures !Balanced(r)
  {
  }

  /** A stop before the event is created leaks exactly if an earlier entry was pending. */
  lemma EarlyFailure(end: End, zeroed: set<nat>, env: seq<Entry>, p: nat)
    requires p <= |env| && forall i :: 0 <= i < p ==> env[i].Starts()
    ensures Balanced(Report(end, zeroed, p, AtOnceInOrder(env, p))) <==> Waiting(env, p) == []
  {
    var r := Report(end, zeroed, p, AtOnceInOrder(env, p));
    WaitingIncreases(env, p);
    if Waiting(env, p) != [] {
      BothOrdersCount(env, p, Waiting(env, p)[0]);
      Leaks(r, Waiting(env, p)[0]);
    } else {
      forall h: nat ensures Count(r.closed, h) == if h < r.created then 1 else 0 {
        BothOrdersCount(env, p, h);
        assert h !in Waiting(env, p);
      }
    }
  }

  lemma EarlyBalance(env: seq<Entry>, p: nat)
    requires p < |env| && forall i :: 0 <= i < p ==> env[i].Starts()
    ensures Balanced(EarlyEffect(env, p)) <==> (!env[p].maskSet || !env[p].eventCreated) && Waiting(env, p) == []
  {
    if !env[p].maskSet || !env[p].eventCreated {
      EarlyFailure(Raised, AtOnce(env, p), env, p);
    } else {
      BothOrdersCount(env, p, p);
      Leaks(EarlyEffect(env, p), p);
    }
  }

  lemma LateBalance(env: seq<Entry>, wait: WaitResult)
    requires forall i :: 0 <= i < |env| ==> env[i].Starts()
    ensures var w := Waiting(env, |env|);
      Balanced(LateEffect(env, wait)) <==>
        w == [] || !wait.Signalled? || Fault(env, w, 0) == 0 || Fault(env, w, 0) == |w|
  {
    var r, w := LateEffect(env, wait), Waiting(env, |env|);
    var q := Fault(env, w, 0);
    if w != [] && wait.Signalled? && 0 < q < |w| {
      ClosedTwice(AtOnceInOrder(env, |env|), w, q);
    } else {
      assert r.closed == AtOnceInOrder(env, |env|) + w by {
        assert AtOnceInOrder(env, |env|) + w[..0] == AtOnceInOrder(env, |env|);
      }
      forall h: nat ensures Count(r.closed, h) == if h < r.created then 1 else 0 {
        BothOrdersCount(env, |env|, h);
      }
    }
  }

  lemma ClosedTwice(once: seq<nat>, w: seq<nat>, q: nat)
    requires 0 < q <= |w|
    ensures Count(once + w[..q] + w, w[0]) > 1
  {
    assert w[..q][0] == w[0];
    CountPositive(w[..q], 0);
    CountPositive(w, 0);
    CountAppend(once + w[..q], w, w[0]);
    CountAppend(once, w[..q], w[0]);
  }

  /** A wakeup noticed by the first of the channels: its event handle is created and never closed. */
  lemma WakeupLeaks() returns (env: seq<Entry>)
    ensures Effect(env, Timeout) == Report(WokenUp, {}, 1, []) && !Balanced(Effect(env, Timeout))
  {
    env := [Entry(true, true, InvalidParameter, Done)];
    assert Stop(env, 0) == 0 && AtOnce(env, 0) == {};
    Leaks(Effect(env, Timeout), 0);
  }

  lemma TwoWait(env: seq<Entry>)
    requires |env| == 2 && env[0].Starts() && env[0].event.Pending? && env[1].Starts() && env[1].event.Pending?
    ensures Stop(env, 0) == 2 && Waiting(env, 2) == [0, 1] && AtOnceInOrder(env, 2) == [] && AtOnce(env, 2) == {}
  {
    assert Waiting(env, 0) == [] && Waiting(env, 1) == [0];
    assert AtOnceInOrder(env, 0) == [] && AtOnceInOrder(env, 1) == [];
    forall i | 0 <= i < 2 ensures !env[i].event.Immediate? {
      assert i == 0 || i == 1;
    }
    assert Stop(env, 2) == 2 && Stop(env, 1) == 2;
  }

  lemma SecondFails(env: seq<Entry>)
    requires |env| == 2 && env[0].result.Done? && env[1].result.Lost?
    ensures Fault(env, [0, 1], 0) == 1 && ReadyAfterWait(env, [0, 1], 1) == {0}
  {
    assert Fault(env, [0, 1], 1) == 1;
    assert 0 in ReadyAfterWait(env, [0, 1], 1) by {
      assert [0, 1][0] == 0;
    }
  }

  /**
   Two pending entries: the first is done, the completion of the second fails, and the first
   handle is closed twice.
   */
  lemma SecondCompletionFails() returns (env: seq<Entry>)
    ensures |env| == 2 && env[0].result.Done? && env[1].result.Lost?
    ensures Effect(env, Signalled) == Report(Raised, {0}, 2, [0, 0, 1])
  {
    env := [Entry(true, true, Pending, Done), Entry(true, true, Pending, Lost)];
    TwoWait(env);
    SecondFails(env);
    assert [0, 1][..1] == [0] && [] + [0] + [0, 1] == [0, 0, 1];
    assert ReadyUpTo(env, 1) == {} + {0} == {0};
  }
}
