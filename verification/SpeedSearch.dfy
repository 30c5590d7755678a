/**
 The speed detection of SpeedDetector.java as values: a matcher that counts runs of bytes,
 inside a search through the configurations.
 */
module SpeedSearch {
  import opened Basics

  datatype State = Success | Fail | GoOn

  datatype Range = Range(start: byte, end: byte) {
    predicate In(b: byte) {
      start <= b <= end
    }
  }

  datatype Settings = Settings(ranges: seq<Range>, speeds: seq<nat>, testLength: int32, maxCount: int32) {
    /** The byte is in some range. */
    predicate Good(b: byte) {
      exists i :: 0 <= i < |ranges| && ranges[i].In(b)
    }

    /** How many bytes a matcher may have counted without a verdict. */
    function Limit(): nat {
      if maxCount < 0 || testLength <= 0 then 0 else if maxCount < INT_MAX then maxCount + 1 else testLength
    }

    /** The ranges do not tell bytes apart. */
    ghost predicate AllAlike() {
      forall b: byte, c: byte :: Good(b) == Good(c)
    }

    /** The count can exceed its maximum, or every byte gets a verdict, or enough bytes in a row do. */
    ghost predicate CanEnd() {
      maxCount < INT_MAX || testLength <= 0 || (testLength < INT_MAX && AllAlike())
    }
  }

  // ---------------------------------------------------------------- the matcher

  datatype Counters = Counters(corrects: int32, errors: int32, count: int32)

  const ZERO := Counters(0, 0, 0)

  datatype Answer = Answer(counters: Counters, state: State)

  /** match(b) in the state m. */
  function Matched(s: Settings, m: Counters, b: byte): Answer {
    if m.count > s.maxCount then Answer(m, Fail)
    else
      var m' := if s.Good(b) then Counters(Increment(m.corrects), 0, Increment(m.count))
                else Counters(0, Increment(m.errors), Increment(m.count));
      Answer(m', if m'.corrects > s.testLength then Success else if m'.errors > s.testLength then Fail else GoOn)
  }

  /** The counters of a fresh matcher after bs. */
  function Counted(s: Settings, bs: seq<byte>): Counters {
    if |bs| == 0 then ZERO else Matched(s, Counted(s, bs[..|bs| - 1]), bs[|bs| - 1]).counters
  }

  /** What a fresh matcher answers to the last of bs. */
  function Verdict(s: Settings, bs: seq<byte>): State
    requires |bs| > 0
  {
    Matched(s, Counted(s, bs[..|bs| - 1]), bs[|bs| - 1]).state
  }

  /** The length of the longest suffix of bs with only good bytes, or only bad ones. */
  function Suffix(s: Settings, bs: seq<byte>, good: bool): (n: nat)
    ensures n <= |bs| && (forall i :: |bs| - n <= i < |bs| ==> s.Good(bs[i]) == good)
    ensures n < |bs| ==> s.Good(bs[|bs| - n - 1]) != good
  {
    if |bs| == 0 || s.Good(bs[|bs| - 1]) != good then 0 else Suffix(s, bs[..|bs| - 1], good) + 1
  }

  /** The last n of bs are all good, or all bad. */
  predicate EndsWith(s: Settings, bs: seq<byte>, n: int, good: bool) {
    n <= |bs| && forall i :: 0 <= i < |bs| && |bs| - n <= i ==> s.Good(bs[i]) == good
  }

  /** corrects and errors are the lengths of the longest good and bad suffixes. */
  lemma {:induction false} CountersAreSuffixes(s: Settings, bs: seq<byte>)
    requires |bs| <= s.maxCount + 1 && |bs| <= INT_MAX
    ensures var m := Counted(s, bs);
      && m.count == |bs|
      && m.corrects == Suffix(s, bs, true) && m.errors == Suffix(s, bs, false)
      && (m.corrects == 0 || m.errors == 0)
  {
    if |bs| > 0 {
      CountersAreSuffixes(s, bs[..|bs| - 1]);
    }
  }

  /** Beyond its maximum the matcher does not count. */
  lemma {:induction false} CountStops(s: Settings, bs: seq<byte>)
    requires s.maxCount < INT_MAX
    ensures Counted(s, bs).count == if s.maxCount < 0 then 0 else if |bs| <= s.maxCount then |bs| else s.maxCount + 1
  {
    if |bs| > 0 {
      CountStops(s, bs[..|bs| - 1]);
    }
  }

  /**
   The answer to the last of bs: success for a good run longer than testLength, failure for
   a bad one or for too many bytes.
   */
  lemma VerdictExactly(s: Settings, bs: seq<byte>)
    requires |bs| > 0 && (s.maxCount < INT_MAX || |bs| <= INT_MAX)
    ensures var tooMany := |bs| > s.maxCount + 1;
      var goodRun, badRun := EndsWith(s, bs, s.testLength + 1, true), EndsWith(s, bs, s.testLength + 1, false);
      && (Verdict(s, bs).Success? <==> !tooMany && goodRun)
      && (Verdict(s, bs).Fail? <==> tooMany || (badRun && !goodRun))
  {
    if |bs| <= s.maxCount + 1 {
      CountersAreSuffixes(s, bs);
      CountersAreSuffixes(s, bs[..|bs| - 1]);
    } else {
      CountStops(s, bs[..|bs| - 1]);
    }
  }

  /** A fresh matcher answers GoOn to each of bs. */
  ghost predicate Undecided(s: Settings, bs: seq<byte>) {
    forall n :: 0 < n <= |bs| ==> Verdict(s, bs[..n]).GoOn?
  }

  /** The first n of bs end with a run of either kind longer than testLength. */
  ghost predicate RunEndsAt(s: Settings, bs: seq<byte>, n: nat)
    requires n <= |bs|
  {
    EndsWith(s, bs[..n], s.testLength + 1, true) || EndsWith(s, bs[..n], s.testLength + 1, false)
  }

  /**
   The first verdict over bs is a success exactly when a good run gets longer than
   testLength within the maximum count, before any run of either kind did.
   */
  lemma FirstSuccessExactly(s: Settings, bs: seq<byte>)
    requires |bs| > 0 && (s.maxCount < INT_MAX || |bs| <= INT_MAX)
    ensures Undecided(s, bs[..|bs| - 1]) && Verdict(s, bs).Success? <==>
            && |bs| <= s.maxCount + 1 && EndsWith(s, bs, s.testLength + 1, true)
            && forall n :: 0 < n < |bs| ==> !RunEndsAt(s, bs, n)
  {
    VerdictExactly(s, bs);
    var shorter := bs[..|bs| - 1];
    forall n | 0 < n < |bs| && |bs| <= s.maxCount + 1
      ensures Verdict(s, shorter[..n]).GoOn? <==> !RunEndsAt(s, bs, n)
    {
      assert shorter[..n] == bs[..n];
      VerdictExactly(s, bs[..n]);
    }
  }

  // ---------------------------------------------------------------- the search

  datatype Event = Byte(b: byte) | Timeout

  /** The state of one port: the configuration it is at, its matcher, and its verdict if it has one. */
  datatype Search = Search(confNo: nat, counters: Counters, state: State)

  const START := Search(0, ZERO, GoOn)

  /** nextConfiguration. */
  function Advance(s: Settings, d: Search): Search {
    if d.confNo + 1 == |s.speeds| then Search(d.confNo + 1, d.counters, Fail) else Search(d.confNo + 1, ZERO, GoOn)
  }

  /** A byte matched, or a select that timed out; nothing happens after a verdict. */
  function Next(s: Settings, d: Search, e: Event): Search {
    if !d.state.GoOn? then d
    else match e
      case Timeout => Advance(s, d)
      case Byte(b) =>
        var a := Matched(s, d.counters, b);
        if a.state.Fail? then Advance(s, d.(counters := a.counters)) else Search(d.confNo, a.counters, a.state)
  }

  function Run(s: Settings, evs: seq<Event>): Search {
    if |evs| == 0 then START else Next(s, Run(s, evs[..|evs| - 1]), evs[|evs| - 1])
  }

  function Bytes(bs: seq<byte>): (evs: seq<Event>)
    ensures |evs| == |bs| && forall i :: 0 <= i < |bs| ==> evs[i] == Byte(bs[i])
  {
    seq(|bs|, i requires 0 <= i < |bs| => Byte(bs[i]))
  }

  lemma RunNext(s: Settings, evs: seq<Event>, e: Event)
    ensures Run(s, evs + [e]) == Next(s, Run(s, evs), e)
  {
    assert (evs + [e])[..|evs|] == evs;
  }

  lemma BytesNext(evs: seq<Event>, bs: seq<byte>, n: nat)
    requires n < |bs|
    ensures evs + Bytes(bs[..n + 1]) == evs + Bytes(bs[..n]) + [Byte(bs[n])]
  {
  }

  lemma BytesAppend(evs: seq<Event>, a: seq<byte>, b: seq<byte>)
    ensures evs + Bytes(a) + Bytes(b) == evs + Bytes(a + b)
  {
  }

  /** The bytes among evs. */
  function BytesIn(evs: seq<Event>): seq<byte> {
    if |evs| == 0 then []
    else BytesIn(evs[..|evs| - 1]) + match evs[|evs| - 1] case Byte(b) => [b] case Timeout => []
  }

  lemma {:induction false} BytesInAppend(evs: seq<Event>, bs: seq<byte>)
    ensures BytesIn(evs + Bytes(bs)) == BytesIn(evs) + bs
  {
    if |bs| == 0 {
      assert evs + Bytes(bs) == evs;
    } else {
      var n := |bs| - 1;
      BytesInAppend(evs, bs[..n]);
      assert bs[..n + 1] == bs;
      BytesNext(evs, bs, n);
      assert (evs + Bytes(bs))[..|evs| + n] == evs + Bytes(bs[..n]);
    }
  }

  /** After a verdict more events change nothing. */
  lemma {:induction false} RunDecided(s: Settings, evs: seq<Event>, more: seq<Event>)
    requires !Run(s, evs).state.GoOn?
    ensures Run(s, evs + more) == Run(s, evs)
  {
    if |more| == 0 {
      assert evs + more == evs;
    } else {
      var n := |more| - 1;
      RunDecided(s, evs, more[..n]);
      assert evs + more == evs + more[..n] + [more[n]];
      RunNext(s, evs + more[..n], more[n]);
    }
  }

  /** A search goes through its configurations in order. */
  lemma {:induction false} RunGoesForward(s: Settings, evs: seq<Event>, more: seq<Event>)
    ensures Run(s, evs + more).confNo >= Run(s, evs).confNo
  {
    if |more| == 0 {
      assert evs + more == evs;
    } else {
      var n := |more| - 1;
      RunGoesForward(s, evs, more[..n]);
      assert evs + more == evs + more[..n] + [more[n]];
      RunNext(s, evs + more[..n], more[n]);
    }
  }

  /** A verdict of Fail is given exactly when the configurations are used up. */
  lemma {:induction false} VerdictOfSearch(s: Settings, evs: seq<Event>)
    requires |s.speeds| > 0
    ensures var d := Run(s, evs); d.confNo <= |s.speeds| && (d.state.Fail? <==> d.confNo == |s.speeds|)
  {
    if |evs| > 0 {
      VerdictOfSearch(s, evs[..|evs| - 1]);
    }
  }

  // ---------------------------------------------------------------- every configuration is tried

  /**
   One event, exactly: a timeout and a byte that the matcher fails end the turn of the current
   configuration, and of it alone; the next one begins with a fresh matcher, if there is one.
   */
  lemma NextExactly(s: Settings, d: Search, e: Event)
    requires d.state.GoOn?
    ensures var d' := Next(s, d, e);
      var over := e.Timeout? || Matched(s, d.counters, e.b).state.Fail?;
      && (over && d.confNo + 1 != |s.speeds| ==> d' == Search(d.confNo + 1, Counters(0, 0, 0), GoOn))
      && (over && d.confNo + 1 == |s.speeds| ==> d'.state.Fail? && d'.confNo == |s.speeds|)
      && (!over ==> d' == Search(d.confNo, Matched(s, d.counters, e.b).counters, Matched(s, d.counters, e.b).state))
  {
  }

  /** No configuration is skipped: each one up to the current had its turn, with a fresh matcher. */
  lemma {:induction false} NoneSkipped(s: Settings, evs: seq<Event>, c: nat) returns (n: nat)
    requires c <= Run(s, evs).confNo && c < |s.speeds|
    ensures n <= |evs| && Run(s, evs[..n]) == Search(c, Counters(0, 0, 0), GoOn)
  {
    n := |evs|;
    assert evs[..n] == evs;
    if n > 0 && c <= Run(s, evs[..n - 1]).confNo {
      n := NoneSkipped(s, evs[..n - 1], c);
      assert evs[..|evs| - 1][..n] == evs[..n];
    }
  }

  function Timeouts(n: nat): seq<Event> {
    seq(n, _ => Timeout)
  }

  /** Timeouts alone go through all configurations, one by one. */
  lemma {:induction false} TimeoutsTryAll(s: Settings, n: nat)
    requires n <= |s.speeds| && |s.speeds| > 0
    ensures n < |s.speeds| ==> Run(s, Timeouts(n)) == Search(n, Counters(0, 0, 0), GoOn)
    ensures n == |s.speeds| ==> Run(s, Timeouts(n)).state.Fail?
  {
    if n > 0 {
      TimeoutsTryAll(s, n - 1);
      assert Timeouts(n)[..n - 1] == Timeouts(n - 1);
    }
  }

  // ---------------------------------------------------------------- a reported speed is justified

  /**
   The configuration at which d is became current at event k of evs, and everything since was
   bs, which a fresh matcher counted.
   */
  ghost predicate CurrentSince(s: Settings, evs: seq<Event>, d: Search, k: nat, bs: seq<byte>) {
    && k <= |evs| && evs[k..] == Bytes(bs)
    && Run(s, evs[..k]) == Search(d.confNo, ZERO, GoOn) && (k > 0 ==> Run(s, evs[..k - 1]).confNo < d.confNo)
    && d.counters == Counted(s, bs) && d.counters.corrects <= Suffix(s, bs, true)
  }

  lemma StillCurrent(s: Settings, evs: seq<Event>, d: Search, k: nat, bs: seq<byte>, b: byte)
    requires d.state.GoOn? && CurrentSince(s, evs, d, k, bs) && !Matched(s, d.counters, b).state.Fail?
    ensures CurrentSince(s, evs + [Byte(b)], Next(s, d, Byte(b)), k, bs + [b])
  {
    var longer := evs + [Byte(b)];
    assert longer[k..] == evs[k..] + [Byte(b)] == Bytes(bs + [b]);
    assert longer[..k] == evs[..k] && (k > 0 ==> longer[..k - 1] == evs[..k - 1]);
  }

  lemma NowCurrent(s: Settings, evs: seq<Event>)
    requires Run(s, evs).state.GoOn? && Run(s, evs).counters == ZERO
    requires |evs| > 0 ==> Run(s, evs[..|evs| - 1]).confNo < Run(s, evs).confNo
    ensures CurrentSince(s, evs, Run(s, evs), |evs|, [])
  {
    assert evs[..|evs|] == evs;
  }

  /** Every search without a verdict is at a configuration that became current at some event. */
  lemma {:induction false} CurrentConfiguration(s: Settings, evs: seq<Event>) returns (k: nat, bs: seq<byte>)
    requires Run(s, evs).state.GoOn?
    ensures CurrentSince(s, evs, Run(s, evs), k, bs)
  {
    if |evs| > 0 && Counts(s, Run(s, evs[..|evs| - 1]), evs[|evs| - 1]) {
      var n := |evs| - 1;
      k, bs := CurrentConfiguration(s, evs[..n]);
      StillCurrent(s, evs[..n], Run(s, evs[..n]), k, bs, evs[n].b);
      bs := bs + [evs[n].b];
      assert evs == evs[..n] + [evs[n]];
    } else {
      k, bs := |evs|, [];
      NowCurrent(s, evs);
    }
  }

  /** The event is a byte that the matcher counts without failing. */
  predicate Counts(s: Settings, d: Search, e: Event) {
    e.Byte? && !Matched(s, d.counters, e.b).state.Fail?
  }

  /** The last of evs brought the success. */
  lemma JustNow(s: Settings, evs: seq<Event>, e: Event) returns (k: nat, bs: seq<byte>)
    requires Run(s, evs).state.GoOn? && Next(s, Run(s, evs), e).state.Success?
    ensures CurrentSince(s, evs + [e], Next(s, Run(s, evs), e), k, bs) && EndsWith(s, bs, s.testLength + 1, true)
  {
    k, bs := CurrentConfiguration(s, evs);
    StillCurrent(s, evs, Run(s, evs), k, bs, e.b);
    bs := bs + [e.b];
  }

  /**
   A success is justified: it came with event j - 1, while a configuration was current that had
   become so at event k; everything since then was matched by a fresh matcher, and the last
   testLength + 1 of these bytes were good.
   */
  lemma {:induction false} SuccessIsJustified(s: Settings, evs: seq<Event>) returns (k: nat, j: nat, bs: seq<byte>)
    requires |s.speeds| > 0 && Run(s, evs).state.Success?
    ensures Run(s, evs).confNo < |s.speeds|
    ensures 0 < j <= |evs| && Run(s, evs[..j - 1]).state.GoOn? && Run(s, evs[..j]) == Run(s, evs)
    ensures CurrentSince(s, evs[..j], Run(s, evs), k, bs) && EndsWith(s, bs, s.testLength + 1, true)
  {
    VerdictOfSearch(s, evs);
    var n := |evs| - 1;
    if Run(s, evs[..n]).state.GoOn? {
      j := |evs|;
      assert evs[..j] == evs == evs[..n] + [evs[n]];
      k, bs := JustNow(s, evs[..n], evs[n]);
    } else {
      k, j, bs := SuccessIsJustified(s, evs[..n]);
      assert evs[..n][..j] == evs[..j] && evs[..n][..j - 1] == evs[..j - 1];
    }
  }

  // ---------------------------------------------------------------- detection ends

  /** d is further on than before: at a later configuration, or with more bytes counted. */
  ghost predicate Further(d: Search, before: Search) {
    d.confNo > before.confNo || (d.confNo == before.confNo && d.counters.count > before.counters.count)
  }

  /** All bytes counted so far were of the kind of all bytes. */
  ghost predicate OneKind(s: Settings, m: Counters) {
    m == if s.Good(0) then Counters(m.count, 0, m.count) else Counters(0, m.count, m.count)
  }

  /** A search without a verdict has configurations left and has not counted beyond its limit. */
  ghost predicate Within(s: Settings, d: Search) {
    d.state.GoOn? ==>
      && d.confNo < |s.speeds| && 0 <= d.counters.count <= s.Limit()
      && (s.Limit() == 0 ==> d.counters == ZERO)
      && (s.maxCount == INT_MAX ==> OneKind(s, d.counters))
  }

  ghost predicate Bounded(s: Settings, d: Search) {
    s.CanEnd() ==> Within(s, d)
  }

  /** The first p bytes of chunk have brought the search from start, before them, to where log is, without a verdict. */
  ghost predicate SoFar(s: Settings, before: seq<Event>, chunk: seq<byte>, p: nat, start: Search, log: seq<Event>) {
    && p <= |chunk| && log == before + Bytes(chunk[..p])
    && Run(s, log).state.GoOn? && Bounded(s, Run(s, log))
    && (p > 0 && s.CanEnd() ==> Further(Run(s, log), start))
    && (p == 0 ==> Run(s, log) == start)
  }

  /** One more byte of chunk brings a verdict, or the search gets further. */
  lemma NextOfChunk(s: Settings, before: seq<Event>, chunk: seq<byte>, p: nat, start: Search, log: seq<Event>)
    requires p < |chunk| && SoFar(s, before, chunk, p, start, log)
    ensures var log' := log + [Byte(chunk[p])];
      if Run(s, log').state.GoOn? then SoFar(s, before, chunk, p + 1, start, log')
      else Run(s, before + Bytes(chunk)) == Run(s, log') && Calls(s, before + Bytes(chunk)) == Calls(s, log')
  {
    BytesNext(before, chunk, p);
    RunNext(s, log, Byte(chunk[p]));
    if !Run(s, before + Bytes(chunk[..p + 1])).state.GoOn? {
      DecidedEarly(s, before, chunk, p + 1);
    }
  }

  /** A verdict before the end of chunk is the verdict at its end. */
  lemma DecidedEarly(s: Settings, before: seq<Event>, chunk: seq<byte>, p: nat)
    requires p <= |chunk| && !Run(s, before + Bytes(chunk[..p])).state.GoOn?
    ensures Run(s, before + Bytes(chunk)) == Run(s, before + Bytes(chunk[..p]))
    ensures Calls(s, before + Bytes(chunk)) == Calls(s, before + Bytes(chunk[..p]))
  {
    RunDecided(s, before + Bytes(chunk[..p]), Bytes(chunk[p..]));
    CallsDecided(s, before + Bytes(chunk[..p]), Bytes(chunk[p..]));
    BytesAppend(before, chunk[..p], chunk[p..]);
    assert chunk[..p] + chunk[p..] == chunk;
  }

  lemma RunIsBounded(s: Settings, evs: seq<Event>)
    requires |s.speeds| > 0
    ensures Bounded(s, Run(s, evs))
  {
    if s.CanEnd() {
      RunIsWithin(s, evs);
    }
  }

  /**
   Every byte that brings no verdict moves the pair (configurations left, Limit() - count)
   down, which stays within its bounds.
   */
  lemma ByteDescends(s: Settings, d: Search, b: byte)
    requires s.CanEnd() && d.state.GoOn? && Within(s, d)
    ensures var d' := Next(s, d, Byte(b)); Within(s, d') && (d'.state.GoOn? ==> Further(d', d))
  {
  }

  lemma {:induction false} RunIsWithin(s: Settings, evs: seq<Event>)
    requires s.CanEnd() && |s.speeds| > 0
    ensures Within(s, Run(s, evs))
  {
    if |evs| > 0 {
      var n := |evs| - 1;
      RunIsWithin(s, evs[..n]);
      if Run(s, evs[..n]).state.GoOn? && evs[n].Byte? {
        ByteDescends(s, Run(s, evs[..n]), evs[n].b);
      }
    }
  }

  /** The number of match calls made over evs. */
  function Calls(s: Settings, evs: seq<Event>): nat {
    if |evs| == 0 then 0
    else
      var n := |evs| - 1;
      Calls(s, evs[..n]) + if Run(s, evs[..n]).state.GoOn? && evs[n].Byte? then 1 else 0
  }

  /** After a verdict no more match calls are made. */
  lemma {:induction false} CallsDecided(s: Settings, evs: seq<Event>, more: seq<Event>)
    requires !Run(s, evs).state.GoOn?
    ensures Calls(s, evs + more) == Calls(s, evs)
  {
    if |more| == 0 {
      assert evs + more == evs;
    } else {
      var n := |more| - 1;
      CallsDecided(s, evs, more[..n]);
      RunDecided(s, evs, more[..n]);
      assert (evs + more)[..|evs| + n] == evs + more[..n];
    }
  }

  /** The calls that n configurations can take. */
  function Budget(s: Settings, n: nat): nat {
    if n == 0 then 0 else Budget(s, n - 1) + s.Limit() + 1
  }

  lemma {:induction false} BudgetIsProduct(s: Settings, n: nat)
    ensures Budget(s, n) == n * (s.Limit() + 1)
  {
    if n > 0 {
      BudgetIsProduct(s, n - 1);
      assert n * (s.Limit() + 1) == (n - 1) * (s.Limit() + 1) + s.Limit() + 1;
    }
  }

  lemma {:induction false} BudgetGrows(s: Settings, m: nat, n: nat)
    requires m <= n
    ensures Budget(s, m) <= Budget(s, n)
  {
    if m < n {
      BudgetGrows(s, m, n - 1);
    }
  }

  /** calls fit into the budget of the configurations that d has used. */
  ghost predicate CallsFit(s: Settings, calls: nat, d: Search) {
    calls <= if d.state.GoOn? then Budget(s, d.confNo) + d.counters.count else Budget(s, |s.speeds|)
  }

  lemma CallFits(s: Settings, calls: nat, d: Search, e: Event)
    requires s.CanEnd() && d.state.GoOn? && Within(s, d) && CallsFit(s, calls, d)
    ensures CallsFit(s, calls + if e.Byte? then 1 else 0, Next(s, d, e))
  {
    assert Budget(s, d.confNo + 1) == Budget(s, d.confNo) + s.Limit() + 1;
    BudgetGrows(s, d.confNo + 1, |s.speeds|);
  }

  lemma {:induction false} CallsStayFitting(s: Settings, evs: seq<Event>)
    requires s.CanEnd() && |s.speeds| > 0
    ensures CallsFit(s, Calls(s, evs), Run(s, evs))
  {
    if |evs| > 0 {
      var n := |evs| - 1;
      CallsStayFitting(s, evs[..n]);
      RunIsWithin(s, evs[..n]);
      if Run(s, evs[..n]).state.GoOn? {
        CallFits(s, Calls(s, evs[..n]), Run(s, evs[..n]), evs[n]);
      }
    }
  }

  lemma SomeBudgetLeft(s: Settings, calls: nat, d: Search)
    requires d.state.GoOn? && Within(s, d) && CallsFit(s, calls, d)
    ensures calls < Budget(s, |s.speeds|)
  {
    assert Budget(s, d.confNo + 1) == Budget(s, d.confNo) + s.Limit() + 1;
    BudgetGrows(s, d.confNo + 1, |s.speeds|);
  }

  /**
   Whatever the bytes and the timeouts: one port makes at most Limit() + 1 match calls for each
   configuration, and fewer while it has no verdict.  Limit() + 1 is maxCount + 2 if testLength
   is positive, maxCount not negative, and neither the largest int.
   */
  lemma CallsAreBounded(s: Settings, evs: seq<Event>)
    requires s.CanEnd() && |s.speeds| > 0
    ensures Calls(s, evs) <= |s.speeds| * (s.Limit() + 1)
    ensures Run(s, evs).state.GoOn? ==> Calls(s, evs) < |s.speeds| * (s.Limit() + 1)
  {
    CallsStayFitting(s, evs);
    RunIsWithin(s, evs);
    BudgetIsProduct(s, |s.speeds|);
    if Run(s, evs).state.GoOn? {
      SomeBudgetLeft(s, Calls(s, evs), Run(s, evs));
    }
  }

  lemma {:induction false} EveryByteIsACall(s: Settings, bs: seq<byte>)
    requires Run(s, Bytes(bs)).state.GoOn?
    ensures Calls(s, Bytes(bs)) == |bs|
  {
    if |bs| > 0 {
      assert Bytes(bs)[..|bs| - 1] == Bytes(bs[..|bs| - 1]);
      EveryByteIsACall(s, bs[..|bs| - 1]);
    }
  }

  /** Any n bytes bring a verdict. */
  ghost predicate EndsBy(s: Settings, n: nat) {
    forall bs :: |bs| >= n ==> !Run(s, Bytes(bs)).state.GoOn?
  }

  /** A counter that cannot exceed the largest int brings no verdict. */
  lemma {:induction false} NothingExceedsMax(s: Settings, bs: seq<byte>)
    requires s.maxCount == s.testLength == INT_MAX
    ensures Run(s, Bytes(bs)).state.GoOn?
  {
    if |bs| > 0 {
      var n := |bs| - 1;
      NothingExceedsMax(s, bs[..n]);
      BytesNext([], bs, n);
      assert bs[..n + 1] == bs && [] + Bytes(bs) == Bytes(bs) && [] + Bytes(bs[..n]) == Bytes(bs[..n]);
      RunNext(s, Bytes(bs[..n]), Byte(bs[n]));
    }
  }

  lemma EndsWhenItCan(s: Settings) returns (n: nat)
    requires |s.speeds| > 0 && s.CanEnd()
    ensures EndsBy(s, n)
  {
    n := |s.speeds| * (s.Limit() + 1);
    forall bs: seq<byte> | |bs| >= n ensures !Run(s, Bytes(bs)).state.GoOn? {
      CallsAreBounded(s, Bytes(bs));
      if Run(s, Bytes(bs)).state.GoOn? {
        EveryByteIsACall(s, bs);
      }
    }
  }

  lemma NeverEndsOtherwise(s: Settings, n: nat) returns (bs: seq<byte>)
    requires !s.CanEnd()
    ensures |bs| == n && Run(s, Bytes(bs)).state.GoOn?
  {
    if s.testLength == INT_MAX {
      bs := seq(n, _ => 0);
      NothingExceedsMax(s, bs);
    } else {
      var b: byte, c: byte :| s.Good(b) && !s.Good(c);
      ZigzagNeverEnds(s, b, c, n);
      ZigzagIsRun(s, b, c, n);
      bs := Alternating(b, c, n);
    }
  }

  /**
   There is a number of bytes after which every search has its verdict exactly if maxCount is
   not the largest int, or testLength is not positive, or the ranges hold all bytes or none
   and testLength is not the largest int.
   */
  lemma DetectionEndsExactly(s: Settings)
    requires |s.speeds| > 0
    ensures s.CanEnd() <==> exists n: nat :: EndsBy(s, n)
  {
    if s.CanEnd() {
      var n := EndsWhenItCan(s);
    } else {
      forall n: nat ensures !EndsBy(s, n) {
        var bs := NeverEndsOtherwise(s, n);
      }
    }
  }

  function Alternating(good: byte, bad: byte, n: nat): (bs: seq<byte>)
    ensures |bs| == n
  {
    seq(n, i => if i % 2 == 0 then good else bad)
  }

  /** The search over n alternating bytes. */
  function Zigzag(s: Settings, good: byte, bad: byte, n: nat): Search {
    if n == 0 then START else Next(s, Zigzag(s, good, bad, n - 1), Byte(if n % 2 == 1 then good else bad))
  }

  lemma AlternatingNext(good: byte, bad: byte, n: nat)
    requires n > 0
    ensures Bytes(Alternating(good, bad, n)) ==
            Bytes(Alternating(good, bad, n - 1)) + [Byte(if n % 2 == 1 then good else bad)]
  {
  }

  lemma {:induction false} ZigzagIsRun(s: Settings, good: byte, bad: byte, n: nat)
    ensures Run(s, Bytes(Alternating(good, bad, n))) == Zigzag(s, good, bad, n)
  {
    if n > 0 {
      ZigzagIsRun(s, good, bad, n - 1);
      AlternatingNext(good, bad, n);
      RunNext(s, Bytes(Alternating(good, bad, n - 1)), Byte(if n % 2 == 1 then good else bad));
    }
  }

  /** No run gets longer than one byte. */
  ghost predicate ShortRuns(m: Counters, n: nat) {
    if n % 2 == 0 then m.corrects == 0 && 0 <= m.errors <= 1 else m.errors == 0 && 0 <= m.corrects <= 1
  }

  lemma {:induction false} ZigzagNeverEnds(s: Settings, good: byte, bad: byte, n: nat)
    requires s.Good(good) && !s.Good(bad) && s.maxCount == INT_MAX && s.testLength > 0
    ensures Zigzag(s, good, bad, n).state.GoOn? && ShortRuns(Zigzag(s, good, bad, n).counters, n)
  {
    if n > 0 {
      ZigzagNeverEnds(s, good, bad, n - 1);
    }
  }

  /** The state after n alternating bytes: each configuration takes all it can. */
  ghost predicate Worst(s: Settings, d: Search, n: nat) {
    if n == Budget(s, |s.speeds|) then d.state.Fail?
    else
      && d.state.GoOn? && d.confNo < |s.speeds| && 0 <= d.counters.count <= s.Limit()
      && n == Budget(s, d.confNo) + d.counters.count && ShortRuns(d.counters, n)
  }

  lemma WorstNext(s: Settings, d: Search, n: nat, b: byte)
    requires 0 <= s.maxCount < INT_MAX && s.testLength > 0 && n < Budget(s, |s.speeds|)
    requires Worst(s, d, n) && (s.Good(b) <==> n % 2 == 0)
    ensures Worst(s, Next(s, d, Byte(b)), n + 1)
  {
    assert Budget(s, d.confNo + 1) == Budget(s, d.confNo) + s.Limit() + 1;
    if d.confNo + 1 < |s.speeds| {
      assert Budget(s, d.confNo + 2) == Budget(s, d.confNo + 1) + s.Limit() + 1;
      BudgetGrows(s, d.confNo + 2, |s.speeds|);
    }
  }

  lemma {:induction false} WorstCase(s: Settings, good: byte, bad: byte, n: nat)
    requires |s.speeds| > 0 && s.Good(good) && !s.Good(bad) && 0 <= s.maxCount < INT_MAX && s.testLength > 0
    requires n <= Budget(s, |s.speeds|)
    ensures Worst(s, Zigzag(s, good, bad, n), n)
  {
    if n > 0 {
      WorstCase(s, good, bad, n - 1);
      WorstNext(s, Zigzag(s, good, bad, n - 1), n - 1, if n % 2 == 1 then good else bad);
    } else {
      BudgetGrows(s, 1, |s.speeds|);
    }
  }

  lemma ZigzagCalls(s: Settings, good: byte, bad: byte, n: nat)
    requires n > 0 && Zigzag(s, good, bad, n - 1).state.GoOn?
    ensures Calls(s, Bytes(Alternating(good, bad, n))) == n
  {
    ZigzagIsRun(s, good, bad, n - 1);
    EveryByteIsACall(s, Alternating(good, bad, n - 1));
    AlternatingNext(good, bad, n);
  }

  lemma WorstEnd(s: Settings, good: byte, bad: byte, n: nat)
    requires |s.speeds| > 0 && s.Good(good) && !s.Good(bad) && 0 <= s.maxCount < INT_MAX && s.testLength > 0
    requires n == Budget(s, |s.speeds|)
    ensures n > 0 && Zigzag(s, good, bad, n - 1).state.GoOn? && Zigzag(s, good, bad, n).state.Fail?
  {
    BudgetGrows(s, 1, |s.speeds|);
    WorstCase(s, good, bad, n - 1);
    WorstCase(s, good, bad, n);
  }

  lemma WorstBytes(s: Settings, good: byte, bad: byte, n: nat)
    requires |s.speeds| > 0 && s.Good(good) && !s.Good(bad) && 0 <= s.maxCount < INT_MAX && s.testLength > 0
    requires n == Budget(s, |s.speeds|)
    ensures Run(s, Bytes(Alternating(good, bad, n))).state.Fail? && Calls(s, Bytes(Alternating(good, bad, n))) == n
  {
    WorstEnd(s, good, bad, n);
    ZigzagCalls(s, good, bad, n);
    ZigzagIsRun(s, good, bad, n);
  }

  /** The bound is reached: there are bytes that take exactly that many calls before the search fails. */
  lemma BoundIsReached(s: Settings, good: byte, bad: byte) returns (bs: seq<byte>)
    requires |s.speeds| > 0 && s.Good(good) && !s.Good(bad) && 0 <= s.maxCount < INT_MAX && s.testLength > 0
    ensures Run(s, Bytes(bs)).state.Fail? && Calls(s, Bytes(bs)) == |s.speeds| * (s.maxCount + 2)
  {
    var n := Budget(s, |s.speeds|);
    BudgetIsProduct(s, |s.speeds|);
    WorstBytes(s, good, bad, n);
    bs := Alternating(good, bad, n);
  }
}
