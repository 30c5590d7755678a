/** At which speed the bytes of a search were received, which is not always that at which they were matched. */
module Reception {
  import opened Basics
  import opened SpeedSearch
  import opened Channels

  /** For each event, the event with which its read began; a timeout begins its own. */
  ghost predicate WellRead(evs: seq<Event>, starts: seq<nat>) {
    && |starts| == |evs|
    && (forall n :: 0 <= n < |evs| ==> starts[n] <= n)
    && forall n :: 0 < n < |evs| && starts[n] != n ==> starts[n] == starts[n - 1]
  }

  lemma {:induction false} ReadsInOrder(evs: seq<Event>, starts: seq<nat>, m: nat, n: nat)
    requires WellRead(evs, starts) && m <= n < |evs|
    ensures starts[m] <= starts[n]
  {
    if m < n && starts[n] != n {
      ReadsInOrder(evs, starts, m, n - 1);
    }
  }

  /** The speed of the port when event n happens. */
  function SpeedAt(s: Settings, evs: seq<Event>, n: nat): nat
    requires n <= |evs|
  {
    var c := Run(s, evs[..n]).confNo;
    if c < |s.speeds| then s.speeds[c] else 0
  }

  /** The speed of the port at the beginning of the read of each byte of evs. */
  ghost function ReceivedAt(s: Settings, evs: seq<Event>, starts: seq<nat>): seq<nat>
    requires WellRead(evs, starts)
  {
    if |evs| == 0 then []
    else
      var n := |evs| - 1;
      ReceivedAt(s, evs[..n], starts[..n]) + if evs[n].Byte? then [SpeedAt(s, evs, starts[n])] else []
  }

  lemma OneMore(s: Settings, evs: seq<Event>, starts: seq<nat>, e: Event, start: nat)
    requires WellRead(evs, starts) && WellRead(evs + [e], starts + [start])
    ensures start <= |evs|
    ensures ReceivedAt(s, evs + [e], starts + [start]) ==
            ReceivedAt(s, evs, starts) + if e.Byte? then [SpeedAt(s, evs, start)] else []
  {
    assert (starts + [start])[|evs|] == start;
    assert (evs + [e])[..|evs|] == evs && (starts + [start])[..|evs|] == starts;
    assert (evs + [e])[..start] == evs[..start];
  }

  /** A read of chunk: all its bytes are received at the speed of its beginning. */
  lemma {:induction false} ReadReceived(s: Settings, evs: seq<Event>, starts: seq<nat>, chunk: seq<byte>)
    requires WellRead(evs, starts)
    ensures WellRead(evs + Bytes(chunk), starts + Repeat(|evs|, |chunk|))
    ensures ReceivedAt(s, evs + Bytes(chunk), starts + Repeat(|evs|, |chunk|)) ==
            ReceivedAt(s, evs, starts) + Repeat(SpeedAt(s, evs, |evs|), |chunk|)
  {
    if |chunk| == 0 {
      assert evs + Bytes(chunk) == evs && starts + Repeat(|evs|, 0) == starts;
    } else {
      var n := |chunk| - 1;
      ReadReceived(s, evs, starts, chunk[..n]);
      assert chunk[..n + 1] == chunk;
      BytesNext(evs, chunk, n);
      RepeatNext(starts, |evs|, n);
      RepeatNext(ReceivedAt(s, evs, starts), SpeedAt(s, evs, |evs|), n);
      assert (evs + Bytes(chunk[..n]))[..|evs|] == evs[..|evs|];
      OneMore(s, evs + Bytes(chunk[..n]), starts + Repeat(|evs|, n), Byte(chunk[n]), |evs|);
    }
  }

  lemma RepeatNext(xs: seq<nat>, x: nat, n: nat)
    ensures xs + Repeat(x, n + 1) == xs + Repeat(x, n) + [x]
  {
  }

  /** takenAt are the speeds at which the bytes of evs were received, and then that of more bytes. */
  ghost predicate RecordedAs(s: Settings, evs: seq<Event>, starts: seq<nat>, takenAt: seq<nat>, speed: nat, more: nat) {
    WellRead(evs, starts) && takenAt == ReceivedAt(s, evs, starts) + Repeat(speed, more)
  }

  lemma RecordMatch(s: Settings, evs: seq<Event>, starts: seq<nat>, takenAt: seq<nat>, chunk: seq<byte>, speed: nat)
    requires RecordedAs(s, evs, starts, takenAt, SpeedAt(s, evs, |evs|), |chunk|)
    ensures RecordedAs(s, evs + Bytes(chunk), starts + Repeat(|evs|, |chunk|), takenAt, speed, 0)
  {
    ReadReceived(s, evs, starts, chunk);
    assert takenAt + Repeat(speed, 0) == takenAt;
  }

  /** The byte of event n, and the speed at which it was received, among all bytes. */
  lemma {:induction false} ByteOfEvent(s: Settings, evs: seq<Event>, starts: seq<nat>, n: nat)
    requires WellRead(evs, starts) && n < |evs| && evs[n].Byte?
    ensures var x := |BytesIn(evs[..n])|;
      && x < |BytesIn(evs)| == |ReceivedAt(s, evs, starts)|
      && BytesIn(evs)[x] == evs[n].b && ReceivedAt(s, evs, starts)[x] == SpeedAt(s, evs, starts[n])
  {
    var m := |evs| - 1;
    SameLength(s, evs[..m], starts[..m]);
    if n < m {
      ByteOfEvent(s, evs[..m], starts[..m], n);
      assert evs[..m][..n] == evs[..n] && evs[..m][..starts[n]] == evs[..starts[n]];
    }
  }

  lemma {:induction false} SameLength(s: Settings, evs: seq<Event>, starts: seq<nat>)
    requires WellRead(evs, starts)
    ensures |BytesIn(evs)| == |ReceivedAt(s, evs, starts)|
  {
    if |evs| > 0 {
      SameLength(s, evs[..|evs| - 1], starts[..|evs| - 1]);
    }
  }

  // ---------------------------------------------------------------- the reads of one tryMatch

  /**
   From before, with fed taken in: reads of 1000 bytes were made until one delivered nothing, or
   brought the verdict.
   */
  ghost predicate ReadToEnd(s: Settings, before: seq<Event>, fed: seq<byte>, log: seq<Transfer>, log': seq<Transfer>,
                            state: State) {
    var last := LastGot(log');
    && last <= |fed| && ReadOn(log, log', 1000, |fed| - last, last)
    && Run(s, before + Bytes(fed[..|fed| - last])).state.GoOn?
    && (state.GoOn? <==> last == 0)
  }

  lemma VerdictEnds(s: Settings, before: seq<Event>, fed: seq<byte>, chunk: seq<byte>, log: seq<Transfer>,
                    log': seq<Transfer>, state: State)
    requires Run(s, before + Bytes(fed)).state.GoOn? && !state.GoOn?
    requires chunk != [] && ReadOn(log, log', 1000, |fed|, |chunk|)
    ensures ReadToEnd(s, before, fed + chunk, log, log', state)
  {
    assert (fed + chunk)[..|fed|] == fed;
  }

  lemma NothingEnds(s: Settings, before: seq<Event>, fed: seq<byte>, log: seq<Transfer>, log': seq<Transfer>)
    requires Run(s, before + Bytes(fed)).state.GoOn? && ReadOn(log, log', 1000, |fed|, 0)
    ensures ReadToEnd(s, before, fed, log, log', GoOn)
  {
    assert fed[..|fed|] == fed;
  }

  // ---------------------------------------------------------------- received at the reported speed

  /** The configuration that is current at event j is so from event k on, and was not before. */
  lemma CurrentFrom(s: Settings, evs: seq<Event>, j: nat, k: nat, bs: seq<byte>, m: nat)
    requires m <= j <= |evs| && CurrentSince(s, evs[..j], Run(s, evs[..j]), k, bs)
    ensures Run(s, evs[..m]).confNo == Run(s, evs[..j]).confNo <==> m >= k
  {
    assert evs[..j][..k] == evs[..k] && (k > 0 ==> evs[..j][..k - 1] == evs[..k - 1]);
    if m >= k {
      Onward(s, evs, k, m);
      Onward(s, evs, m, j);
    } else {
      Onward(s, evs, m, k - 1);
    }
  }

  lemma Onward(s: Settings, evs: seq<Event>, m: nat, n: nat)
    requires m <= n <= |evs|
    ensures Run(s, evs[..m]).confNo <= Run(s, evs[..n]).confNo
  {
    assert evs[..n] == evs[..m] + evs[m..n];
    RunGoesForward(s, evs[..m], evs[m..n]);
  }

  /** Event n was received while the configuration that is current at event j was already set. */
  ghost predicate ReceivedWith(s: Settings, evs: seq<Event>, starts: seq<nat>, n: nat, j: nat)
    requires WellRead(evs, starts) && n < |evs| && j <= |evs|
  {
    Run(s, evs[..starts[n]]).confNo == Run(s, evs[..j]).confNo
  }

  /**
   The bytes from event first on that justify a success at event j - 1 were all received with the
   configuration that is reported exactly if the read of the first of them began after it was
   set.  Otherwise a failure inside that read set it, and the rest of the read was matched for it.
   */
  lemma ReceivedAsReported(s: Settings, evs: seq<Event>, starts: seq<nat>, j: nat, k: nat, bs: seq<byte>, first: nat)
    requires WellRead(evs, starts) && first < j <= |evs| && k <= first
    requires CurrentSince(s, evs[..j], Run(s, evs[..j]), k, bs)
    ensures (forall n :: first <= n < j ==> ReceivedWith(s, evs, starts, n, j)) <==> starts[first] >= k
  {
    forall n | first <= n < j ensures ReceivedWith(s, evs, starts, n, j) <==> starts[n] >= k {
      CurrentFrom(s, evs, j, k, bs, starts[n]);
    }
    forall n | first <= n < j ensures starts[first] <= starts[n] {
      ReadsInOrder(evs, starts, first, n);
    }
    assert ReceivedWith(s, evs, starts, first, j) <==> starts[first] >= k;
  }

  /** One read of four bytes: all were received at 300, and 600 is reported. */
  lemma ReportedUnheard()
    ensures var s := Settings([Range(1, 1)], [300, 600], 1, 100);
      var evs, starts := Bytes([0, 0, 1, 1]), Repeat(0, 4);
      && Run(s, evs) == Search(1, Counters(2, 0, 2), Success)
      && WellRead(evs, starts) && ReceivedAt(s, evs, starts) == [300, 300, 300, 300]
  {
    var s := Settings([Range(1, 1)], [300, 600], 1, 100);
    var evs := Bytes([0, 0, 1, 1]);
    assert s.ranges[0].In(1) && s.Good(1) && !s.Good(0);
    assert evs == [] + [Byte(0)] + [Byte(0)] + [Byte(1)] + [Byte(1)];
    RunNext(s, [], Byte(0));
    RunNext(s, [] + [Byte(0)], Byte(0));
    RunNext(s, [] + [Byte(0)] + [Byte(0)], Byte(1));
    RunNext(s, [] + [Byte(0)] + [Byte(0)] + [Byte(1)], Byte(1));
    ReadReceived(s, [], [], [0, 0, 1, 1]);
    assert [] + Bytes([0, 0, 1, 1]) == evs && [] + Repeat(0, 4) == Repeat(0, 4);
    assert ReceivedAt(s, [], []) + Repeat(300, 4) == [300, 300, 300, 300];
  }
}
