/** SpeedDetector.java: the bytes of every port matched while its configurations are tried. */
module SpeedDetection {
  import opened Basics
  import opened Buffers
  import opened Channels
  import opened SpeedSearch
  import opened Reception

  method InRange(ranges: seq<Range>, b: byte) returns (found: bool)
    ensures found <==> exists i :: 0 <= i < |ranges| && ranges[i].In(b)
  {
    for i := 0 to |ranges|
      invariant forall j :: 0 <= j < i ==> !ranges[j].In(b)
    {
      if ranges[i].In(b) {
        return true;
      }
    }
    found := false;
  }

  class Matcher {
    const settings: Settings
    var corrects: int32
    var errors: int32
    var count: int32
    ghost var calls: nat    // how often a byte was matched

    function Counters(): Counters
      reads this
    {
      SpeedSearch.Counters(corrects, errors, count)
    }

    constructor (settings: Settings)
      ensures this.settings == settings && Counters() == ZERO && calls == 0
    {
      this.settings, calls := settings, 0;
      corrects, errors, count := 0, 0, 0;
    }

    method Match(b: byte) returns (state: State)
      modifies this
      ensures Answer(Counters(), state) == Matched(settings, old(Counters()), b) && calls == old(calls) + 1
    {
      calls := calls + 1;
      if count > settings.maxCount {
        return Fail;
      }
      count := Increment(count);
      var found := InRange(settings.ranges, b);
      if !found {
        errors := Increment(errors);
        corrects := 0;
      } else {
        errors := 0;
        corrects := Increment(corrects);
      }
      if corrects > settings.testLength {
        return Success;
      }
      if errors > settings.testLength {
        return Fail;
      }
      return GoOn;
    }

    method Reset()
      modifies this
      ensures Counters() == ZERO && calls == old(calls)
    {
      errors, corrects, count := 0, 0, 0;
    }
  }

  /** The search at one port; log holds the bytes it took from its channel and its timeouts. */
  class Ctx {
    const port: string
    const settings: Settings
    const bb: ByteBuffer
    const matcher: Matcher
    var confNo: nat
    ghost var log: seq<Event>
    ghost var tries: nat          // how often the port was tried
    ghost var starts: seq<nat>    // for each event, the one with which its read began

    ghost function Reached(): Search
      reads this
    {
      Run(settings, log)
    }

    ghost predicate Valid()
      reads this, matcher, bb, bb.store
    {
      && matcher.settings == settings && |settings.speeds| > 0
      && bb.Valid() && bb.InStore() && bb.size == 1000
      && confNo == Reached().confNo && matcher.Counters() == Reached().counters
      && matcher.calls == Calls(settings, log)
    }

    constructor (port: string, settings: Settings)
      requires |settings.speeds| > 0
      ensures Valid() && this.port == port && this.settings == settings && log == [] && starts == [] && tries == 0
      ensures fresh(bb) && fresh(bb.store) && fresh(matcher)
    {
      this.port, this.settings := port, settings;
      bb := new ByteBuffer(1000, false);
      matcher := new Matcher(settings);
      confNo, log, starts, tries := 0, [], [], 0;
    }

    /** The speed of the current configuration. */
    function GetSpeed(): nat
      requires confNo < |settings.speeds|
      reads this
    {
      settings.speeds[confNo]
    }

    /** The channel runs at the speed of the current configuration. */
    ghost predicate Tuned(channel: SerialChannel)
      reads this, channel
    {
      confNo < |settings.speeds| && channel.speed == settings.speeds[confNo]
    }

    method NextConfiguration(channel: SerialChannel) returns (has: bool)
      requires confNo < |settings.speeds|
      modifies `confNo, matcher, channel`speed
      ensures Search(confNo, matcher.Counters(), if has then GoOn else Fail)
              == Advance(settings, Search(old(confNo), old(matcher.Counters()), GoOn))
      ensures has == (confNo < |settings.speeds|) && matcher.calls == old(matcher.calls)
      ensures if has then Tuned(channel) else channel.speed == old(channel.speed)
    {
      confNo := confNo + 1;
      if confNo == |settings.speeds| {
        return false;
      }
      channel.Configure(settings.speeds[confNo]);
      matcher.Reset();
      return true;
    }

    /** What configure does after a select that timed out. */
    method TimeOut(channel: SerialChannel) returns (has: bool)
      requires Valid() && Reached().state.GoOn? && Tuned(channel)
      modifies `confNo, `log, `starts, matcher, channel`speed
      ensures starts == old(starts) + [|old(log)|]
      ensures Valid() && log == old(log) + [Timeout] && Reached() == Next(settings, old(Reached()), Timeout)
      ensures has == Reached().state.GoOn? && (has ==> Tuned(channel)) && !Reached().state.Success?
    {
      RunNext(settings, log, Timeout);
      has := NextConfiguration(channel);
      log, starts := log + [Timeout], starts + [|log|];
    }

    /** One byte of bb: GoOn also if it made the search try the next configuration. */
    method MatchNext(channel: SerialChannel) returns (state: State)
      requires Valid() && Reached().state.GoOn? && bb.HasRemaining() && Tuned(channel)
      modifies `confNo, `log, matcher, bb`position, channel`speed
      ensures Valid() && log == old(log) + [Byte(old(bb.State().bytes[bb.position]))] && state == Reached().state
      ensures bb.State() == old(bb.State()).(position := old(bb.position) + 1)
      ensures !state.Fail? ==> Tuned(channel)
    {
      var b := bb.Get(1);
      state := matcher.Match(b[0]);
      RunNext(settings, log, Byte(b[0]));
      log := log + [Byte(b[0])];
      if state.Fail? {
        var has := NextConfiguration(channel);
        if has {
          state := GoOn;
        }
      }
    }

    /** Within the bytes of one read: the search got beyond start with those before the position. */
    ghost predicate InChunk(chunk: seq<byte>, before: seq<Event>, start: Search)
      reads this, matcher, bb, bb.store
    {
      && Valid() && bb.position <= bb.limit == |chunk| && bb.State().bytes[..|chunk|] == chunk
      && SoFar(settings, before, chunk, bb.position, start, log)
    }

    /** One round of the loop in MatchChunk; with a verdict the rest of chunk is logged unmatched. */
    method MatchRound(channel: SerialChannel, ghost chunk: seq<byte>, ghost before: seq<Event>, ghost start: Search)
      returns (state: State)
      requires InChunk(chunk, before, start) && bb.HasRemaining() && Tuned(channel)
      modifies `confNo, `log, matcher, bb`position, channel`speed
      ensures bb.Valid() && bb.limit == old(bb.limit)
      ensures if state.GoOn? then InChunk(chunk, before, start) && bb.position == old(bb.position) + 1
              else Valid() && log == before + Bytes(chunk) && state == Reached().state
      ensures !state.Fail? ==> Tuned(channel)
    {
      ghost var p := bb.position;
      assert bb.State().bytes[p] == bb.State().bytes[..|chunk|][p];
      NextOfChunk(settings, before, chunk, p, start, log);
      state := MatchNext(channel);
      if !state.GoOn? {
        log := before + Bytes(chunk);
      }
    }

    /** The bytes of one read, which are in bb. */
    method MatchChunk(channel: SerialChannel, ghost chunk: seq<byte>) returns (state: State)
      requires Valid() && Reached().state.GoOn? && Bounded(settings, Reached()) && Tuned(channel)
      requires bb.position == |chunk| && bb.State().bytes[..|chunk|] == chunk
      modifies `confNo, `log, matcher, bb, channel`speed
      ensures Valid() && log == old(log) + Bytes(chunk) && state == Reached().state
      ensures !state.Fail? ==> Tuned(channel)
      ensures state.GoOn? ==>
        Bounded(settings, Reached()) && (chunk != [] && settings.CanEnd() ==> Further(Reached(), old(Reached())))
    {
      bb.Flip();
      ghost var before, start := log, Reached();
      assert before + Bytes(chunk[..0]) == before;
      while bb.HasRemaining()
        invariant InChunk(chunk, before, start) && Tuned(channel)
        decreases bb.limit - bb.position
      {
        state := MatchRound(channel, chunk, before, start);
        if !state.GoOn? {
          return;
        }
      }
      assert chunk[..|chunk|] == chunk;
      state := GoOn;
    }

    /** What the channel recorded are the speeds of the bytes in the log, and then that of more bytes. */
    ghost predicate Recorded(channel: SerialChannel, more: nat)
      reads this, channel
    {
      RecordedAs(settings, log, starts, channel.takenAt, channel.speed, more)
    }

    /** Reads into the emptied buffer; chunk is what the channel delivers. */
    method ReadChunk(channel: SerialChannel) returns (rc: int, ghost chunk: seq<byte>)
      requires Valid() && Recorded(channel, 0)
      modifies channel`taken, channel`takenAt, channel`supply, channel`readLog, bb, bb.store
      ensures chunk != [] && !channel.endless ==> channel.supply < old(channel.supply)
      ensures OneRead(old(channel.readLog), channel.readLog, 1000, |chunk|)
      ensures Valid() && channel.taken == old(channel.taken) + chunk && Recorded(channel, |chunk|)
      ensures (rc > 0 <==> chunk != []) && bb.position == |chunk| && bb.State().bytes[..|chunk|] == chunk
    {
      bb.Clear();
      rc := channel.Read(bb);
      chunk := channel.taken[|old(channel.taken)|..];
    }

    /** The bytes of one read, which are recorded already. */
    method MatchRead(channel: SerialChannel, ghost chunk: seq<byte>) returns (state: State)
      requires Valid() && Reached().state.GoOn? && Bounded(settings, Reached()) && Tuned(channel)
      requires bb.position == |chunk| && bb.State().bytes[..|chunk|] == chunk && Recorded(channel, |chunk|)
      modifies `confNo, `log, `starts, matcher, bb, channel`speed
      ensures Valid() && log == old(log) + Bytes(chunk) && state == Reached().state
      ensures (!state.Fail? ==> Tuned(channel)) && Recorded(channel, 0)
      ensures state.GoOn? ==>
        Bounded(settings, Reached()) && (chunk != [] && settings.CanEnd() ==> Further(Reached(), old(Reached())))
    {
      ghost var before := log;
      assert before[..|before|] == before;
      state := MatchChunk(channel, chunk);
      RecordMatch(settings, before, starts, channel.takenAt, chunk, channel.speed);
      starts := starts + Repeat(|before|, |chunk|);
    }

    /** Between two reads: fed has been matched, chunk has just been read, and there is no verdict. */
    ghost predicate AfterRead(channel: SerialChannel, chunk: seq<byte>, fed: seq<byte>, before: seq<Event>,
                              taken: seq<byte>)
      reads this, matcher, bb, bb.store, channel
    {
      && Valid() && Reached().state.GoOn? && Tuned(channel) && Bounded(settings, Reached())
      && log == before + Bytes(fed) && channel.taken == taken + fed + chunk && Recorded(channel, |chunk|)
      && bb.position == |chunk| && bb.State().bytes[..|chunk|] == chunk
    }

    /** What precedes the loop in TryMatch. */
    method FirstRead(channel: SerialChannel) returns (rc: int, ghost chunk: seq<byte>)
      requires Valid() && Reached().state.GoOn? && Tuned(channel) && Recorded(channel, 0)
      modifies channel`taken, channel`takenAt, channel`supply, channel`readLog, bb, bb.store
      ensures AfterRead(channel, chunk, [], log, old(channel.taken)) && (rc > 0 <==> chunk != [])
      ensures ReadOn(old(channel.readLog), channel.readLog, 1000, 0, |chunk|)
    {
      RunIsBounded(settings, log);
      ghost var taken := channel.taken;
      rc, chunk := ReadChunk(channel);
      assert log + Bytes([]) == log && taken + [] + chunk == taken + chunk;
    }

    /** One round of the loop in TryMatch. */
    method TryChunk(channel: SerialChannel, ghost chunk: seq<byte>, ghost fed: seq<byte>, ghost before: seq<Event>,
                    ghost taken: seq<byte>)
      returns (state: State, rc: int, ghost chunk': seq<byte>)
      requires AfterRead(channel, chunk, fed, before, taken) && chunk != []
      modifies `confNo, `log, `starts, matcher, bb, bb.store
      modifies channel`taken, channel`takenAt, channel`supply, channel`readLog, channel`speed
      ensures if state.GoOn? then
                && AfterRead(channel, chunk', fed + chunk, before, taken) && (rc > 0 <==> chunk' != [])
                && (settings.CanEnd() ==> Further(Reached(), old(Reached())))
                && (chunk' != [] && !channel.endless ==> channel.supply < old(channel.supply))
                && OneRead(old(channel.readLog), channel.readLog, 1000, |chunk'|)
              else
                && Valid() && channel.taken == taken + (fed + chunk) && log == before + Bytes(fed + chunk)
                && state == Reached().state && (!state.Fail? ==> Tuned(channel)) && Recorded(channel, 0)
                && channel.readLog == old(channel.readLog)
    {
      BytesAppend(before, fed, chunk);
      assert taken + fed + chunk == taken + (fed + chunk);
      state := MatchRead(channel, chunk);
      rc, chunk' := 0, [];
      if state.GoOn? {
        rc, chunk' := ReadChunk(channel);
      }
    }

    /**
     The verdict depends on the bytes taken alone, not on the reads that delivered them.  The
     reading ends whatever the channel delivers if detection can end; else when the channel has
     nothing for a moment.
     */
    method TryMatch(channel: SerialChannel) returns (state: State, ghost fed: seq<byte>)
      requires Valid() && Reached().state.GoOn? && Tuned(channel) && (channel.endless ==> settings.CanEnd())
      requires Recorded(channel, 0)
      modifies `confNo, `log, `starts, `tries, matcher, bb, bb.store
      modifies channel`taken, channel`takenAt, channel`supply, channel`readLog, channel`speed
      ensures Valid() && channel.taken == old(channel.taken) + fed && log == old(log) + Bytes(fed)
      ensures state == Reached().state && (!state.Fail? ==> Tuned(channel)) && Recorded(channel, 0)
      ensures tries == old(tries) + 1
      ensures ReadToEnd(settings, old(log), fed, old(channel.readLog), channel.readLog, state)
    {
      tries := tries + 1;
      state, fed := TryReads(channel);
    }

    /** The reads of tryMatch, and the matching of what they deliver. */
    method TryReads(channel: SerialChannel) returns (state: State, ghost fed: seq<byte>)
      requires Valid() && Reached().state.GoOn? && Tuned(channel) && (channel.endless ==> settings.CanEnd())
      requires Recorded(channel, 0)
      modifies `confNo, `log, `starts, matcher, bb, bb.store
      modifies channel`taken, channel`takenAt, channel`supply, channel`readLog, channel`speed
      ensures Valid() && channel.taken == old(channel.taken) + fed && log == old(log) + Bytes(fed)
      ensures state == Reached().state && (!state.Fail? ==> Tuned(channel)) && Recorded(channel, 0)
      ensures ReadToEnd(settings, old(log), fed, old(channel.readLog), channel.readLog, state)
    {
      var rc;
      ghost var chunk;
      ghost var before, taken, reads0 := log, channel.taken, channel.readLog;
      fed := [];
      rc, chunk := FirstRead(channel);
      while rc > 0
        invariant AfterRead(channel, chunk, fed, before, taken) && (rc > 0 <==> chunk != [])
        invariant ReadOn(reads0, channel.readLog, 1000, |fed|, |chunk|)
        decreases if settings.CanEnd() then |settings.speeds| - Reached().confNo
                  else if chunk != [] then channel.supply + 1 else 0,
                  if settings.CanEnd() then settings.Limit() - Reached().counters.count else 0
      {
        ghost var rest, log0 := chunk, channel.readLog;
        state, rc, chunk := TryChunk(channel, rest, fed, before, taken);
        if !state.GoOn? {
          VerdictEnds(settings, before, fed, rest, reads0, log0, state);
          fed := fed + rest;
          return;
        }
        NextOfReads(reads0, log0, channel.readLog, 1000, |fed|, |rest|, |chunk|);
        fed := fed + rest;
      }
      state := GoOn;
      NothingEnds(settings, before, fed, reads0, channel.readLog);
    }
  }
}
