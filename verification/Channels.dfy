/**
 SerialChannel.java: the read and write loops over arrays of buffers, above single-buffer
 reads and writes that transfer any number of bytes.  One thread, as under the channel's
 readLock and writeLock.
 */
module Channels {
  import opened Basics
  import opened Buffers
  import opened FillOrder

  /** A buffer that received the bytes of area. */
  function Filled(s: Snapshot, area: seq<byte>): Snapshot
    requires s.Valid() && |area| <= s.Room()
  {
    s.With(s.position, area).At(s.position + |area|)
  }

  /** A single-buffer transfer: the room, or the bytes, that it was offered, and its answer. */
  datatype Transfer = Transfer(offered: nat, answer: int) {
    predicate Full() {
      answer == offered
    }
  }

  class SerialChannel {
    var sent: seq<byte>       // everything written to the port
    var taken: seq<byte>      // everything read from the port
    var takenAt: seq<nat>     // the speed of the port at the read of each byte of taken
    var stalls: nat           // how often a write may still transfer nothing before one makes progress
    const endless: bool       // every read may deliver something
    var supply: nat           // else: how many more reads may before one does not

    ghost var writeLog: seq<Transfer>
    ghost var readLog: seq<Transfer>

    var speed: nat            // what the port is configured to

    constructor (speed: nat, endless: bool)
      ensures sent == [] && taken == [] && takenAt == [] && writeLog == [] && readLog == []
      ensures this.speed == speed && this.endless == endless
    {
      writeLog, readLog := [], [];
      sent, taken, takenAt, stalls, this.speed, this.endless, supply := [], [], [], *, speed, endless, *;
    }

    method Configure(speed: nat)
      modifies `speed
      ensures this.speed == speed
    {
      this.speed := speed;
    }

    /** A single-buffer write: short, possibly empty. */
    method Write(bb: ByteBuffer) returns (n: nat)
      requires bb.Valid() && bb.InStore()
      modifies `sent, `stalls, `writeLog, bb`position, bb`mark
      ensures writeLog == old(writeLog) + [Transfer(old(bb.State()).Room(), n)]
      ensures n <= old(bb.State()).Room()
      ensures bb.State() == old(bb.State()).At(old(bb.position) + n)
      ensures sent == old(sent) + old(bb.State()).Rest()[..n]
      ensures n == 0 && old(bb.HasRemaining()) ==> stalls < old(stalls)
    {
      var rest := bb.Peek(bb.limit - bb.position);
      assert rest == bb.State().Rest();
      n :| n <= |rest| && (n == 0 && |rest| > 0 ==> stalls > 0);
      if n == 0 && stalls > 0 {
        stalls := stalls - 1;
      } else {
        stalls := *;
      }
      writeLog := writeLog + [Transfer(|rest|, n)];
      sent := sent + rest[..n];
      bb.SetPosition(bb.position + n);
    }

    /** A single-buffer read: short, possibly empty, or -1. */
    method Read(bb: ByteBuffer) returns (rc: int)
      requires bb.Valid() && bb.InStore()
      modifies `taken, `takenAt, `supply, `readLog, bb`position, bb`mark, bb.store
      ensures readLog == old(readLog) + [Transfer(old(bb.State()).Room(), rc)]
      ensures old(taken) <= taken
      ensures takenAt == old(takenAt) + Repeat(speed, |taken| - |old(taken)|)
      ensures |taken| > |old(taken)| && !endless ==> supply < old(supply)
      ensures var chunk := taken[|old(taken)|..];
        && (rc == |chunk| || (rc == -1 && chunk == []))
        && |chunk| <= old(bb.State()).Room()
        && bb.State() == Filled(old(bb.State()), chunk)
      ensures SameOutside(old(bb.store[..]), bb.store[..], bb.base, bb.base + bb.size)
    {
      var chunk: seq<byte> := *;
      if |chunk| > bb.limit - bb.position || (!endless && supply == 0) {
        chunk := [];
      }
      if chunk != [] && !endless {
        supply := supply - 1;
      } else {
        supply := *;
      }
      taken, takenAt := taken + chunk, takenAt + Repeat(speed, |chunk|);
      bb.Put(chunk);
      rc := *;
      if rc != -1 || chunk != [] {
        rc := |chunk|;
      }
      readLog := readLog + [Transfer(old(bb.limit - bb.position), rc)];
    }

    method WriteAt(w: seq<ByteBuffer>, i: nat) returns (n: nat)
      requires i < |w| && Distinct(w) && w[i].Valid()
      modifies `sent, `stalls, `writeLog, w[i]
      ensures writeLog == old(writeLog) + [Transfer(old(States(w))[i].Room(), n)]
      ensures n <= old(States(w))[i].Room()
      ensures States(w) == old(States(w))[i := old(States(w))[i].At(old(States(w))[i].position + n)]
      ensures sent == old(sent) + old(States(w))[i].Rest()[..n]
    {
      n := Write(w[i]);
      forall j | 0 <= j < |w| && j != i ensures w[j].State() == old(States(w))[j] {
        assert w[j].State() == old(w[j].State());
      }
      OnlyOneChanged(w, i, old(States(w)));
    }

    method ReadAt(w: seq<ByteBuffer>, i: nat) returns (rc: int, ghost chunk: seq<byte>)
      requires i < |w| && Separate(w) && w[i].Valid()
      modifies `taken, `takenAt, `supply, `readLog, w[i], w[i].store
      ensures (rc == |chunk| || (rc == -1 && chunk == [])) && |chunk| <= old(States(w))[i].Room()
      ensures States(w) == old(States(w))[i := Filled(old(States(w))[i], chunk)]
      ensures taken == old(taken) + chunk && readLog == old(readLog) + [Transfer(old(States(w))[i].Room(), rc)]
    {
      ghost var before := w[i].store[..];
      rc := Read(w[i]);
      chunk := taken[|old(taken)|..];
      forall j | 0 <= j < |w| && j != i ensures w[j].State() == old(States(w))[j] {
        OthersUnchanged(w, i, before, j);
        assert old(States(w))[j] == old(w[j].State());
      }
      OnlyOneChanged(w, i, old(States(w)));
    }

    /** The loop of WriteAll. */
    method WriteEach(w: seq<ByteBuffer>) returns (res: nat, ghost parts: seq<seq<byte>>)
      requires Distinct(w) && AllValid(States(w))
      modifies `sent, `stalls, `writeLog, w
      ensures WriteResult(old(States(w)), parts, States(w), res, old(sent), sent, old(writeLog), writeLog)
    {
      ghost var s, before, log := States(w), sent, writeLog;
      res, parts := 0, seq<seq<byte>>(|w|, _ => []);
      NothingWritten(s, parts, before, log);
      var ii := 0;
      while ii < |w|
        invariant ii <= |w| && Writing(s, parts, States(w), ii, res, before, sent, log, writeLog)
      {
        var more;
        more, res, parts := WriteTurn(w, ii, s, parts, res, before, log);
        if !more {
          return;
        }
        ii := ii + 1;
      }
      EndOfWriting(s, parts, States(w), ii, res, before, sent, log, writeLog);
    }

    /** One round of WriteEach; it goes on unless something remains in buffer ii. */
    method WriteTurn(w: seq<ByteBuffer>, ii: nat, ghost s: seq<Snapshot>, ghost parts: seq<seq<byte>>, res: nat,
                     ghost before: seq<byte>, ghost log: seq<Transfer>)
      returns (more: bool, res': nat, ghost parts': seq<seq<byte>>)
      requires Distinct(w) && ii < |w| == |s| && Writing(s, parts, States(w), ii, res, before, sent, log, writeLog)
      modifies `sent, `stalls, `writeLog, w
      ensures more ==> Writing(s, parts', States(w), ii + 1, res', before, sent, log, writeLog)
      ensures !more ==> WriteResult(s, parts', States(w), res', before, sent, log, writeLog)
    {
      ghost var calls := writeLog[|log|..];
      TryNext(Rooms(s), ii, calls);
      var n;
      n, parts' := WriteRound(w, ii, s, parts, res, before);
      assert writeLog == log + WithCall(calls, s[ii].Room(), n);
      res' := res + n;
      more := !w[ii].HasRemaining();
      if more {
        NextTurn(Rooms(s), parts', ii, res', before, sent);
      } else {
        ProgressInOrder(Rooms(s), parts', ii, res', before, sent);
      }
    }

    /** write(ByteBuffer[], int, int): parts[i] is what buffer i gave. */
    method WriteAll(srcs: seq<ByteBuffer>, offset: nat, length: nat) returns (res: nat, ghost parts: seq<seq<byte>>)
      requires offset + length <= |srcs|
      requires var w := srcs[offset..offset + length]; Distinct(w) && AllValid(States(w))
      modifies `sent, `stalls, `writeLog, srcs[offset..offset + length]
      ensures var w, s := srcs[offset..offset + length], old(States(srcs[offset..offset + length]));
        && InOrder(Rooms(s), Lengths(parts)) && AllGave(s, parts, States(w))
        && res == Sum(Lengths(parts)) && sent == old(sent) + Flatten(parts)
        && old(writeLog) <= writeLog && TriedInTurn(Rooms(s), writeLog[|old(writeLog)|..])
    {
      res, parts := WriteEach(srcs[offset..offset + length]);
    }

    /** The transfer in one round of WriteEach, if buffer ii has anything remaining. */
    method WriteRound(w: seq<ByteBuffer>, ii: nat, ghost s: seq<Snapshot>, ghost parts: seq<seq<byte>>, ghost res: nat,
                      ghost before: seq<byte>)
      returns (n: nat, ghost parts': seq<seq<byte>>)
      requires Distinct(w) && ii < |w| == |s| && AllGave(s, parts, States(w))
      requires Progress(Rooms(s), parts, ii, res, before, sent) && parts[ii] == []
      modifies `sent, `stalls, `writeLog, w
      ensures AllGave(s, parts', States(w)) && Progress(Rooms(s), parts', ii, res + n, before, sent)
      ensures |parts'[ii]| == s[ii].Room() <==> !w[ii].HasRemaining()
      ensures n == s[ii].Room() <==> !w[ii].HasRemaining()
      ensures writeLog == WithCall(old(writeLog), s[ii].Room(), n)
    {
      assert w[ii].State() == States(w)[ii] && Gave(s[ii], parts[ii], States(w)[ii]);
      assert States(w)[ii] == s[ii];
      n, parts' := 0, parts;
      if !w[ii].HasRemaining() {
        return;
      }
      n := WriteAt(w, ii);
      ghost var part := s[ii].Rest()[..n];
      parts' := parts[ii := part];
      ProgressBy(Rooms(s), parts, ii, part, res, before, old(sent));
      assert w[ii].State() == States(w)[ii];
    }

    /** The loop of ReadAll. */
    method ReadEach(w: seq<ByteBuffer>) returns (res: int, ghost parts: seq<seq<byte>>)
      requires Separate(w) && AllValid(States(w))
      modifies `taken, `takenAt, `supply, `readLog, w, Stores(w)
      ensures ReadResult(old(States(w)), parts, States(w), res, old(taken), taken, old(readLog), readLog)
    {
      ghost var s, before, log := States(w), taken, readLog;
      res, parts := 0, seq<seq<byte>>(|w|, _ => []);
      NothingRead(s, parts, before, log);
      var ii := 0;
      while ii < |w|
        invariant 0 <= res && ii <= |w| && Reading(s, parts, States(w), ii, res, before, taken, log, readLog)
      {
        var more;
        more, res, parts := ReadTurn(w, ii, s, parts, res, before, log);
        if !more {
          return;
        }
        ii := ii + 1;
      }
      EndOfReading(s, parts, States(w), ii, res, before, taken, log, readLog);
    }

    /** One round of ReadEach; it goes on unless the end was found or buffer ii still has room. */
    method ReadTurn(w: seq<ByteBuffer>, ii: nat, ghost s: seq<Snapshot>, ghost parts: seq<seq<byte>>, res: nat,
                    ghost before: seq<byte>, ghost log: seq<Transfer>)
      returns (more: bool, res': int, ghost parts': seq<seq<byte>>)
      requires Separate(w) && ii < |w| == |s| && Reading(s, parts, States(w), ii, res, before, taken, log, readLog)
      modifies `taken, `takenAt, `supply, `readLog, w, Stores(w)
      ensures more ==> res' >= 0 && Reading(s, parts', States(w), ii + 1, res', before, taken, log, readLog)
      ensures !more ==> ReadResult(s, parts', States(w), res', before, taken, log, readLog)
    {
      ghost var log0 := readLog;
      var rc;
      rc, parts' := ReadRound(w, ii, s, parts, res, before);
      AfterTurn(s, parts', States(w), ii, s[ii].Room(), res, before, taken, log, log0, readLog, rc);
      if rc == -1 {
        return false, if res == 0 then -1 else res, parts';
      }
      res' := res + rc;
      more := !w[ii].HasRemaining();
    }

    /** read(ByteBuffer[], int, int): parts[i] is what buffer i received. */
    method ReadAll(dsts: seq<ByteBuffer>, offset: nat, length: nat) returns (res: int, ghost parts: seq<seq<byte>>)
      requires offset + length <= |dsts|
      requires var w := dsts[offset..offset + length]; Separate(w) && AllValid(States(w))
      modifies `taken, `takenAt, `supply, `readLog, dsts[offset..offset + length], Stores(dsts[offset..offset + length])
      ensures var w, s := dsts[offset..offset + length], old(States(dsts[offset..offset + length]));
        && InOrder(Rooms(s), Lengths(parts)) && AllFilled(s, parts, States(w))
        && taken == old(taken) + Flatten(parts)
        && old(readLog) <= readLog && TriedInTurn(Rooms(s), readLog[|old(readLog)|..])
      ensures var calls := readLog[|old(readLog)|..];
        res == if |calls| == 1 && calls[0].answer == -1 then -1 else Sum(Lengths(parts))
    {
      res, parts := ReadEach(dsts[offset..offset + length]);
    }

    /** The transfer in one round of ReadEach, if buffer ii has room. */
    method ReadRound(w: seq<ByteBuffer>, ii: nat, ghost s: seq<Snapshot>, ghost parts: seq<seq<byte>>, ghost res: nat,
                     ghost before: seq<byte>)
      returns (rc: int, ghost parts': seq<seq<byte>>)
      requires Separate(w) && ii < |w| == |s| && ReadSoFar(s, parts, States(w), ii, res, before, taken)
      modifies `taken, `takenAt, `supply, `readLog, w, Stores(w)
      ensures -1 <= rc && (rc == -1 ==> s[ii].Room() > 0)
      ensures readLog == WithCall(old(readLog), s[ii].Room(), rc)
      ensures ReadInto(s, parts', States(w), ii, if rc == -1 then res else res + rc, before, taken)
      ensures |parts'[ii]| == s[ii].Room() <==> !w[ii].HasRemaining()
      ensures rc == s[ii].Room() <==> !w[ii].HasRemaining()
    {
      assert w[ii].State() == States(w)[ii];
      FilledWithNothing(s, parts, States(w), ii);
      rc, parts' := 0, parts;
      if !w[ii].HasRemaining() {
        return;
      }
      ghost var part;
      rc, part := ReadAt(w, ii);
      parts' := parts[ii := part];
      ProgressBy(Rooms(s), parts, ii, part, res, before, old(taken));
      assert w[ii].State() == States(w)[ii];
    }
  }

  // ---------------------------------------------------------------- the transfers that a loop tries

  /** The calls, and one more if there is any room for it. */
  function WithCall(calls: seq<Transfer>, room: nat, answer: int): seq<Transfer> {
    if room == 0 then calls else calls + [Transfer(room, answer)]
  }

  /** The lengths of the areas that are not empty, in order. */
  function Roomy(lens: seq<nat>): seq<nat> {
    if |lens| == 0 then []
    else Roomy(lens[..|lens| - 1]) + if lens[|lens| - 1] > 0 then [lens[|lens| - 1]] else []
  }

  /** No area is left out, and none that is empty is in. */
  lemma {:induction false} RoomyIsAll(lens: seq<nat>)
    ensures forall c :: 0 <= c < |Roomy(lens)| ==> Roomy(lens)[c] > 0
    ensures Sum(Roomy(lens)) == Sum(lens)
  {
    if |lens| > 0 {
      var n := |lens| - 1;
      RoomyIsAll(lens[..n]);
      assert lens == lens[..n] + [lens[n]];
      SumAppend(lens[..n], lens[n]);
      if lens[n] > 0 {
        SumAppend(Roomy(lens[..n]), lens[n]);
      } else {
        assert Roomy(lens) == Roomy(lens[..n]);
      }
    }
  }

  /** Exactly one read was made: it was offered this room, and delivered got bytes or found the end. */
  ghost predicate OneRead(log: seq<Transfer>, log': seq<Transfer>, offered: nat, got: nat) {
    && |log'| == |log| + 1 && log <= log' && log'[|log|].offered == offered
    && (log'[|log|].answer == got || (log'[|log|].answer == -1 && got == 0))
  }

  /** All bytes that the calls delivered. */
  function Got(calls: seq<Transfer>): nat {
    if |calls| == 0 then 0
    else Got(calls[..|calls| - 1]) + if calls[|calls| - 1].answer > 0 then calls[|calls| - 1].answer else 0
  }

  /** The bytes that the last call delivered. */
  function LastGot(calls: seq<Transfer>): nat {
    if |calls| > 0 && calls[|calls| - 1].answer > 0 then calls[|calls| - 1].answer else 0
  }

  /**
   Since log, reads of the same room were made until now: all but the last delivered something,
   the last one last bytes, and all those before it fed bytes.
   */
  ghost predicate ReadOn(log: seq<Transfer>, log': seq<Transfer>, room: nat, fed: nat, last: nat) {
    && |log| < |log'| && log <= log'
    && (forall c :: |log| <= c < |log'| ==> log'[c].offered == room)
    && (forall c :: |log| <= c < |log'| - 1 ==> log'[c].answer > 0)
    && (log'[|log'| - 1].answer == last || (log'[|log'| - 1].answer == -1 && last == 0))
    && Got(log'[|log|..]) == fed + last
  }

  lemma NextOfReads(log: seq<Transfer>, log': seq<Transfer>, log'': seq<Transfer>, room: nat, fed: nat, last: nat,
                    got: nat)
    requires ReadOn(log, log', room, fed, last) && last > 0 && OneRead(log', log'', room, got)
    ensures ReadOn(log, log'', room, fed + last, got)
  {
    assert log''[|log|..] == log'[|log|..] + [log''[|log'|]];
    assert (log'[|log|..] + [log''[|log'|]])[..|log'[|log|..]|] == log'[|log|..];
  }

  function Offers(calls: seq<Transfer>): (offers: seq<nat>)
    ensures |offers| == |calls| && forall c :: 0 <= c < |calls| ==> offers[c] == calls[c].offered
  {
    seq(|calls|, c requires 0 <= c < |calls| => calls[c].offered)
  }

  /**
   The areas that are not empty are tried in order, each whole; only a transfer that is not full
   ends this before all are tried.
   */
  ghost predicate TriedInTurn(lens: seq<nat>, calls: seq<Transfer>) {
    && |calls| <= |Roomy(lens)| && Offers(calls) == Roomy(lens)[..|calls|]
    && (forall c :: 0 <= c < |calls| - 1 ==> calls[c].answer == calls[c].offered)
    && (|calls| < |Roomy(lens)| ==> |calls| > 0 && calls[|calls| - 1].answer != calls[|calls| - 1].offered)
  }

  /** There was one call, and it found the end of the input. */
  predicate OnlyEnd(calls: seq<Transfer>) {
    |calls| == 1 && calls[0].answer == -1
  }

  /** The areas before i have been tried, with full transfers. */
  ghost predicate TriedTo(lens: seq<nat>, i: nat, calls: seq<Transfer>) {
    i <= |lens| && Offers(calls) == Roomy(lens[..i]) && forall c :: 0 <= c < |calls| ==> calls[c].Full()
  }

  lemma {:induction false} RoomyGrows(lens: seq<nat>, i: nat)
    requires i <= |lens|
    ensures Roomy(lens[..i]) <= Roomy(lens)
  {
    if i == |lens| {
      assert lens[..i] == lens;
    } else {
      RoomyGrows(lens[..|lens| - 1], i);
      assert lens[..|lens| - 1][..i] == lens[..i];
    }
  }

  /** What trying area i makes of the calls. */
  lemma TryNext(lens: seq<nat>, i: nat, calls: seq<Transfer>)
    requires i < |lens| && TriedTo(lens, i, calls)
    ensures forall answer: int ::
              var calls' := WithCall(calls, lens[i], answer);
              && (lens[i] == 0 || answer == lens[i] ==> TriedTo(lens, i + 1, calls'))
              && (lens[i] > 0 && answer != lens[i] ==> TriedInTurn(lens, calls'))
  {
    assert lens[..i + 1][..i] == lens[..i];
    RoomyGrows(lens, i + 1);
    forall answer: int
      ensures var calls' := WithCall(calls, lens[i], answer);
        && (lens[i] == 0 || answer == lens[i] ==> TriedTo(lens, i + 1, calls'))
        && (lens[i] > 0 && answer != lens[i] ==> TriedInTurn(lens, calls'))
    {
      assert lens[i] > 0 ==> Offers(calls + [Transfer(lens[i], answer)]) == Offers(calls) + [lens[i]];
    }
  }

  lemma AllTried(lens: seq<nat>, calls: seq<Transfer>)
    ensures TriedTo(lens, |lens|, calls) ==> TriedInTurn(lens, calls)
  {
    assert lens[..|lens|] == lens;
  }

  // ---------------------------------------------------------------- progress of the loops

  /** s became t by giving the bytes of part. */
  ghost predicate Gave(s: Snapshot, part: seq<byte>, t: Snapshot) {
    s.Valid() && |part| <= s.Room() && part == s.Rest()[..|part|] && t == s.At(s.position + |part|)
  }

  ghost predicate AllGave(s: seq<Snapshot>, parts: seq<seq<byte>>, t: seq<Snapshot>) {
    |s| == |parts| == |t| && AllValid(s) && forall j :: 0 <= j < |s| ==> Gave(s[j], parts[j], t[j])
  }

  /** Areas before i have all their bytes, areas after i none. */
  ghost predicate InTurn(lens: seq<nat>, parts: seq<seq<byte>>, i: nat) {
    && |lens| == |parts|
    && (forall j :: 0 <= j < |lens| ==> |parts[j]| <= lens[j])
    && (forall j :: 0 <= j < i && j < |lens| ==> |parts[j]| == lens[j])
    && (forall j :: i < j < |lens| ==> parts[j] == [])
  }

  ghost predicate AllFilled(s: seq<Snapshot>, parts: seq<seq<byte>>, t: seq<Snapshot>) {
    && |s| == |parts| == |t| && AllValid(s)
    && forall j :: 0 <= j < |s| ==> |parts[j]| <= s[j].Room() && t[j] == Filled(s[j], parts[j])
  }

  /** The state of either loop at area i: res bytes moved so far, from before to now. */
  ghost predicate Progress(lens: seq<nat>, parts: seq<seq<byte>>, i: nat, res: nat, before: seq<byte>, now: seq<byte>) {
    InTurn(lens, parts, i) && res == Sum(Lengths(parts)) && now == before + Flatten(parts)
  }

  /** The read loop, from s to t, when it has read into buffer i. */
  ghost predicate ReadInto(s: seq<Snapshot>, parts: seq<seq<byte>>, t: seq<Snapshot>, i: nat, res: nat,
                           before: seq<byte>, now: seq<byte>) {
    AllFilled(s, parts, t) && Progress(Rooms(s), parts, i, res, before, now)
  }

  /** The read loop when it comes to buffer i. */
  ghost predicate ReadSoFar(s: seq<Snapshot>, parts: seq<seq<byte>>, t: seq<Snapshot>, i: nat, res: nat,
                            before: seq<byte>, now: seq<byte>) {
    ReadInto(s, parts, t, i, res, before, now) && (i < |parts| ==> parts[i] == [])
  }

  /** The read loop when it comes to buffer i; the calls it made are in now's log. */
  ghost predicate Reading(s: seq<Snapshot>, parts: seq<seq<byte>>, t: seq<Snapshot>, i: nat, res: nat,
                          before: seq<byte>, now: seq<byte>,
                          log: seq<Transfer>, log': seq<Transfer>) {
    && ReadSoFar(s, parts, t, i, res, before, now)
    && log <= log' && TriedTo(Rooms(s), i, log'[|log|..]) && (res == 0 <==> log' == log)
  }

  /**
   What the read loop returns and leaves: the end of the input if its only call found that, else
   the number of bytes.
   */
  ghost predicate ReadResult(s: seq<Snapshot>, parts: seq<seq<byte>>, t: seq<Snapshot>, res: int, before: seq<byte>,
                             now: seq<byte>, log: seq<Transfer>, log': seq<Transfer>) {
    && AllFilled(s, parts, t) && InOrder(Rooms(s), Lengths(parts)) && now == before + Flatten(parts)
    && log <= log' && TriedInTurn(Rooms(s), log'[|log|..])
    && res == if OnlyEnd(log'[|log|..]) then -1 else Sum(Lengths(parts))
  }

  lemma NothingRead(s: seq<Snapshot>, parts: seq<seq<byte>>, before: seq<byte>, log: seq<Transfer>)
    requires AllValid(s) && |parts| == |s| && forall j :: 0 <= j < |parts| ==> parts[j] == []
    ensures Reading(s, parts, s, 0, 0, before, before, log, log)
  {
    NothingYet(parts);
  }

  /** What one round of the read loop leads to, with the answer rc of its call if there was one. */
  lemma AfterTurn(s: seq<Snapshot>, parts: seq<seq<byte>>, t: seq<Snapshot>, i: nat, room: nat, res: nat,
                  before: seq<byte>, now: seq<byte>, log: seq<Transfer>, log0: seq<Transfer>, log': seq<Transfer>,
                  rc: int)
    requires AllValid(s) && i < |s| && room == s[i].Room() && -1 <= rc
    requires ReadInto(s, parts, t, i, if rc == -1 then res else res + rc, before, now)
    requires rc == room <==> |parts[i]| == room
    requires log <= log0 && TriedTo(Rooms(s), i, log0[|log|..]) && (res == 0 <==> log0 == log)
    requires log' == WithCall(log0, room, rc) && (rc != room ==> room > 0)
    ensures if rc == room then Reading(s, parts, t, i + 1, res + rc, before, now, log, log')
            else
              ReadResult(s, parts, t, if rc != -1 then res + rc else if res == 0 then -1 else res, before, now, log,
                         log')
  {
    TryNext(Rooms(s), i, log0[|log|..]);
    assert log'[|log|..] == WithCall(log0[|log|..], room, rc);
    if rc == room {
      NextTurn(Rooms(s), parts, i, res + rc, before, now);
    } else {
      ProgressInOrder(Rooms(s), parts, i, if rc == -1 then res else res + rc, before, now);
    }
  }

  lemma EndOfReading(s: seq<Snapshot>, parts: seq<seq<byte>>, t: seq<Snapshot>, i: nat, res: nat, before: seq<byte>,
                     now: seq<byte>, log: seq<Transfer>, log': seq<Transfer>)
    requires i == |s| && Reading(s, parts, t, i, res, before, now, log, log')
    ensures ReadResult(s, parts, t, res, before, now, log, log')
  {
    ProgressInOrder(Rooms(s), parts, i, res, before, now);
    AllTried(Rooms(s), log'[|log|..]);
  }

  /** The write loop when it comes to buffer i. */
  ghost predicate Writing(s: seq<Snapshot>, parts: seq<seq<byte>>, t: seq<Snapshot>, i: nat, res: nat,
                          before: seq<byte>, now: seq<byte>,
                          log: seq<Transfer>, log': seq<Transfer>) {
    && AllGave(s, parts, t) && Progress(Rooms(s), parts, i, res, before, now) && (i < |parts| ==> parts[i] == [])
    && log <= log' && TriedTo(Rooms(s), i, log'[|log|..])
  }

  /** What the write loop returns and leaves. */
  ghost predicate WriteResult(s: seq<Snapshot>, parts: seq<seq<byte>>, t: seq<Snapshot>, res: nat, before: seq<byte>,
                              now: seq<byte>, log: seq<Transfer>, log': seq<Transfer>) {
    && AllGave(s, parts, t) && InOrder(Rooms(s), Lengths(parts)) && now == before + Flatten(parts)
    && log <= log' && TriedInTurn(Rooms(s), log'[|log|..]) && res == Sum(Lengths(parts))
  }

  lemma NothingWritten(s: seq<Snapshot>, parts: seq<seq<byte>>, before: seq<byte>, log: seq<Transfer>)
    requires AllValid(s) && |parts| == |s| && forall j :: 0 <= j < |parts| ==> parts[j] == []
    ensures Writing(s, parts, s, 0, 0, before, before, log, log)
  {
    NothingYet(parts);
  }

  lemma EndOfWriting(s: seq<Snapshot>, parts: seq<seq<byte>>, t: seq<Snapshot>, i: nat, res: nat, before: seq<byte>,
                     now: seq<byte>, log: seq<Transfer>, log': seq<Transfer>)
    requires i == |s| && Writing(s, parts, t, i, res, before, now, log, log')
    ensures WriteResult(s, parts, t, res, before, now, log, log')
  {
    ProgressInOrder(Rooms(s), parts, i, res, before, now);
    AllTried(Rooms(s), log'[|log|..]);
  }

  lemma NextTurn(lens: seq<nat>, parts: seq<seq<byte>>, i: nat, res: nat, before: seq<byte>, now: seq<byte>)
    requires i < |lens| && Progress(lens, parts, i, res, before, now) && |parts[i]| == lens[i]
    ensures Progress(lens, parts, i + 1, res, before, now) && (i + 1 < |lens| ==> parts[i + 1] == [])
  {
  }

  lemma ProgressBy(lens: seq<nat>, parts: seq<seq<byte>>, i: nat, part: seq<byte>, res: nat, before: seq<byte>,
                   now: seq<byte>)
    requires i < |lens| && Progress(lens, parts, i, res, before, now) && parts[i] == [] && |part| <= lens[i]
    ensures Progress(lens, parts[i := part], i, res + |part|, before, now + part)
  {
    NextPart(parts, i, part);
  }

  lemma ProgressInOrder(lens: seq<nat>, parts: seq<seq<byte>>, i: nat, res: nat, before: seq<byte>, now: seq<byte>)
    requires Progress(lens, parts, i, res, before, now)
    ensures InOrder(lens, Lengths(parts)) && (res == 0 ==> Flatten(parts) == [])
  {
    FlattenLength(parts);
  }

  lemma FilledWithNothing(s: seq<Snapshot>, parts: seq<seq<byte>>, t: seq<Snapshot>, i: nat)
    requires AllFilled(s, parts, t) && i < |s| && parts[i] == []
    ensures t[i] == s[i]
  {
    assert t[i].bytes == s[i].bytes;
  }

  lemma NothingYet(parts: seq<seq<byte>>)
    requires forall j :: 0 <= j < |parts| ==> parts[j] == []
    ensures Sum(Lengths(parts)) == 0 && Flatten(parts) == []
  {
    SumZero(Lengths(parts));
    FlattenEmpty(parts);
  }

  lemma NextPart(parts: seq<seq<byte>>, i: nat, part: seq<byte>)
    requires i < |parts| && forall j :: i <= j < |parts| ==> parts[j] == []
    ensures Sum(Lengths(parts[i := part])) == Sum(Lengths(parts)) + |part|
    ensures Flatten(parts[i := part]) == Flatten(parts) + part
  {
    assert Lengths(parts[i := part]) == Lengths(parts)[i := |part|];
    SumSet(Lengths(parts), i, |part|);
    FlattenSet(parts, i, part);
  }

  // ---------------------------------------------------------------- what the loops promise

  /** What the buffers gave is their remainders, cut to what they gave of them. */
  lemma GaveCut(s: seq<Snapshot>, parts: seq<seq<byte>>, t: seq<Snapshot>)
    requires AllGave(s, parts, t)
    ensures Lengths(Rests(s)) == Rooms(s)
    ensures forall j :: 0 <= j < |s| ==> Lengths(parts)[j] <= |Rests(s)[j]|
    ensures parts == Cut(Rests(s), Lengths(parts))
  {
    assert forall j :: 0 <= j < |s| ==> Gave(s[j], parts[j], t[j]);
  }

  /**
   The array write sends a prefix of the remainders end to end, and leaves an index k with
   every earlier buffer drained and every later one untouched.
   */
  lemma GatherShape(s: seq<Snapshot>, parts: seq<seq<byte>>, t: seq<Snapshot>) returns (k: nat)
    requires AllGave(s, parts, t) && InOrder(Rooms(s), Lengths(parts))
    ensures Sum(Lengths(parts)) <= |Flatten(Rests(s))|
    ensures Flatten(parts) == Flatten(Rests(s))[..Sum(Lengths(parts))]
    ensures k <= |s|
    ensures forall i :: 0 <= i < k ==> t[i].position == t[i].limit == s[i].limit
    ensures forall i :: k < i < |s| ==> t[i] == s[i]
  {
    GaveCut(s, parts, t);
    InOrderIsPrefix(Rests(s), Lengths(parts));
    InOrderIsSplit(Rooms(s), Lengths(parts));
    k := SplitShape(Rooms(s), Sum(Lengths(parts)));
  }
}
