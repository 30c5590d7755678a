/** SerialInputStream.java: a buffer behind a channel, with mark and reset. */
module InputStream {
  import opened Basics
  import opened Buffers
  import opened Channels

  // ---------------------------------------------------------------- the stream as a value

  /**
   taken is everything the channel has delivered; the buffer holds the part of it from start
   on, and cursor is the next byte to return.  A mark is a position in taken.
   */
  datatype InState = InState(taken: seq<byte>, start: nat, cursor: nat, mark: Option<nat>) {
    predicate Valid() {
      start <= cursor <= |taken| && (mark.Some? ==> start <= mark.value <= cursor)
    }

    function Unread(): seq<byte>
      requires Valid()
    {
      taken[cursor..]
    }
  }

  /** An empty buffer is refilled with the chunk the channel delivers, and loses its mark. */
  function Refilled(st: InState, chunk: seq<byte>): InState
    requires st.Valid()
  {
    if st.Unread() != [] then st
    else InState(st.taken + chunk, |st.taken|, |st.taken|, None)
  }

  /** A read of up to len bytes: the state after it. */
  function ReadState(st: InState, len: nat, chunk: seq<byte>): InState
    requires st.Valid()
  {
    var r := Refilled(st, chunk);
    r.(cursor := r.cursor + Min(len, |r.Unread()|))
  }

  /** A read of up to len bytes: the bytes returned. */
  function ReadBytes(st: InState, len: nat, chunk: seq<byte>): seq<byte>
    requires st.Valid()
  {
    var r := Refilled(st, chunk);
    r.Unread()[..Min(len, |r.Unread()|)]
  }

  /** What read() returns. */
  function ReadInt(st: InState, chunk: seq<byte>): int
    requires st.Valid()
  {
    var bytes := ReadBytes(st, 1, chunk);
    if bytes == [] then -1 else Unsigned(bytes[0])
  }

  /** The channel was read once, with room for size bytes, exactly if nothing was unread. */
  ghost predicate ReadIfEmpty(st: InState, log: seq<Transfer>, log': seq<Transfer>, size: nat, got: nat)
    requires st.Valid()
  {
    if st.cursor == |st.taken| then OneRead(log, log', size, got) else log' == log
  }

  /**
   A bulk read into the array b from off on, after the refill: as many unread bytes as asked for,
   or nothing if the place for them is not within the array.
   */
  ghost predicate Took(st: InState, b: seq<byte>, off: int, len: int, r: Option<nat>, t: InState, b': seq<byte>) {
    var n := Min(len, |st.taken| - st.cursor);
    && (r.Some? <==> 0 <= off && 0 <= len && off + n <= |b|)
    && (r.None? ==> t == st && b' == b)
    && (r.Some? ==>
          && 0 <= n && 0 <= st.cursor && off + n <= |b| && st.cursor + n <= |st.taken|
          && r.value == n && t == st.(cursor := st.cursor + n)
          && b' == b[..off] + st.taken[st.cursor..st.cursor + n] + b[off + n..])
  }

  /** What a bulk read that fits does is what Read stands for in a run. */
  lemma TookIsRead(st: InState, chunk: seq<byte>, b: seq<byte>, off: int, len: nat, r: Option<nat>, t: InState,
                   b': seq<byte>)
    requires st.Valid() && Took(Refilled(st, chunk), b, off, len, r, t, b') && r.Some?
    ensures t == ReadState(st, len, chunk) && r.value == |ReadBytes(st, len, chunk)|
    ensures b' == b[..off] + ReadBytes(st, len, chunk) + b[off + r.value..]
  {
  }

  /** A read returns as many bytes as asked for, unless fewer are unread; after a refill the chunk is unread. */
  lemma ReadExactly(st: InState, len: nat, chunk: seq<byte>)
    requires st.Valid()
    ensures var unread := if st.Unread() == [] then chunk else st.Unread();
      && ReadBytes(st, len, chunk) == (if len <= |unread| then unread[..len] else unread)
      && ReadState(st, len, chunk).Unread() == (if len <= |unread| then unread[len..] else [])
    ensures st.Unread() != [] ==> ReadState(st, len, chunk) == st.(cursor := ReadState(st, len, chunk).cursor)
    ensures st.Unread() == [] ==> ReadState(st, len, chunk).taken == st.taken + chunk
  {
    assert (st.taken + chunk)[|st.taken|..] == chunk;
  }

  /**
   The end of the input, exactly: read() returns -1 if and only if nothing is unread and the
   channel has nothing; a bulk read returns the number of its bytes, which is then 0, as it also
   is for a length of 0.
   */
  lemma EndOfInput(st: InState, len: nat, chunk: seq<byte>)
    requires st.Valid()
    ensures ReadInt(st, chunk) == -1 <==> st.Unread() == [] && chunk == []
    ensures ReadBytes(st, len, chunk) == [] <==> len == 0 || (st.Unread() == [] && chunk == [])
  {
    assert (st.taken + chunk)[|st.taken|..] == chunk;
  }

  /** A new stream on a channel that has nothing: -1 from read(), 0 bytes from a bulk read of four. */
  lemma NothingToRead()
    ensures ReadInt(InState([], 0, 0, None), []) == -1 && |ReadBytes(InState([], 0, 0, None), 4, [])| == 0
  {
    EndOfInput(InState([], 0, 0, None), 4, []);
  }

  // ---------------------------------------------------------------- the class

  datatype MarkError = IllegalArgument | InvalidMark

  class SerialInputStream {
    const channel: SerialChannel
    const buffer: ByteBuffer
    ghost var start: nat    // how much the channel had delivered before the buffer was filled

    ghost predicate Valid()
      reads this, channel, buffer, buffer.store
    {
      && buffer.Valid() && buffer.InStore()
      && start + buffer.limit == |channel.taken|
      && buffer.State().bytes[..buffer.limit] == channel.taken[start..]
    }

    ghost function State(): (st: InState)
      requires Valid()
      reads this, channel, buffer, buffer.store
      ensures st.Valid() && st.Unread() == buffer.State().Rest()
    {
      InState(channel.taken, start, start + buffer.position,
              if buffer.mark.Some? then Some(start + buffer.mark.value) else None)
    }

    constructor (channel: SerialChannel, bufferSize: nat)
      ensures Valid() && fresh(buffer) && fresh(buffer.store) && this.channel == channel
      ensures State() == InState(channel.taken, |channel.taken|, |channel.taken|, None)
    {
      this.channel := channel;
      buffer := new ByteBuffer(bufferSize, true);
      start := |channel.taken|;
      new;
      buffer.Flip();
    }

    /** An empty buffer is filled by one read of the channel. */
    method Refill() returns (ghost chunk: seq<byte>)
      requires Valid()
      modifies this, channel`taken, channel`takenAt, channel`supply, channel`readLog, buffer, buffer.store
      ensures Valid() && State() == Refilled(old(State()), chunk)
      ensures channel.taken == old(channel.taken) + chunk
      ensures ReadIfEmpty(old(State()), old(channel.readLog), channel.readLog, buffer.size, |chunk|)
    {
      chunk := [];
      if !buffer.HasRemaining() {
        ghost var before := channel.taken;
        buffer.Clear();
        var rc := channel.Read(buffer);
        chunk := channel.taken[|before|..];
        start := |before|;
        buffer.Flip();
        assert channel.taken == before + chunk;
        assert buffer.State().bytes[..buffer.limit] == chunk;
      }
    }

    method Read() returns (r: int, ghost chunk: seq<byte>)
      requires Valid()
      modifies this, channel`taken, channel`takenAt, channel`supply, channel`readLog, buffer, buffer.store
      ensures Valid() && State() == ReadState(old(State()), 1, chunk)
      ensures channel.taken == old(channel.taken) + chunk
      ensures ReadIfEmpty(old(State()), old(channel.readLog), channel.readLog, buffer.size, |chunk|)
      ensures r == ReadInt(old(State()), chunk)
    {
      chunk := Refill();
      if !buffer.HasRemaining() {
        return -1, chunk;
      }
      var b := buffer.Get(1);
      r := Unsigned(b[0]);
    }

    /**
     read(byte[], int, int): None stands for IndexOutOfBoundsException, which comes after a
     refill and leaves the array alone.
     */
    method ReadBulk(b: array<byte>, off: int, len: int) returns (r: Option<nat>, ghost chunk: seq<byte>)
      requires Valid() && b != buffer.store
      modifies this, channel`taken, channel`takenAt, channel`supply, channel`readLog, buffer, buffer.store, b
      ensures Valid() && channel.taken == old(channel.taken) + chunk
      ensures ReadIfEmpty(old(State()), old(channel.readLog), channel.readLog, buffer.size, |chunk|)
      ensures Took(Refilled(old(State()), chunk), old(b[..]), off, len, r, State(), b[..])
    {
      chunk := Refill();
      r := TakeInto(b, off, len);
    }

    /** What follows the refill: as many unread bytes as asked for, if they fit. */
    method TakeInto(b: array<byte>, off: int, len: int) returns (r: Option<nat>)
      requires Valid() && b != buffer.store
      modifies buffer`position, b
      ensures Valid()
      ensures Took(old(State()), old(b[..]), off, len, r, State(), b[..])
    {
      var length := if len <= buffer.limit - buffer.position then len else buffer.limit - buffer.position;
      if off < 0 || length < 0 || off + length > b.Length {
        return None;
      }
      ghost var before := b[..];
      GetInto(b, off, length);
      r := Some(length);
      assert before[..off] == old(b[..off]) && before[off + length..] == old(b[off + length..]);
    }

    /** get(byte[], int, int) of the buffer. */
    method GetInto(b: array<byte>, off: nat, length: nat)
      requires Valid() && b != buffer.store && length <= |State().Unread()| && off + length <= b.Length
      modifies buffer`position, b
      ensures Valid() && State() == old(State()).(cursor := old(State()).cursor + length)
      ensures var st := old(State());
        b[..] == old(b[..off]) + st.taken[st.cursor..st.cursor + length] + old(b[off + length..])
    {
      ghost var st := State();
      var bytes := buffer.Get(length);
      assert bytes == st.Unread()[..length] == st.taken[st.cursor..st.cursor + length];
      ghost var before := b[..];
      forall k | 0 <= k < length {
        b[off + k] := bytes[k];
      }
      assert b[..] == before[..off] + bytes + before[off + length..];
    }

    method Available() returns (n: nat)
      requires Valid()
      ensures n == |State().Unread()|
    {
      n := buffer.limit - buffer.position;
    }

    method Mark(readlimit: int) returns (r: Result<(), MarkError>)
      requires Valid()
      modifies buffer`mark
      ensures Valid()
      ensures r == if |old(State()).Unread()| < readlimit then Err(IllegalArgument) else Ok(())
      ensures State() == if r.Ok? then old(State()).(mark := Some(old(State()).cursor)) else old(State())
    {
      if buffer.limit - buffer.position < readlimit {
        return Err(IllegalArgument);
      }
      buffer.SetMark();
      r := Ok(());
    }

    method Reset() returns (r: Result<(), MarkError>)
      requires Valid()
      modifies buffer`position
      ensures Valid()
      ensures r == if old(State()).mark.Some? then Ok(()) else Err(InvalidMark)
      ensures State() == if r.Ok? then old(State()).(cursor := old(State()).mark.value) else old(State())
    {
      var ok := buffer.Reset();
      r := if ok then Ok(()) else Err(InvalidMark);
    }
  }

  // ---------------------------------------------------------------- whole runs

  /** read() is Read(1); chunk is what the channel delivers if the buffer is empty. */
  datatype Call = Read(len: nat, chunk: seq<byte>) | Mark(readlimit: int) | Reset

  function After(st: InState, c: Call): (t: InState)
    requires st.Valid()
    ensures t.Valid()
  {
    match c
    case Read(len, chunk) => ReadState(st, len, chunk)
    case Mark(readlimit) => if |st.Unread()| < readlimit then st else st.(mark := Some(st.cursor))
    case Reset => if st.mark.Some? then st.(cursor := st.mark.value) else st
  }

  function Output(st: InState, c: Call): seq<byte>
    requires st.Valid()
  {
    if c.Read? then ReadBytes(st, c.len, c.chunk) else []
  }

  function Run(st: InState, calls: seq<Call>): (t: InState)
    requires st.Valid()
    ensures t.Valid()
    decreases |calls|
  {
    if |calls| == 0 then st else Run(After(st, calls[0]), calls[1..])
  }

  /** All bytes returned by a run. */
  function Returned(st: InState, calls: seq<Call>): seq<byte>
    requires st.Valid()
    decreases |calls|
  {
    if |calls| == 0 then [] else Output(st, calls[0]) + Returned(After(st, calls[0]), calls[1..])
  }

  ghost predicate NoReset(calls: seq<Call>) {
    forall i :: 0 <= i < |calls| ==> !calls[i].Reset?
  }

  /** Only the channel adds to taken, and only reads move the cursor, over the bytes they return. */
  lemma CallMovesOn(st: InState, c: Call)
    requires st.Valid() && !c.Reset?
    ensures var t := After(st, c);
      && st.taken <= t.taken && st.cursor <= t.cursor
      && Output(st, c) == t.taken[st.cursor..t.cursor]
  {
  }

  lemma Join(a: seq<byte>, b: seq<byte>, i: nat, j: nat, k: nat)
    requires i <= j <= |a| && a <= b && j <= k <= |b|
    ensures a[i..j] + b[j..k] == b[i..k]
  {
    assert a[i..j] == b[i..j];
  }

  lemma {:induction false} RunMovesOn(st: InState, calls: seq<Call>)
    requires st.Valid() && NoReset(calls)
    ensures var t := Run(st, calls);
      && st.taken <= t.taken && st.cursor <= t.cursor
      && Returned(st, calls) == t.taken[st.cursor..t.cursor]
    decreases |calls|
  {
    if |calls| > 0 {
      var u := After(st, calls[0]);
      CallMovesOn(st, calls[0]);
      RunMovesOn(u, calls[1..]);
      var t := Run(u, calls[1..]);
      Join(u.taken, t.taken, st.cursor, u.cursor, t.cursor);
    }
  }

  /** What was returned and what is unread, against what was unread and what came since. */
  lemma TwoCuts(a: seq<byte>, b: seq<byte>, i: nat, j: nat)
    requires i <= |a| && a <= b && i <= j <= |b|
    ensures b[i..j] + b[j..] == a[i..] + b[|a|..]
  {
    Join(b, b, i, j, |b|);
    Join(a, b, i, |a|, |b|);
  }

  /**
   First in, first out: without reset, the bytes returned by a run and then those left unread
   are the bytes unread before it and then all the channel has delivered since, in order.
   */
  lemma Fifo(st: InState, calls: seq<Call>)
    requires st.Valid() && NoReset(calls)
    ensures var t := Run(st, calls);
      && st.taken <= t.taken
      && Returned(st, calls) + t.Unread() == st.Unread() + t.taken[|st.taken|..]
  {
    RunMovesOn(st, calls);
    TwoCuts(st.taken, Run(st, calls).taken, st.cursor, Run(st, calls).cursor);
  }

  /** For a stream that has returned nothing yet: all the channel has delivered is returned or unread. */
  lemma AllTaken(st: InState, calls: seq<Call>)
    requires st.Valid() && st.cursor == 0 && NoReset(calls)
    ensures Returned(st, calls) + Run(st, calls).Unread() == Run(st, calls).taken
  {
    RunMovesOn(st, calls);
    var t := Run(st, calls);
    Join(t.taken, t.taken, 0, t.cursor, |t.taken|);
  }

  /** Every read of the run finds the buffer non-empty. */
  ghost predicate NeverEmpty(st: InState, rs: seq<Call>)
    requires st.Valid()
    decreases |rs|
  {
    |rs| == 0 || (st.Unread() != [] && NeverEmpty(After(st, rs[0]), rs[1..]))
  }

  ghost predicate OnlyReads(calls: seq<Call>) {
    forall i :: 0 <= i < |calls| ==> calls[i].Read?
  }

  /** A mark survives a run of reads exactly if each of them finds the buffer non-empty. */
  lemma {:induction false} MarkSurvivesExactly(st: InState, rs: seq<Call>)
    requires st.Valid() && OnlyReads(rs)
    ensures NeverEmpty(st, rs) ==>
      var t := Run(st, rs); t.mark == st.mark && t.taken == st.taken && t.start == st.start
    ensures st.mark.Some? && !NeverEmpty(st, rs) ==> Run(st, rs).mark.None?
    ensures st.mark.None? ==> Run(st, rs).mark.None?
    decreases |rs|
  {
    if |rs| > 0 {
      MarkSurvivesExactly(After(st, rs[0]), rs[1..]);
    }
  }

  /**
   Rewind, exactly: after an accepted mark and any reads, reset succeeds if and only if each of
   the reads found the buffer non-empty; it then brings back the marked state, so that the
   bytes read since the mark are the next ones again.
   */
  lemma Rewind(st: InState, readlimit: int, rs: seq<Call>)
    requires st.Valid() && |st.Unread()| >= readlimit && OnlyReads(rs)
    ensures var marked := After(st, Mark(readlimit));
      var t := Run(marked, rs);
      && (t.mark.Some? <==> NeverEmpty(marked, rs))
      && (t.mark.Some? ==>
            && After(t, Reset) == marked
            && Returned(marked, rs) <= marked.Unread())
  {
    var marked := After(st, Mark(readlimit));
    MarkSurvivesExactly(marked, rs);
    RunMovesOn(marked, rs);
  }

  /** The number of bytes the reads ask for. */
  function Asked(rs: seq<Call>): nat
    requires OnlyReads(rs)
  {
    if |rs| == 0 then 0 else rs[0].len + Asked(rs[1..])
  }

  lemma {:induction false} WithinLimit(st: InState, rs: seq<Call>)
    requires st.Valid() && OnlyReads(rs)
    requires forall i :: 0 <= i < |rs| ==> rs[i].len > 0
    requires Asked(rs) <= |st.Unread()|
    ensures NeverEmpty(st, rs)
    decreases |rs|
  {
    if |rs| > 0 {
      WithinLimit(After(st, rs[0]), rs[1..]);
    }
  }

  /**
   What markSupported() promises: reads of at least one byte that ask for no more than the
   accepted read limit can be undone by reset.
   */
  lemma MarkKeepsItsPromise(st: InState, readlimit: int, rs: seq<Call>)
    requires st.Valid() && |st.Unread()| >= readlimit && OnlyReads(rs)
    requires forall i :: 0 <= i < |rs| ==> rs[i].len > 0
    requires Asked(rs) <= readlimit
    ensures var marked := After(st, Mark(readlimit));
      Run(marked, rs).mark.Some? && After(Run(marked, rs), Reset) == marked
  {
    var marked := After(st, Mark(readlimit));
    assert marked.Unread() == st.Unread();
    WithinLimit(marked, rs);
    Rewind(st, readlimit, rs);
  }

  /** A read of no bytes is not covered: on an exhausted buffer it refills it and the mark is gone. */
  lemma EmptyReadLosesMark() returns (st: InState, rs: seq<Call>)
    ensures st.Valid() && |st.Unread()| == 1 && OnlyReads(rs) && Asked(rs) == 1
    ensures Run(After(st, Mark(1)), rs).mark.None?
  {
    st := InState([7], 0, 0, None);
    var first, second := Read(1, []), Read(0, []);
    rs := [first, second];
    var m := After(st, Mark(1));
    assert rs[1..] == [second] && [second][1..] == [];
    assert Asked([second]) == 0;
    assert Run(m, rs) == Run(After(m, first), [second]) == After(After(m, first), second);
  }
}
