/** SerialOutputStream.java: a buffer in front of a channel. */
module OutputStream {
  import opened Basics
  import opened Buffers
  import opened Channels

  // ---------------------------------------------------------------- the stream as a value

  /** The bytes handed to the channel, and those still in the buffer. */
  datatype OutState = OutState(sent: seq<byte>, pending: seq<byte>)

  function Flushed(st: OutState): OutState {
    OutState(st.sent + st.pending, [])
  }

  function PutByte(capacity: nat, st: OutState, b: byte): OutState {
    if |st.pending| == capacity then OutState(st.sent + st.pending, [b])
    else OutState(st.sent, st.pending + [b])
  }

  /** One byte after the other. */
  function PutBytes(capacity: nat, st: OutState, bs: seq<byte>): OutState
    decreases |bs|
  {
    if |bs| == 0 then st else PutBytes(capacity, PutByte(capacity, st, bs[0]), bs[1..])
  }

  lemma {:induction false} PutBytesAppend(capacity: nat, st: OutState, a: seq<byte>, b: seq<byte>)
    ensures PutBytes(capacity, st, a + b) == PutBytes(capacity, PutBytes(capacity, st, a), b)
    decreases |a|
  {
    if |a| == 0 {
      assert a + b == b;
    } else {
      assert (a + b)[1..] == a[1..] + b;
      PutBytesAppend(capacity, PutByte(capacity, st, a[0]), a[1..], b);
    }
  }

  /** A chunk that fits is appended. */
  lemma {:induction false} PutBytesFit(capacity: nat, st: OutState, bs: seq<byte>)
    requires |st.pending| + |bs| <= capacity
    ensures PutBytes(capacity, st, bs) == OutState(st.sent, st.pending + bs)
    decreases |bs|
  {
    if |bs| == 0 {
      assert st.pending + bs == st.pending;
    } else {
      PutBytesFit(capacity, PutByte(capacity, st, bs[0]), bs[1..]);
      assert st.pending + [bs[0]] + bs[1..] == st.pending + bs;
    }
  }

  /** With a full buffer it makes no difference to flush first. */
  lemma FlushWhenFull(capacity: nat, st: OutState, bs: seq<byte>)
    requires 0 < capacity == |st.pending| && |bs| > 0
    ensures PutBytes(capacity, st, bs) == PutBytes(capacity, Flushed(st), bs)
  {
    assert [] + [bs[0]] == [bs[0]];
  }

  // ---------------------------------------------------------------- the class

  class SerialOutputStream {
    const channel: SerialChannel
    const buffer: ByteBuffer

    ghost predicate Valid()
      reads this, buffer, buffer.store
    {
      buffer.Valid() && buffer.InStore() && buffer.limit == buffer.size
    }

    function Capacity(): nat {
      buffer.size
    }

    ghost function State(): OutState
      requires Valid()
      reads this, channel, buffer, buffer.store
    {
      OutState(channel.sent, buffer.State().bytes[..buffer.position])
    }

    constructor (channel: SerialChannel, bufferSize: nat)
      ensures Valid() && fresh(buffer) && fresh(buffer.store) && this.channel == channel
      ensures Capacity() == bufferSize && State() == OutState(channel.sent, [])
    {
      this.channel := channel;
      buffer := new ByteBuffer(bufferSize, true);
    }

    /** One round of the loop of flushBuffer: what leaves the buffer is sent. */
    method FlushSome()
      requires buffer.Valid() && buffer.InStore() && buffer.HasRemaining()
      modifies channel`sent, channel`stalls, channel`writeLog, buffer`position, buffer`mark
      ensures buffer.Valid() && buffer.limit == old(buffer.limit)
      ensures channel.sent + buffer.State().Rest() == old(channel.sent + buffer.State().Rest())
      ensures buffer.position > old(buffer.position) ||
              (buffer.position == old(buffer.position) && channel.stalls < old(channel.stalls))
    {
      var n := channel.Write(buffer);
    }

    method FlushBuffer()
      requires Valid()
      modifies channel`sent, channel`stalls, channel`writeLog, buffer`position, buffer`limit, buffer`mark
      ensures Valid() && State() == Flushed(old(State()))
    {
      ghost var all := channel.sent + buffer.State().bytes[..buffer.position];
      buffer.Flip();
      while buffer.HasRemaining()
        invariant buffer.Valid() && channel.sent + buffer.State().Rest() == all
        decreases buffer.limit - buffer.position, channel.stalls
      {
        FlushSome();
      }
      assert channel.sent == all;
      buffer.Clear();
    }

    method Flush()
      requires Valid()
      modifies channel`sent, channel`stalls, channel`writeLog, buffer`position, buffer`limit, buffer`mark
      ensures Valid() && State() == Flushed(old(State()))
    {
      FlushBuffer();
    }

    /** write(int); false stands for the BufferOverflowException of a stream without buffer space. */
    method WriteByte(b: int) returns (ok: bool)
      requires Valid()
      modifies channel`sent, channel`stalls, channel`writeLog, buffer, buffer.store
      ensures Valid() && ok == (Capacity() > 0)
      ensures State() == if ok then PutByte(Capacity(), old(State()), Narrow(b)) else old(State())
    {
      if !buffer.HasRemaining() {
        FlushBuffer();
      }
      if !buffer.HasRemaining() {
        return false;
      }
      buffer.Put([Narrow(b)]);
      ok := true;
    }

    /** One round of the loop of a bulk write; false stands for IndexOutOfBoundsException. */
    method WriteSome(b: seq<byte>, off: int, len: int) returns (length: nat, ok: bool)
      requires Valid() && len > 0
      modifies channel`sent, channel`stalls, channel`writeLog, buffer, buffer.store
      ensures Valid()
      ensures var l := Round(Capacity(), b, Loop(old(State()), off, len, false));
        State() == l.st && ok == !l.failed && (ok ==> l.off == off + length && l.len == len - length)
    {
      ghost var st := State();
      if !buffer.HasRemaining() {
        FlushBuffer();
      }
      assert State() == MakeRoom(Capacity(), st);
      length := if len <= buffer.limit - buffer.position then len else buffer.limit - buffer.position;
      ok := 0 <= off && off + length <= |b|;
      if ok {
        buffer.Put(b[off..off + length]);
      }
    }

    /** write(byte[], int, int), wherever its loop ends: n is the number of rounds it takes. */
    method WriteBulk(b: seq<byte>, off: int, len: int) returns (ok: bool, ghost n: nat)
      requires Valid() && Ends(Capacity(), b, off, len)
      modifies channel`sent, channel`stalls, channel`writeLog, buffer, buffer.store
      ensures Valid()
      ensures ok <==> len <= 0 || InBounds(b, off, len)
      ensures ok ==> State() == if len > 0 then PutBytes(Capacity(), old(State()), b[off..off + len]) else old(State())
      ensures var l := Rounds(Capacity(), b, Loop(old(State()), off, len, false), n);
        l.Over() && State() == l.st && ok == !l.failed
    {
      var off', len' := off, len;
      ghost var start := Loop(State(), off, len, false);
      ok, n := true, 0;
      while len' > 0 && ok
        invariant Valid() && State().pending == buffer.State().bytes[..buffer.position] &&
            |start.st.pending| <= Capacity()
        invariant Rounds(Capacity(), b, start, n) == Loop(State(), off', len', !ok)
        decreases if ok then 1 else 0, len'
      {
        RoundProgress(Capacity(), b, start, n);
        var length;
        length, ok := WriteSome(b, off', len');
        n := n + 1;
        if ok {
          len' := len' - length;
          off' := off' + length;
        }
      }
      BulkIsBytes(Capacity(), b, start.st, off, len, n);
    }
  }

  // ---------------------------------------------------------------- the loop of a bulk write

  /** The state of the loop: what is left to write of the array, and whether it failed. */
  datatype Loop = Loop(st: OutState, off: int, len: int, failed: bool) {
    predicate Over() {
      failed || len <= 0
    }
  }

  predicate InBounds(b: seq<byte>, off: int, len: int) {
    0 <= off && off + len <= |b|
  }

  /** A full buffer is flushed. */
  function MakeRoom(capacity: nat, st: OutState): OutState {
    if |st.pending| == capacity then Flushed(st) else st
  }

  /** One round puts as much as fits, or fails if the array does not hold it. */
  function Round(capacity: nat, b: seq<byte>, l: Loop): (r: Loop)
    requires |l.st.pending| <= capacity
    ensures |r.st.pending| <= capacity
  {
    if l.Over() then l
    else
      var st := MakeRoom(capacity, l.st);
      var length := Min(l.len, capacity - |st.pending|);
      if !InBounds(b, l.off, length) then Loop(st, l.off, l.len, true)
      else Loop(OutState(st.sent, st.pending + b[l.off..l.off + length]), l.off + length, l.len - length, false)
  }

  function Rounds(capacity: nat, b: seq<byte>, l: Loop, n: nat): (r: Loop)
    requires |l.st.pending| <= capacity
    ensures |r.st.pending| <= capacity
  {
    if n == 0 then l else Round(capacity, b, Rounds(capacity, b, l, n - 1))
  }

  /** There is room to make, or nothing to write, or the first round fails. */
  predicate Ends(capacity: nat, b: seq<byte>, off: int, len: int) {
    capacity > 0 || len <= 0 || off < 0 || off > |b|
  }

  lemma OneRoundPutBytes(capacity: nat, b: seq<byte>, st: OutState, off: nat, len: nat)
    requires capacity > 0 && |st.pending| <= capacity && off <= |b|
    ensures var r := Round(capacity, b, Loop(st, off, len, false));
      && off <= r.off <= |b| && r.off + r.len == off + len && (len > 0 && !r.failed ==> r.len < len)
      && (!r.failed ==> r.len >= 0 && r.st == PutBytes(capacity, st, b[off..r.off]))
      && (r.failed ==>
            r.off == off && r.st == MakeRoom(capacity, st) && |b| - off < Min(len, capacity - |r.st.pending|))
  {
    var made := MakeRoom(capacity, st);
    var length := Min(len, capacity - |made.pending|);
    if len > 0 && off + length <= |b| {
      var chunk := b[off..off + length];
      if |st.pending| == capacity {
        FlushWhenFull(capacity, st, chunk);
      }
      PutBytesFit(capacity, made, chunk);
    }
  }

  /** The bytes passed have been put one by one; a failure only made room, for more than the array still holds. */
  ghost predicate PutSoFar(capacity: nat, b: seq<byte>, st: OutState, off: nat, len: nat, r: Loop) {
    && off <= r.off <= |b| && r.off + r.len == off + len && r.len >= 0
    && r.st == (var put := PutBytes(capacity, st, b[off..r.off]); if r.failed then MakeRoom(capacity, put) else put)
    && (r.failed ==> |b| - r.off < Min(r.len, capacity - |r.st.pending|))
  }

  lemma PutMore(capacity: nat, b: seq<byte>, st: OutState, off: nat, len: nat, l: Loop)
    requires capacity > 0 && |l.st.pending| <= capacity && !l.Over() && PutSoFar(capacity, b, st, off, len, l)
    ensures PutSoFar(capacity, b, st, off, len, Round(capacity, b, l))
  {
    OneRoundPutBytes(capacity, b, l.st, l.off, l.len);
    var r := Round(capacity, b, l);
    PutBytesAppend(capacity, st, b[off..l.off], b[l.off..r.off]);
    assert b[off..l.off] + b[l.off..r.off] == b[off..r.off];
  }

  lemma {:induction false} RoundsPutBytes(capacity: nat, b: seq<byte>, st: OutState, off: nat, len: nat, n: nat)
    requires capacity > 0 && |st.pending| <= capacity && off <= |b|
    ensures PutSoFar(capacity, b, st, off, len, Rounds(capacity, b, Loop(st, off, len, false), n))
  {
    if n == 0 {
      assert b[off..off] == [];
    } else {
      RoundsPutBytes(capacity, b, st, off, len, n - 1);
      var l := Rounds(capacity, b, Loop(st, off, len, false), n - 1);
      if !l.Over() {
        PutMore(capacity, b, st, off, len, l);
      }
    }
  }

  /** Outside the array the first round fails, and nothing to write is over at once. */
  lemma {:induction false} RoundsAtOnce(capacity: nat, b: seq<byte>, st: OutState, off: int, len: int, n: nat)
    requires |st.pending| <= capacity && (len <= 0 || off < 0 || off > |b|)
    ensures var l := Loop(st, off, len, false);
      Rounds(capacity, b, l, n) == if len <= 0 || n == 0 then l else Loop(MakeRoom(capacity, st), off, len, true)
  {
    if n > 0 {
      RoundsAtOnce(capacity, b, st, off, len, n - 1);
    }
  }

  /** Each round that does not end the loop makes progress, where the loop ends at all. */
  lemma RoundProgress(capacity: nat, b: seq<byte>, l: Loop, n: nat)
    requires |l.st.pending| <= capacity && !l.failed && Ends(capacity, b, l.off, l.len)
    requires !Rounds(capacity, b, l, n).Over()
    ensures var r, r' := Rounds(capacity, b, l, n), Rounds(capacity, b, l, n + 1);
      r'.failed || r'.len < r.len
  {
    if l.off < 0 || l.off > |b| {
      RoundsAtOnce(capacity, b, l.st, l.off, l.len, n);
    } else {
      var r := Rounds(capacity, b, l, n);
      if l.len <= 0 {
        RoundsAtOnce(capacity, b, l.st, l.off, l.len, n);
      } else {
        RoundsPutBytes(capacity, b, l.st, l.off, l.len, n);
        OneRoundPutBytes(capacity, b, r.st, r.off, r.len);
      }
    }
  }

  /**
   What a bulk write does when its loop is over.  It fails exactly if it has something to write
   that the array does not hold; otherwise it amounts to single-byte writes.  When it fails, it
   has written all the array holds from off on, but for a rest that would have fitted into the
   buffer; with an offset outside the array it has written nothing.
   */
  lemma BulkIsBytes(capacity: nat, b: seq<byte>, st: OutState, off: int, len: int, n: nat)
    requires |st.pending| <= capacity && Rounds(capacity, b, Loop(st, off, len, false), n).Over()
    requires Ends(capacity, b, off, len)
    ensures var r := Rounds(capacity, b, Loop(st, off, len, false), n);
      && (r.failed <==> len > 0 && !InBounds(b, off, len))
      && (!r.failed ==> r.st == if len > 0 then PutBytes(capacity, st, b[off..off + len]) else st)
      && (r.failed && 0 <= off <= |b| ==>
            && off <= r.off <= |b| && |b| - r.off < capacity - |r.st.pending|
            && r.st == MakeRoom(capacity, PutBytes(capacity, st, b[off..r.off])))
      && (r.failed && !(0 <= off <= |b|) ==> r.st == MakeRoom(capacity, st))
  {
    if len <= 0 || off < 0 || off > |b| {
      RoundsAtOnce(capacity, b, st, off, len, n);
    } else {
      RoundsPutBytes(capacity, b, st, off, len, n);
    }
  }

  /** With no room to make, a round that does not fail changes nothing. */
  lemma {:induction false} RoundsWithoutRoom(b: seq<byte>, st: OutState, off: int, len: int, n: nat)
    requires st.pending == [] && len > 0 && 0 <= off <= |b|
    ensures Rounds(0, b, Loop(st, off, len, false), n) == Loop(st, off, len, false)
  {
    if n > 0 {
      RoundsWithoutRoom(b, st, off, len, n - 1);
      assert st.sent + [] == st.sent && st.pending + b[off..off] == st.pending;
    }
  }

  lemma {:induction false} RoundsEnough(capacity: nat, b: seq<byte>, l: Loop, n: nat)
    requires |l.st.pending| <= capacity && !l.failed && Ends(capacity, b, l.off, l.len)
    ensures Rounds(capacity, b, l, n).Over() || Rounds(capacity, b, l, n).len <= l.len - n
  {
    if n > 0 {
      RoundsEnough(capacity, b, l, n - 1);
      if !Rounds(capacity, b, l, n - 1).Over() {
        RoundProgress(capacity, b, l, n - 1);
      }
    }
  }

  /**
   The loop of a bulk write ends exactly if the stream has a buffer, or len is not positive, or
   off is outside the array.
   */
  lemma BulkEndsExactly(capacity: nat, b: seq<byte>, st: OutState, off: int, len: int)
    requires |st.pending| <= capacity
    ensures (exists n: nat :: Rounds(capacity, b, Loop(st, off, len, false), n).Over()) <==> Ends(capacity, b, off, len)
  {
    if Ends(capacity, b, off, len) {
      var n: nat := if len > 0 then len else 0;
      RoundsEnough(capacity, b, Loop(st, off, len, false), n);
    } else {
      forall n: nat ensures !Rounds(capacity, b, Loop(st, off, len, false), n).Over() {
        RoundsWithoutRoom(b, st, off, len, n);
      }
    }
  }

  // ---------------------------------------------------------------- whole runs

  datatype Op = Byte(b: int) | Bulk(bs: seq<byte>) | Flush

  function Bytes(op: Op): seq<byte> {
    match op
    case Byte(b) => [Narrow(b)]
    case Bulk(bs) => bs
    case Flush => []
  }

  function Apply(capacity: nat, st: OutState, op: Op): OutState {
    match op
    case Byte(b) => PutByte(capacity, st, Narrow(b))
    case Bulk(bs) => PutBytes(capacity, st, bs)
    case Flush => Flushed(st)
  }

  function Run(capacity: nat, st: OutState, ops: seq<Op>): OutState {
    if |ops| == 0 then st else Apply(capacity, Run(capacity, st, ops[..|ops| - 1]), ops[|ops| - 1])
  }

  /** All bytes the operations were given, in order. */
  function Accepted(ops: seq<Op>): seq<byte> {
    if |ops| == 0 then [] else Accepted(ops[..|ops| - 1]) + Bytes(ops[|ops| - 1])
  }

  lemma {:induction false} PutBytesConserves(capacity: nat, st: OutState, bs: seq<byte>)
    requires |st.pending| <= capacity && capacity > 0
    ensures var t := PutBytes(capacity, st, bs);
      |t.pending| <= capacity && t.sent + t.pending == st.sent + st.pending + bs && st.sent <= t.sent
    decreases |bs|
  {
    if |bs| > 0 {
      var u := PutByte(capacity, st, bs[0]);
      PutBytesConserves(capacity, u, bs[1..]);
      assert u.sent + u.pending == st.sent + st.pending + [bs[0]];
      assert st.sent + st.pending + [bs[0]] + bs[1..] == st.sent + st.pending + bs;
    }
  }

  /**
   Conservation: after any run, the bytes sent and then the bytes pending are all the bytes
   accepted, in order; no more than a buffer is pending, and nothing after a flush.
   */
  lemma {:induction false} Conservation(capacity: nat, ops: seq<Op>)
    requires capacity > 0
    ensures var t := Run(capacity, OutState([], []), ops);
      && t.sent + t.pending == Accepted(ops)
      && |t.pending| <= capacity
      && (|ops| > 0 && ops[|ops| - 1].Flush? ==> t.sent == Accepted(ops) && t.pending == [])
  {
    if |ops| > 0 {
      var before, op := ops[..|ops| - 1], ops[|ops| - 1];
      Conservation(capacity, before);
      var t := Run(capacity, OutState([], []), before);
      match op {
        case Byte(b) => assert t.sent + t.pending + [Narrow(b)] == Accepted(ops);
        case Bulk(bs) => PutBytesConserves(capacity, t, bs);
        case Flush => assert t.sent + t.pending + [] == Accepted(ops);
      }
    }
  }

  ghost predicate NoFlush(ops: seq<Op>) {
    forall i :: 0 <= i < |ops| ==> !ops[i].Flush?
  }

  /** Without a flush, a run depends on its bytes alone and not on how they were split into calls. */
  lemma {:induction false} RunIsPutBytes(capacity: nat, st: OutState, ops: seq<Op>)
    requires NoFlush(ops)
    ensures Run(capacity, st, ops) == PutBytes(capacity, st, Accepted(ops))
  {
    if |ops| > 0 {
      var before, op := ops[..|ops| - 1], ops[|ops| - 1];
      RunIsPutBytes(capacity, st, before);
      PutBytesAppend(capacity, st, Accepted(before), Bytes(op));
      if op.Byte? {
        var t := PutBytes(capacity, st, Accepted(before));
        assert Bytes(op)[1..] == [];
        assert PutBytes(capacity, PutByte(capacity, t, Narrow(op.b)), []) == PutByte(capacity, t, Narrow(op.b));
      }
    }
  }

  /** The whole buffers among n bytes of which at least one stays behind. */
  function WholeBuffers(n: nat, capacity: nat): nat
    requires n > 0 && capacity > 0
    ensures WholeBuffers(n, capacity) < n <= WholeBuffers(n, capacity) + capacity
  {
    assert capacity * ((n - 1) / capacity) + (n - 1) % capacity == n - 1;
    ((n - 1) / capacity) * capacity
  }

  lemma NextWhole(n: nat, capacity: nat)
    requires n > 0 && capacity > 0
    ensures WholeBuffers(n + 1, capacity) ==
            if n - WholeBuffers(n, capacity) == capacity then n else WholeBuffers(n, capacity)
  {
    var q := (n - 1) / capacity;
    var k := if n - q * capacity == capacity then q + 1 else q;
    assert (q + 1) * capacity == q * capacity + capacity;
    assert k * capacity <= n < k * capacity + capacity;
    Quotient(n, capacity, k);
  }

  lemma Quotient(n: nat, d: nat, q: nat)
    requires d > 0 && q * d <= n < q * d + d
    ensures n / d == q
  {
    var p := n / d;
    assert d * p + n % d == n;
    assert p < q ==> (p + 1) * d <= q * d;
    assert p > q ==> (q + 1) * d <= p * d;
  }

  lemma {:induction false} PutBytesExactly(capacity: nat, sent: seq<byte>, bs: seq<byte>)
    requires capacity > 0 && |bs| > 0
    ensures var k := WholeBuffers(|bs|, capacity);
      PutBytes(capacity, OutState(sent, []), bs) == OutState(sent + bs[..k], bs[k..])
    decreases |bs|
  {
    if |bs| == 1 {
      PutBytesFit(capacity, OutState(sent, []), bs);
      Quotient(0, capacity, 0);
      assert sent + bs[..0] == sent && [] + bs == bs;
    } else {
      var n := |bs| - 1;
      PutBytesExactly(capacity, sent, bs[..n]);
      NextWhole(n, capacity);
      PutBytesAppend(capacity, OutState(sent, []), bs[..n], [bs[n]]);
      assert bs[..n] + [bs[n]] == bs;
    }
  }

  /**
   What is sent without a flush, exactly: after n > 0 bytes in any mixture of calls, all
   buffers that were full before the last byte, floor((n - 1) / capacity) * capacity bytes,
   are sent and the rest is pending.  A flush starts the count again.
   */
  lemma SentExactly(capacity: nat, before: seq<Op>, after: seq<Op>)
    requires capacity > 0 && NoFlush(after) && Accepted(after) != []
    ensures var t := Run(capacity, Run(capacity, OutState([], []), before + [Flush]), after);
      var n := |Accepted(after)|;
      var k := ((n - 1) / capacity) * capacity;
      && 0 <= k < n
      && t == OutState(Accepted(before) + Accepted(after)[..k], Accepted(after)[k..])
  {
    Conservation(capacity, before + [Flush]);
    assert (before + [Flush])[..|before|] == before;
    var u := Run(capacity, OutState([], []), before + [Flush]);
    assert u == OutState(Accepted(before), []);
    RunIsPutBytes(capacity, u, after);
    PutBytesExactly(capacity, Accepted(before), Accepted(after));
    assert WholeBuffers(|Accepted(after)|, capacity) < |Accepted(after)|;
  }
}
