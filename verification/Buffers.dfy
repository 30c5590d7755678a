/** The parts of java.nio.ByteBuffer that the channels and the streams use. */
module Buffers {
  import opened Basics

  /** The whole state of a buffer as a value. */
  datatype Snapshot = Snapshot(position: nat, limit: nat, mark: Option<nat>, bytes: seq<byte>) {
    predicate Valid() {
      position <= limit <= |bytes| && (mark.Some? ==> mark.value <= position)
    }

    function Room(): nat
      requires Valid()
    {
      limit - position
    }

    /** The bytes between position and limit. */
    function Rest(): seq<byte>
      requires Valid()
    {
      bytes[position..limit]
    }

    /** position(p): a mark beyond p is dropped. */
    function At(p: nat): Snapshot {
      this.(position := p, mark := if mark.Some? && mark.value > p then None else mark)
    }

    /** src written at offset. */
    function With(offset: nat, src: seq<byte>): Snapshot
      requires offset + |src| <= |bytes|
    {
      this.(bytes := bytes[..offset] + src + bytes[offset + |src|..])
    }
  }

  /** The part of an array's contents that a buffer looks at. */
  function Window(contents: seq<byte>, base: nat, size: nat): (part: seq<byte>)
    ensures |part| == size
  {
    seq(size, i requires 0 <= i < size => if base + i < |contents| then contents[base + i] else 0)
  }

  /** Equal but for the elements from lo up to hi. */
  ghost predicate SameOutside(a: seq<byte>, b: seq<byte>, lo: nat, hi: nat) {
    |a| == |b| && forall k :: 0 <= k < |a| && !(lo <= k < hi) ==> a[k] == b[k]
  }

  /** A buffer over a part of an array, which other buffers may share. */
  class ByteBuffer {
    const direct: bool          // has an address that native code can use
    const store: array<byte>
    const base: nat             // where the part begins
    const size: nat
    var position: nat
    var limit: nat
    var mark: Option<nat>

    ghost function State(): Snapshot
      reads this, store
    {
      Snapshot(position, limit, mark, Window(store[..], base, size))
    }

    ghost predicate Valid()
      reads this, store
    {
      State().Valid()
    }

    /** The part lies within the array. */
    predicate InStore() {
      base + size <= store.Length
    }

    constructor (capacity: nat, direct: bool)
      ensures Valid() && InStore() && fresh(store) && this.direct == direct && size == capacity
      ensures position == 0 && limit == |State().bytes| == capacity && mark.None?
      ensures forall k :: 0 <= k < capacity ==> State().bytes[k] == 0
    {
      this.direct := direct;
      store := new byte[capacity](_ => 0);
      base, size := 0, capacity;
      position, limit, mark := 0, capacity, None;
    }

    /** slice(): what remains in another buffer, over the same memory. */
    constructor Slice(of: ByteBuffer)
      requires of.Valid() && of.InStore()
      ensures Valid() && InStore() && direct == of.direct && store == of.store
      ensures base == of.base + of.position && size == of.State().Room()
      ensures State() == Snapshot(0, size, None, of.State().Rest())
    {
      direct, store, base, size := of.direct, of.store, of.base + of.position, of.limit - of.position;
      position, limit, mark := 0, of.limit - of.position, None;
      new;
      assert State().bytes == of.State().Rest();
    }

    predicate HasRemaining()
      reads this
    {
      position < limit
    }

    method SetPosition(newPosition: nat)
      requires Valid() && newPosition <= limit
      modifies `position, `mark
      ensures State() == old(State()).At(newPosition)
    {
      if mark.Some? && mark.value > newPosition {
        mark := None;
      }
      position := newPosition;
    }

    method Clear()
      modifies `position, `limit, `mark
      ensures State() == Snapshot(0, size, None, old(State()).bytes)
    {
      position, limit, mark := 0, size, None;
    }

    method Flip()
      modifies `position, `limit, `mark
      ensures State() == Snapshot(0, old(position), None, old(State()).bytes)
    {
      limit, position, mark := position, 0, None;
    }

    method SetMark()
      modifies `mark
      ensures State() == old(State()).(mark := Some(position))
    {
      mark := Some(position);
    }

    /** False stands for InvalidMarkException. */
    method Reset() returns (ok: bool)
      requires Valid()
      modifies `position
      ensures ok == mark.Some?
      ensures State() == if ok then old(State()).(position := mark.value) else old(State())
    {
      ok := mark.Some?;
      if ok {
        position := mark.value;
      }
    }

    /** put(byte[]): writes all of src at the position and advances past it. */
    method Put(src: seq<byte>)
      requires Valid() && InStore() && |src| <= limit - position
      modifies `position, store
      ensures State() == old(State()).With(old(position), src).(position := old(position) + |src|)
      ensures SameOutside(old(store[..]), store[..], base, base + size)
    {
      Store(position, src);
      position := position + |src|;
    }

    /** Memory written at offset from the start of the buffer. */
    method Store(offset: nat, src: seq<byte>)
      requires InStore() && offset + |src| <= size
      modifies store
      ensures State() == old(State()).With(offset, src)
      ensures SameOutside(old(store[..]), store[..], base, base + size)
    {
      var at := base + offset;
      forall k | 0 <= k < |src| {
        store[at + k] := src[k];
      }
    }

    /** get(byte[]): takes n bytes at the position and advances past them. */
    method Get(n: nat) returns (dst: seq<byte>)
      requires Valid() && InStore() && n <= limit - position
      modifies `position
      ensures State() == old(State()).(position := old(position) + n)
      ensures dst == old(State()).Rest()[..n]
    {
      dst := Peek(n);
      position := position + n;
    }

    /** The next n bytes. */
    method Peek(n: nat) returns (dst: seq<byte>)
      requires Valid() && InStore() && n <= limit - position
      ensures dst == State().Rest()[..n]
    {
      dst := store[base + position..base + position + n];
      assert dst == store[..][base + position..base + position + n];
    }
  }

  /** The storage arrays of the buffers. */
  ghost function Stores(w: seq<ByteBuffer>): set<array<byte>> {
    set b | b in w :: b.store
  }

  /** Different objects, each over a part of its array. */
  ghost predicate Distinct(w: seq<ByteBuffer>) {
    (forall i :: 0 <= i < |w| ==> w[i].InStore()) && forall i, j :: 0 <= i < j < |w| ==> w[i] != w[j]
  }

  /** No memory in common. */
  predicate Disjoint(a: ByteBuffer, b: ByteBuffer) {
    a.store != b.store || a.base + a.size <= b.base || b.base + b.size <= a.base
  }

  /** Different objects over different memory, be it parts of one array. */
  ghost predicate Separate(w: seq<ByteBuffer>) {
    Distinct(w) && forall i, j :: 0 <= i < j < |w| ==> Disjoint(w[i], w[j])
  }

  ghost function States(w: seq<ByteBuffer>): (s: seq<Snapshot>)
    reads w, Stores(w)
    ensures |s| == |w| && forall i :: 0 <= i < |w| ==> s[i] == w[i].State()
  {
    seq(|w|, i requires 0 <= i < |w| reads w, Stores(w) => w[i].State())
  }

  ghost predicate AllValid(s: seq<Snapshot>) {
    forall i :: 0 <= i < |s| ==> s[i].Valid()
  }

  /** The number of bytes remaining in each buffer. */
  function Rooms(s: seq<Snapshot>): (lens: seq<nat>)
    requires forall i :: 0 <= i < |s| ==> s[i].Valid()
    ensures |lens| == |s| && forall i :: 0 <= i < |s| ==> lens[i] == s[i].Room()
  {
    seq(|s|, i requires 0 <= i < |s| => s[i].Room())
  }

  /** The bytes remaining in each buffer. */
  function Rests(s: seq<Snapshot>): (parts: seq<seq<byte>>)
    requires forall i :: 0 <= i < |s| ==> s[i].Valid()
    ensures |parts| == |s| && forall i :: 0 <= i < |s| ==> parts[i] == s[i].Rest()
  {
    seq(|s|, i requires 0 <= i < |s| => s[i].Rest())
  }

  /** What a change to buffer i alone does to the states of all buffers. */
  lemma OnlyOneChanged(w: seq<ByteBuffer>, i: nat, before: seq<Snapshot>)
    requires |before| == |w| && i < |w|
    requires forall j :: 0 <= j < |w| && j != i ==> w[j].State() == before[j]
    ensures States(w) == before[i := w[i].State()]
  {
  }

  /** The first i states are those of goal, the others still those of start. */
  ghost predicate DoneUpTo(goal: seq<Snapshot>, start: seq<Snapshot>, i: nat, now: seq<Snapshot>) {
    && |goal| == |start| == |now| && i <= |now|
    && (forall j :: 0 <= j < i ==> now[j] == goal[j])
    && forall j :: i <= j < |now| ==> now[j] == start[j]
  }

  lemma DoneNext(goal: seq<Snapshot>, start: seq<Snapshot>, i: nat, now: seq<Snapshot>)
    requires DoneUpTo(goal, start, i, now) && i < |now|
    ensures now[i] == start[i] && DoneUpTo(goal, start, i + 1, now[i := goal[i]])
  {
  }

  lemma AllDone(goal: seq<Snapshot>, start: seq<Snapshot>, now: seq<Snapshot>)
    requires DoneUpTo(goal, start, |now|, now)
    ensures now == goal
  {
  }

  /** A change to the memory of buffer i leaves the states of the others as they were. */
  lemma OthersUnchanged(w: seq<ByteBuffer>, i: nat, before: seq<byte>, j: nat)
    requires Separate(w) && i < |w| && j < |w| && j != i
    requires SameOutside(before, w[i].store[..], w[i].base, w[i].base + w[i].size)
    ensures w[j].store == w[i].store ==> Window(before, w[j].base, w[j].size) == w[j].State().bytes
  {
    assert Disjoint(w[i], w[j]) || Disjoint(w[j], w[i]);
  }

  /** Memory of buffer i written at offset, as native code does through the buffer's address. */
  method Poke(w: seq<ByteBuffer>, i: nat, offset: nat, src: seq<byte>)
    requires Separate(w) && i < |w| && offset + |src| <= w[i].size
    modifies w[i].store
    ensures States(w) == old(States(w))[i := old(w[i].State()).With(offset, src)]
  {
    ghost var before := w[i].store[..];
    w[i].Store(offset, src);
    forall j | 0 <= j < |w| && j != i ensures w[j].State() == old(States(w))[j] {
      OthersUnchanged(w, i, before, j);
      assert old(States(w))[j] == old(w[j].State());
    }
    OnlyOneChanged(w, i, old(States(w)));
  }
}
