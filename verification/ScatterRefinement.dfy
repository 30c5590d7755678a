/**
 The two implementations of read(ByteBuffer[], int, int), the Java loop over single-buffer
 reads and the native readv with its residual loop, against each other.
 */
module ScatterRefinement {
  import opened Basics
  import opened Buffers
  import opened FillOrder
  import opened NativeVectored
  import opened Channels

  /** Equal, but for the bytes between position and limit. */
  predicate SameButRest(t: Snapshot, u: Snapshot) {
    && t.Valid() && u.Valid()
    && t.position == u.position && t.limit == u.limit && t.mark == u.mark
    && t.bytes[..t.position] == u.bytes[..u.position] && t.bytes[t.limit..] == u.bytes[u.limit..]
  }

  /** For one buffer and the same bytes: the same state, but for what a heap buffer holds behind its position. */
  lemma OneAlike(direct: bool, s: Snapshot, area: seq<byte>)
    requires s.Valid() && |area| <= s.Room()
    ensures SameButRest(Filled(s, area), AfterRead(direct, s, area))
    ensures direct ==> Filled(s, area) == AfterRead(direct, s, area)
  {
  }

  /** For the same total: the same advances, the split of that total. */
  lemma SameTotalSameAdvances(s: seq<Snapshot>, java: seq<seq<byte>>, native: seq<seq<byte>>)
    requires AllValid(s)
    requires InOrder(Rooms(s), Lengths(java)) && InOrder(Rooms(s), Lengths(native))
    requires Sum(Lengths(java)) == Sum(Lengths(native))
    ensures Lengths(java) == Lengths(native) == Split(Rooms(s), Sum(Lengths(java)))
  {
    InOrderIsSplit(Rooms(s), Lengths(java));
    InOrderIsSplit(Rooms(s), Lengths(native));
  }

  /**
   For the same bytes, in however many short reads the Java loop received them: t and u, the
   buffers behind the Java loop and behind doRead, are in the same state, but for what a heap
   buffer holds behind its position.
   */
  lemma LoopRefinesNative(direct: seq<bool>, s: seq<Snapshot>, java: seq<seq<byte>>, native: seq<seq<byte>>,
                          t: seq<Snapshot>, u: seq<Snapshot>)
    requires |direct| == |s| && AllFilled(s, java, t)
    requires InOrder(Rooms(s), Lengths(java)) && InOrder(Rooms(s), Lengths(native))
    requires |u| == |s|
    requires forall i :: 0 <= i < |s| ==>
               |native[i]| <= s[i].Room() && u[i] == AfterRead(direct[i], s[i], native[i])
    requires Flatten(java) == Flatten(native)
    ensures forall i :: 0 <= i < |s| ==> SameButRest(t[i], u[i]) && (direct[i] ==> t[i] == u[i])
  {
    SameBytesSamePlaces(Rooms(s), java, native);
    forall i | 0 <= i < |s|
      ensures SameButRest(t[i], u[i]) && (direct[i] ==> t[i] == u[i])
    {
      OneAlike(direct[i], s[i], native[i]);
    }
  }
}
