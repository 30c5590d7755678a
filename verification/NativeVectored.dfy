/**
 doRead and doWrite of linux/SerialChannel.c: scatter and gather over the remaining parts of
 up to MaxBuffers buffers.  The kernel call is given by its outcome, which is constrained only
 by what readv and writev promise.

 The area of a direct buffer lies in the buffer's own memory; a heap buffer is served through
 a temporary array, here a sequence, that stands beside it.
 */
module NativeVectored {
  import opened Basics
  import opened Buffers
  import opened FillOrder

  const MAX_BUFFERS: nat := 16

  datatype IoError = IoException

  /** The bytes readv put into each area; or EAGAIN or EINTR; or another error. */
  datatype ReadOutcome = Delivered(areas: seq<seq<byte>>) | Again | Failed

  /** The number of bytes writev took from each area; or EAGAIN; or another error, EINTR among them. */
  datatype WriteOutcome = Accepted(taken: seq<nat>) | TryAgain | Refused

  function Zeros(n: nat): (z: seq<byte>)
    ensures |z| == n && forall k :: 0 <= k < n ==> z[k] == 0
  {
    seq(n, _ => 0)
  }

  /** bytes, with area written at its start. */
  function Fill(bytes: seq<byte>, area: seq<byte>): (r: seq<byte>)
    requires |area| <= |bytes|
    ensures |r| == |bytes|
  {
    area + bytes[|area|..]
  }

  // ---------------------------------------------------------------- doRead

  /** What each buffer receives. */
  function Received(o: ReadOutcome, n: nat): (areas: seq<seq<byte>>)
    requires o.Delivered? ==> |o.areas| == n
    ensures |areas| == n
  {
    if o.Delivered? then o.areas else seq(n, _ => [])
  }

  /**
   A buffer after doRead gave it the bytes of area: they stand at the old position, and the
   position is just behind them.  In a heap buffer the rest of the window is cleared, because
   the whole temporary array is put back.
   */
  function AfterRead(direct: bool, s: Snapshot, area: seq<byte>): Snapshot
    requires s.Valid() && |area| <= s.Room()
  {
    s.With(s.position, if direct then area else area + Zeros(s.Room() - |area|)).At(s.position + |area|)
  }

  /** The first loop of doRead: positions, lengths, and a new array for every heap buffer. */
  method DescribeForRead(w: seq<ByteBuffer>) returns (pos: seq<nat>, len: seq<nat>, arr: seq<Option<seq<byte>>>)
    requires AllValid(States(w))
    ensures |pos| == |arr| == |w| && len == Rooms(States(w))
    ensures forall j :: 0 <= j < |w| ==> pos[j] == States(w)[j].position
    ensures forall j :: 0 <= j < |w| ==> arr[j] == if w[j].direct then None else Some(Zeros(len[j]))
  {
    pos, len, arr := [], [], [];
    for ii := 0 to |w|
      invariant |pos| == |len| == |arr| == ii
      invariant forall j :: 0 <= j < ii ==> pos[j] == States(w)[j].position && len[j] == States(w)[j].Room()
      invariant forall j :: 0 <= j < ii ==> arr[j] == if w[j].direct then None else Some(Zeros(len[j]))
    {
      var bb := w[ii];
      assert States(w)[ii] == bb.State();
      var l: nat := bb.limit - bb.position;
      pos, len := pos + [bb.position], len + [l];
      arr := arr + [if bb.direct then None else Some(Zeros(l))];
    }
  }

  /** The area of one buffer has been written: in the buffer itself, or in the array beside it. */
  ghost predicate InMemory(s: Snapshot, arr: Option<seq<byte>>, area: seq<byte>, t: Snapshot, arr': Option<seq<byte>>) {
    && s.Valid() && |area| <= s.Room()
    && (if arr.None? then t == s.With(s.position, area) && arr' == None
        else |area| <= |arr.value| && t == s && arr' == Some(Fill(arr.value, area)))
  }

  /** The first i areas have been written, the others not. */
  ghost predicate WrittenUpTo(s: seq<Snapshot>, arr: seq<Option<seq<byte>>>, areas: seq<seq<byte>>, i: nat,
                              t: seq<Snapshot>, arr': seq<Option<seq<byte>>>) {
    && |s| == |arr| == |areas| == |t| == |arr'|
    && (forall j :: 0 <= j < i && j < |s| ==> InMemory(s[j], arr[j], areas[j], t[j], arr'[j]))
    && forall j :: i <= j < |s| ==> t[j] == s[j] && arr'[j] == arr[j]
  }

  lemma WrittenNext(s: seq<Snapshot>, arr: seq<Option<seq<byte>>>, areas: seq<seq<byte>>, i: nat, t: seq<Snapshot>,
                    arr': seq<Option<seq<byte>>>, u: Snapshot, a: Option<seq<byte>>)
    requires WrittenUpTo(s, arr, areas, i, t, arr') && i < |s| && InMemory(s[i], arr[i], areas[i], u, a)
    ensures WrittenUpTo(s, arr, areas, i + 1, t[i := u], arr'[i := a])
  {
  }

  /** One area is written, in buffer ii or in the array beside it. */
  method WriteArea(w: seq<ByteBuffer>, ii: nat, pos: nat, copy: Option<seq<byte>>, area: seq<byte>)
    returns (copy': Option<seq<byte>>)
    requires Separate(w) && ii < |w| && w[ii].Valid() && pos == w[ii].position && |area| <= w[ii].State().Room()
    requires copy.Some? ==> |area| <= |copy.value|
    modifies w[ii].store
    ensures InMemory(old(States(w))[ii], copy, area, States(w)[ii], copy')
    ensures States(w) == old(States(w))[ii := States(w)[ii]]
  {
    ghost var s := w[ii].State();
    assert s == States(w)[ii];
    copy' := copy;
    if copy.None? {
      Poke(w, ii, pos, area);
    } else {
      copy' := Some(Fill(copy.value, area));
    }
  }

  /** The kernel writes each area, in the buffer or in the array beside it. */
  method Readv(w: seq<ByteBuffer>, pos: seq<nat>, len: seq<nat>, arr: seq<Option<seq<byte>>>, o: ReadOutcome)
    returns (rc: int, arr': seq<Option<seq<byte>>>)
    requires Separate(w) && AllValid(States(w)) && |pos| == |arr| == |w| && len == Rooms(States(w))
    requires forall j :: 0 <= j < |w| ==> pos[j] == States(w)[j].position
    requires forall j :: 0 <= j < |w| ==> (arr[j].Some? ==> |arr[j].value| == len[j])
    requires o.Delivered? ==> InOrder(len, Lengths(o.areas))
    modifies Stores(w)
    ensures rc == if o.Delivered? then Sum(Lengths(o.areas)) else -1
    ensures !o.Delivered? ==> States(w) == old(States(w)) && arr' == arr
    ensures o.Delivered? ==> WrittenUpTo(old(States(w)), arr, o.areas, |w|, States(w), arr')
  {
    arr' := arr;
    if !o.Delivered? {
      return -1, arr';
    }
    ghost var s := States(w);
    rc := 0;
    for ii := 0 to |w|
      invariant rc == Sum(Lengths(o.areas[..ii])) && WrittenUpTo(s, arr, o.areas, ii, States(w), arr')
    {
      var area := o.areas[ii];
      assert w[ii].State() == States(w)[ii] == s[ii] && |area| == Lengths(o.areas)[ii] <= len[ii];
      ghost var t := States(w);
      var copy := WriteArea(w, ii, pos[ii], arr[ii], area);
      WrittenNext(s, arr, o.areas, ii, t, arr', States(w)[ii], copy);
      arr' := arr'[ii := copy];
      SumNext(o.areas, ii);
      rc := rc + |area|;
    }
    assert o.areas[..|w|] == o.areas;
  }

  lemma SumNext(areas: seq<seq<byte>>, i: nat)
    requires i < |areas|
    ensures Sum(Lengths(areas[..i + 1])) == Sum(Lengths(areas[..i])) + |areas[i]|
  {
    assert Lengths(areas[..i + 1]) == Lengths(areas[..i]) + [|areas[i]|];
    SumAppend(Lengths(areas[..i]), |areas[i]|);
  }

  /** A temporary array put back over the window of the buffer. */
  function PutBack(s: Snapshot, copy: Option<seq<byte>>): Snapshot
    requires s.Valid() && (copy.Some? ==> |copy.value| == s.Room())
  {
    if copy.Some? then s.With(s.position, copy.value) else s
  }

  /** What the last loop of doRead has to do to a buffer in state t: put arr back and advance by part. */
  ghost predicate Planned(t: Snapshot, pos: nat, len: nat, arr: Option<seq<byte>>, part: nat, goal: Snapshot) {
    && t.Valid() && t.position == pos && t.limit == pos + len && (arr.Some? ==> |arr.value| == len)
    && goal == PutBack(t, arr).At(pos + part)
  }

  ghost predicate AllPlanned(t: seq<Snapshot>, pos: seq<nat>, len: seq<nat>, copies: seq<Option<seq<byte>>>,
                             parts: seq<nat>, goal: seq<Snapshot>) {
    && |t| == |pos| == |len| == |copies| == |parts| == |goal|
    && forall j {:trigger Planned(t[j], pos[j], len[j], copies[j], parts[j], goal[j])} :: 0 <= j < |t| ==>
         Planned(t[j], pos[j], len[j], copies[j], parts[j], goal[j])
  }

  /** One round of the last loop of doRead: takes the buffer's share of the count and uses it. */
  method AdvanceAfterRead(w: seq<ByteBuffer>, ii: nat, pos: nat, len: nat, copy: Option<seq<byte>>, res: nat,
                          ghost goal: Snapshot)
    returns (left: nat)
    requires ii < |w| && Separate(w) && Planned(States(w)[ii], pos, len, copy, Share(res, len), goal)
    modifies w[ii], w[ii].store
    ensures left == res - Share(res, len)
    ensures States(w) == old(States(w))[ii := goal]
  {
    assert w[ii].State() == States(w)[ii];
    var r: nat;
    if res >= len {
      r := len;
      left := res - len;
    } else {
      r := res;
      left := 0;
    }
    ghost var before := w[ii].store[..];
    if copy.Some? {
      w[ii].Put(copy.value);
    }
    w[ii].SetPosition(pos + r);
    forall j | 0 <= j < |w| && j != ii ensures w[j].State() == old(States(w))[j] {
      OthersUnchanged(w, ii, before, j);
      assert old(States(w))[j] == old(w[j].State());
    }
    OnlyOneChanged(w, ii, old(States(w)));
  }

  /** The last loop of doRead: splits the count over the buffers. */
  method AdvanceAllAfterRead(w: seq<ByteBuffer>, pos: seq<nat>, len: seq<nat>, copies: seq<Option<seq<byte>>>, rc: nat,
                             ghost parts: seq<nat>, ghost goal: seq<Snapshot>)
    requires Separate(w) && parts == Split(len, rc) && AllPlanned(States(w), pos, len, copies, parts, goal)
    modifies w, Stores(w)
    ensures States(w) == goal
  {
    ghost var start := States(w);
    var res := rc;
    for ii := 0 to |w|
      invariant res == FillOrder.Rest(len, rc, ii)
      invariant DoneUpTo(goal, start, ii, States(w))
    {
      LoopIsSplit(len, rc, ii);
      DoneNext(goal, start, ii, States(w));
      assert Planned(start[ii], pos[ii], len[ii], copies[ii], parts[ii], goal[ii]);
      res := AdvanceAfterRead(w, ii, pos[ii], len[ii], copies[ii], res, goal[ii]);
    }
    AllDone(goal, start, States(w));
  }

  /** Writing the area and putting the array back amount to one transfer into the buffer. */
  lemma BothHalves(direct: bool, s: Snapshot, area: seq<byte>, arr: Option<seq<byte>>, t: Snapshot,
                   arr': Option<seq<byte>>)
    requires s.Valid() && |area| <= s.Room()
    requires arr == if direct then None else Some(Zeros(s.Room()))
    requires InMemory(s, arr, area, t, arr') || (area == [] && t == s && arr' == arr)
    ensures t.Valid() && t.position == s.position && t.limit == s.limit
    ensures arr'.Some? ==> |arr'.value| == s.Room()
    ensures PutBack(t, arr').At(s.position + |area|) == AfterRead(direct, s, area)
  {
    if !direct {
      assert Fill(Zeros(s.Room()), area) == area + Zeros(s.Room() - |area|);
    } else {
      assert s.With(s.position, []).bytes == s.bytes;
    }
  }

  /** What the buffers are to be after each received its area. */
  ghost predicate ReadGoal(w: seq<ByteBuffer>, s: seq<Snapshot>, areas: seq<seq<byte>>, goal: seq<Snapshot>)
    requires AllValid(s)
  {
    && |w| == |s| == |areas| == |goal|
    && forall j {:trigger goal[j]} :: 0 <= j < |w| ==>
         |areas[j]| <= s[j].Room() && goal[j] == AfterRead(w[j].direct, s[j], areas[j])
  }

  /** The states that the last loop of doRead has to bring about. */
  lemma ReadGoals(w: seq<ByteBuffer>, s: seq<Snapshot>, areas: seq<seq<byte>>, arr: seq<Option<seq<byte>>>,
                  t: seq<Snapshot>, arr': seq<Option<seq<byte>>>, pos: seq<nat>)
    returns (goal: seq<Snapshot>)
    requires |s| == |areas| == |arr| == |t| == |arr'| == |w| && AllValid(s) && InOrder(Rooms(s), Lengths(areas))
    requires |pos| == |w| && forall j :: 0 <= j < |w| ==> pos[j] == s[j].position
    requires forall j :: 0 <= j < |w| ==> arr[j] == if w[j].direct then None else Some(Zeros(s[j].Room()))
    requires forall j :: 0 <= j < |w| ==>
      InMemory(s[j], arr[j], areas[j], t[j], arr'[j]) || (areas[j] == [] && t[j] == s[j] && arr'[j] == arr[j])
    ensures ReadGoal(w, s, areas, goal) && AllPlanned(t, pos, Rooms(s), arr', Lengths(areas), goal)
  {
    forall j | 0 <= j < |w| ensures |areas[j]| <= s[j].Room() {
      assert Lengths(areas)[j] <= Rooms(s)[j];
    }
    goal := seq(|w|, j requires 0 <= j < |w| => AfterRead(w[j].direct, s[j], areas[j]));
    forall j | 0 <= j < |w| ensures Planned(t[j], pos[j], Rooms(s)[j], arr'[j], Lengths(areas)[j], goal[j]) {
      BothHalves(w[j].direct, s[j], areas[j], arr[j], t[j], arr'[j]);
    }
  }

  /** The first part of doRead: the areas, and readv over them. */
  method FillAreas(w: seq<ByteBuffer>, o: ReadOutcome)
    returns (rc: int, pos: seq<nat>, len: seq<nat>, arr: seq<Option<seq<byte>>>, ghost goal: seq<Snapshot>)
    requires Separate(w) && AllValid(States(w)) && (o.Delivered? ==> InOrder(Rooms(States(w)), Lengths(o.areas)))
    modifies Stores(w)
    ensures var s, areas := old(States(w)), Received(o, |w|);
      && InOrder(Rooms(s), Lengths(areas)) && len == Rooms(s)
      && rc == (if o.Delivered? then Sum(Lengths(areas)) else -1)
      && (!o.Delivered? ==> Sum(Lengths(areas)) == 0 && States(w) == s)
      && ReadGoal(w, s, areas, goal) && AllPlanned(States(w), pos, len, arr, Lengths(areas), goal)
  {
    ghost var s, areas := States(w), Received(o, |w|);
    pos, len, arr := DescribeForRead(w);
    ghost var arr0 := arr;
    rc, arr := Readv(w, pos, len, arr, o);
    if !o.Delivered? {
      SumZero(Lengths(areas));
    }
    assert InOrder(len, Lengths(areas));
    goal := ReadGoals(w, s, areas, arr0, States(w), arr, pos);
  }

  method DoRead(bba: seq<ByteBuffer>, offset: nat, length: nat, o: ReadOutcome) returns (res: Result<nat, IoError>)
    requires offset + length <= |bba| && length <= MAX_BUFFERS
    requires var w := bba[offset..offset + length];
      && Separate(w) && AllValid(States(w))
      && (o.Delivered? ==> InOrder(Rooms(States(w)), Lengths(o.areas)))
    modifies bba[offset..offset + length], Stores(bba[offset..offset + length])
    ensures var w, s := bba[offset..offset + length], old(States(bba[offset..offset + length]));
      if o.Failed? then res == Err(IoException) && States(w) == s
      else
        var areas := if o.Delivered? then o.areas else seq<seq<byte>>(length, _ => []);
        && res == Ok(Sum(Lengths(areas)))
        && InOrder(Rooms(s), Lengths(areas))
        && forall i :: 0 <= i < length ==>
             |areas[i]| <= s[i].Room() && States(w)[i] == AfterRead(w[i].direct, s[i], areas[i])
  {
    var w := bba[offset..offset + length];
    ghost var areas := Received(o, length);
    var rc, pos, len, arr;
    ghost var goal;
    rc, pos, len, arr, goal := FillAreas(w, o);
    if o.Again? {
      rc := 0;
    }
    if rc < 0 {
      return Err(IoException);
    }
    InOrderIsSplit(len, Lengths(areas));
    AdvanceAllAfterRead(w, pos, len, arr, rc, Lengths(areas), goal);
    res := Ok(rc);
  }

  /** The bytes each buffer was advanced over. */
  function Passed(s: seq<Snapshot>, t: seq<Snapshot>): (regions: seq<seq<byte>>)
    requires |s| == |t| && forall i :: 0 <= i < |s| ==> s[i].position <= t[i].position <= |t[i].bytes|
    ensures |regions| == |s|
    ensures forall i :: 0 <= i < |s| ==> regions[i] == t[i].bytes[s[i].position..t[i].position]
  {
    seq(|s|, i requires 0 <= i < |s| => t[i].bytes[s[i].position..t[i].position])
  }

  /**
   What a successful doRead leaves: the buffers stay valid, they are advanced by the split of
   the count, and the bytes passed over are, end to end, the bytes that readv delivered.  In a
   direct buffer nothing else changes; in a heap buffer the unused window is cleared.
   */
  lemma ScatterExact(direct: seq<bool>, s: seq<Snapshot>, areas: seq<seq<byte>>, t: seq<Snapshot>)
    requires |direct| == |s| == |areas| == |t| && AllValid(s) && InOrder(Rooms(s), Lengths(areas))
    requires forall i :: 0 <= i < |s| ==> |areas[i]| <= s[i].Room() && t[i] == AfterRead(direct[i], s[i], areas[i])
    ensures AllValid(t)
    ensures var rc := Sum(Lengths(areas));
      && rc <= Sum(Rooms(s))
      && (forall i :: 0 <= i < |s| ==>
            t[i].position == s[i].position + Split(Rooms(s), rc)[i] <= t[i].limit == s[i].limit)
      && Flatten(Passed(s, t)) == Flatten(areas) && |Flatten(areas)| == rc
    ensures forall i :: 0 <= i < |s| ==>
      && t[i].mark == s[i].mark
      && t[i].bytes[..s[i].position] == s[i].bytes[..s[i].position]
      && t[i].bytes[s[i].limit..] == s[i].bytes[s[i].limit..]
      && t[i].Rest() == if direct[i] then s[i].bytes[t[i].position..s[i].limit] else Zeros(t[i].Room())
  {
    forall i | 0 <= i < |s|
      ensures t[i].Valid() && t[i].position == s[i].position + |areas[i]| && t[i].limit == s[i].limit
      ensures t[i].mark == s[i].mark
      ensures t[i].bytes[s[i].position..t[i].position] == areas[i]
      ensures t[i].bytes[..s[i].position] == s[i].bytes[..s[i].position]
      ensures t[i].bytes[s[i].limit..] == s[i].bytes[s[i].limit..]
      ensures t[i].Rest() == if direct[i] then s[i].bytes[t[i].position..s[i].limit] else Zeros(t[i].Room())
    {
      OneScatter(direct[i], s[i], areas[i]);
    }
    InOrderIsSplit(Rooms(s), Lengths(areas));
    assert Passed(s, t) == areas;
    FlattenLength(areas);
  }

  lemma OneScatter(direct: bool, s: Snapshot, area: seq<byte>)
    requires s.Valid() && |area| <= s.Room()
    ensures var t := AfterRead(direct, s, area);
      && t.Valid() && t.position == s.position + |area| && t.limit == s.limit && t.mark == s.mark
      && t.bytes[s.position..t.position] == area
      && t.bytes[..s.position] == s.bytes[..s.position]
      && t.bytes[s.limit..] == s.bytes[s.limit..]
      && t.Rest() == if direct then s.bytes[t.position..s.limit] else Zeros(t.Room())
  {
    var t, p := AfterRead(direct, s, area), s.position;
    var put := if direct then area else area + Zeros(s.Room() - |area|);
    assert t.bytes == s.bytes[..p] + put + s.bytes[p + |put|..];
    assert t.bytes[p..p + |put|] == put;
    assert t.bytes[p..p + |area|] == put[..|area|] == area;
  }

  // ---------------------------------------------------------------- doWrite

  /** A buffer after doWrite sent r of its bytes: a heap buffer that sent nothing stays at its limit. */
  function AfterWrite(direct: bool, s: Snapshot, r: nat): Snapshot
    requires s.Valid() && r <= s.Room()
  {
    if direct || r > 0 then s.At(s.position + r) else s.At(s.limit)
  }

  /** One round of the first loop of doWrite: a heap buffer is read into a new array, up to its limit. */
  method DescribeForWrite(w: seq<ByteBuffer>, ii: nat) returns (pos: nat, len: nat, arr: seq<byte>)
    requires ii < |w| && Distinct(w) && w[ii].Valid()
    modifies w[ii]
    ensures pos == old(w[ii].position) && len == old(w[ii].State()).Room() && arr == old(w[ii].State()).Rest()
    ensures var s := old(w[ii].State());
      States(w) == old(States(w))[ii := if w[ii].direct then s else s.At(s.limit)]
  {
    var bb := w[ii];
    pos, len := bb.position, bb.limit - bb.position;
    if bb.direct {
      arr := bb.Peek(len);
    } else {
      arr := bb.Get(len);
    }
    assert arr == old(bb.State()).Rest();
    forall j | 0 <= j < |w| && j != ii ensures w[j].State() == old(States(w))[j] {
      assert w[j].State() == old(w[j].State());
    }
    OnlyOneChanged(w, ii, old(States(w)));
  }

  method DescribeAllForWrite(w: seq<ByteBuffer>)
    returns (pos: seq<nat>, len: seq<nat>, vec: seq<seq<byte>>)
    requires Distinct(w) && AllValid(States(w))
    modifies w
    ensures |pos| == |w| && len == Rooms(old(States(w))) && vec == Rests(old(States(w)))
    ensures forall j :: 0 <= j < |w| ==> pos[j] == old(States(w))[j].position
    ensures forall j :: 0 <= j < |w| ==>
      var s := old(States(w))[j]; States(w)[j] == if w[j].direct then s else s.At(s.limit)
  {
    ghost var s := States(w);
    pos, len, vec := [], [], [];
    for ii := 0 to |w|
      invariant |pos| == |len| == |vec| == ii
      invariant forall j :: 0 <= j < ii ==> pos[j] == s[j].position && len[j] == s[j].Room() && vec[j] == s[j].Rest()
      invariant forall j :: 0 <= j < ii ==> States(w)[j] == if w[j].direct then s[j] else s[j].At(s[j].limit)
      invariant forall j :: ii <= j < |w| ==> States(w)[j] == s[j]
    {
      assert w[ii].State() == s[ii];
      var p, l, a := DescribeForWrite(w, ii);
      pos, len, vec := pos + [p], len + [l], vec + [a];
    }
  }

  /** The kernel takes a prefix of each area. */
  method Writev(vec: seq<seq<byte>>, o: WriteOutcome) returns (rc: int, wire: seq<byte>)
    requires o.Accepted? ==> InOrder(Lengths(vec), o.taken)
    ensures rc == if o.Accepted? then Sum(o.taken) else -1
    ensures wire == if o.Accepted? then Flatten(Cut(vec, o.taken)) else []
  {
    wire := [];
    if !o.Accepted? {
      return -1, wire;
    }
    rc := 0;
    ghost var parts := Cut(vec, o.taken);
    for ii := 0 to |vec|
      invariant rc == Sum(o.taken[..ii]) && wire == Flatten(parts[..ii])
    {
      assert o.taken[..ii + 1] == o.taken[..ii] + [o.taken[ii]];
      assert parts[..ii + 1] == parts[..ii] + [parts[ii]];
      SumAppend(o.taken[..ii], o.taken[ii]);
      FlattenAppend(parts[..ii], parts[ii]);
      rc := rc + o.taken[ii];
      wire := wire + vec[ii][..o.taken[ii]];
    }
    assert o.taken[..|vec|] == o.taken && parts[..|vec|] == parts;
  }

  /** What the last loop of doWrite has to do to a buffer in state t: advance it if it gave something. */
  ghost predicate ToAdvance(t: Snapshot, pos: nat, len: nat, part: nat, goal: Snapshot) {
    t.Valid() && pos + len == t.limit && goal == if part == 0 then t else t.At(pos + part)
  }

  ghost predicate AllToAdvance(t: seq<Snapshot>, pos: seq<nat>, len: seq<nat>, parts: seq<nat>, goal: seq<Snapshot>) {
    && |t| == |pos| == |len| == |parts| == |goal|
    && forall j {:trigger ToAdvance(t[j], pos[j], len[j], parts[j], goal[j])} :: 0 <= j < |t| ==>
         ToAdvance(t[j], pos[j], len[j], parts[j], goal[j])
  }

  lemma NothingToAdvance(t: seq<Snapshot>, pos: seq<nat>, len: seq<nat>, parts: seq<nat>, goal: seq<Snapshot>)
    requires AllToAdvance(t, pos, len, parts, goal) && forall j :: 0 <= j < |parts| ==> parts[j] == 0
    ensures t == goal
  {
    forall j | 0 <= j < |t| ensures t[j] == goal[j] {
      assert ToAdvance(t[j], pos[j], len[j], parts[j], goal[j]);
    }
  }

  /** One round of the last loop of doWrite. */
  method AdvanceAfterWrite(w: seq<ByteBuffer>, ii: nat, pos: nat, len: nat, res: nat, ghost goal: Snapshot)
    returns (left: nat)
    requires ii < |w| && Distinct(w) && ToAdvance(States(w)[ii], pos, len, Share(res, len), goal)
    modifies w[ii]
    ensures left == res - Share(res, len)
    ensures States(w) == old(States(w))[ii := goal]
  {
    assert w[ii].State() == States(w)[ii];
    var r: nat;
    if res >= len {
      r := len;
      left := res - len;
    } else {
      r := res;
      left := 0;
    }
    if r != 0 {
      w[ii].SetPosition(pos + r);
    }
    forall j | 0 <= j < |w| && j != ii ensures w[j].State() == old(States(w))[j] {
      assert w[j].State() == old(w[j].State());
    }
    OnlyOneChanged(w, ii, old(States(w)));
  }

  method AdvanceAllAfterWrite(w: seq<ByteBuffer>, pos: seq<nat>, len: seq<nat>, rc: nat, ghost parts: seq<nat>,
                              ghost goal: seq<Snapshot>)
    requires Distinct(w) && parts == Split(len, rc) && AllToAdvance(States(w), pos, len, parts, goal)
    modifies w
    ensures States(w) == goal
  {
    ghost var start := States(w);
    var res := rc;
    for ii := 0 to |w|
      invariant res == FillOrder.Rest(len, rc, ii)
      invariant DoneUpTo(goal, start, ii, States(w))
    {
      LoopIsSplit(len, rc, ii);
      DoneNext(goal, start, ii, States(w));
      assert ToAdvance(start[ii], pos[ii], len[ii], parts[ii], goal[ii]);
      res := AdvanceAfterWrite(w, ii, pos[ii], len[ii], res, goal[ii]);
    }
    AllDone(goal, start, States(w));
  }

  /** What each buffer gives. */
  function Taken(o: WriteOutcome, n: nat): (taken: seq<nat>)
    requires o.Accepted? ==> |o.taken| == n
    ensures |taken| == n
  {
    if o.Accepted? then o.taken else seq(n, _ => 0)
  }

  /** What the buffers are to be after each gave its part. */
  ghost predicate WriteGoal(w: seq<ByteBuffer>, s: seq<Snapshot>, taken: seq<nat>, goal: seq<Snapshot>)
    requires AllValid(s)
  {
    && |w| == |s| == |taken| == |goal|
    && forall j {:trigger goal[j]} :: 0 <= j < |w| ==>
         taken[j] <= s[j].Room() && goal[j] == AfterWrite(w[j].direct, s[j], taken[j])
  }

  /** The states that the last loop of doWrite has to bring about. */
  lemma WriteGoals(w: seq<ByteBuffer>, s: seq<Snapshot>, taken: seq<nat>, t: seq<Snapshot>, pos: seq<nat>)
    returns (goal: seq<Snapshot>)
    requires |s| == |taken| == |t| == |pos| == |w| && AllValid(s) && InOrder(Rooms(s), taken)
    requires forall j :: 0 <= j < |w| ==> pos[j] == s[j].position
    requires forall j :: 0 <= j < |w| ==> t[j] == if w[j].direct then s[j] else s[j].At(s[j].limit)
    ensures WriteGoal(w, s, taken, goal) && AllToAdvance(t, pos, Rooms(s), taken, goal)
  {
    forall j | 0 <= j < |w| ensures taken[j] <= s[j].Room() {
      assert taken[j] <= Rooms(s)[j];
    }
    goal := seq(|w|, j requires 0 <= j < |w| => AfterWrite(w[j].direct, s[j], taken[j]));
    forall j | 0 <= j < |w| ensures ToAdvance(t[j], pos[j], Rooms(s)[j], taken[j], goal[j]) {
    }
  }

  /** The first part of doWrite: the areas, and writev over them. */
  method SendAreas(w: seq<ByteBuffer>, o: WriteOutcome)
    returns (rc: int, wire: seq<byte>, pos: seq<nat>, len: seq<nat>, ghost goal: seq<Snapshot>)
    requires Distinct(w) && AllValid(States(w)) && (o.Accepted? ==> InOrder(Rooms(States(w)), o.taken))
    modifies w
    ensures var s, taken := old(States(w)), Taken(o, |w|);
      && InOrder(Rooms(s), taken) && len == Rooms(s)
      && rc == (if o.Accepted? then Sum(taken) else -1)
      && (!o.Accepted? ==> Sum(taken) == 0)
      && wire == Flatten(Cut(Rests(s), taken))
      && WriteGoal(w, s, taken, goal) && AllToAdvance(States(w), pos, len, taken, goal)
  {
    ghost var s, taken := States(w), Taken(o, |w|);
    var vec;
    pos, len, vec := DescribeAllForWrite(w);
    assert Lengths(vec) == len;
    rc, wire := Writev(vec, o);
    if !o.Accepted? {
      SumZero(taken);
      FlattenEmpty(Cut(vec, taken));
    }
    goal := WriteGoals(w, s, taken, States(w), pos);
  }

  method DoWrite(bba: seq<ByteBuffer>, offset: nat, length: nat, o: WriteOutcome)
    returns (res: Result<nat, IoError>, wire: seq<byte>)
    requires offset + length <= |bba| && length <= MAX_BUFFERS
    requires var w := bba[offset..offset + length];
      && Distinct(w) && AllValid(States(w))
      && (o.Accepted? ==> InOrder(Rooms(States(w)), o.taken))
    modifies bba[offset..offset + length]
    ensures var w, s := bba[offset..offset + length], old(States(bba[offset..offset + length]));
      var taken := if o.Accepted? then o.taken else seq(length, _ => 0);
      && InOrder(Rooms(s), taken)
      && wire == Flatten(Cut(Rests(s), taken))
      && res == (if o.Refused? then Err(IoException) else Ok(Sum(taken)))
      && forall i :: 0 <= i < length ==>
           taken[i] <= s[i].Room() && States(w)[i] == AfterWrite(w[i].direct, s[i], taken[i])
  {
    var w := bba[offset..offset + length];
    ghost var s, taken := States(w), Taken(o, length);
    var rc, pos, len;
    ghost var goal;
    rc, wire, pos, len, goal := SendAreas(w, o);
    if o.TryAgain? {
      rc := 0;
    }
    if rc < 0 {
      NothingToAdvance(States(w), pos, len, taken, goal);
      return Err(IoException), wire;
    }
    InOrderIsSplit(len, taken);
    AdvanceAllAfterWrite(w, pos, len, rc, taken, goal);
    res := Ok(rc);
  }

  /**
   Whatever writev takes, in order, from the buffers: the bytes sent are a prefix of their
   remainders end to end, and each buffer gives its part of the split of the count.
   */
  lemma GatherPrefix(s: seq<Snapshot>, taken: seq<nat>)
    requires AllValid(s) && InOrder(Rooms(s), taken)
    ensures var rc := Sum(taken);
      && rc <= |Flatten(Rests(s))|
      && Lengths(Rests(s)) == Rooms(s)
      && Flatten(Cut(Rests(s), taken)) == Flatten(Rests(s))[..rc]
      && taken == Split(Rooms(s), rc)
  {
    assert Lengths(Rests(s)) == Rooms(s);
    InOrderIsPrefix(Rests(s), taken);
    InOrderIsSplit(Rooms(s), taken);
  }

  /**
   doWrite changes no byte and no limit of a buffer, and advances its position by what it gave,
   exactly unless it is a heap buffer that had something to give and gave nothing: that one is
   left at its limit.
   */
  lemma PositionExactlyWhen(direct: bool, s: Snapshot, r: nat)
    requires s.Valid() && r <= s.Room()
    ensures var t := AfterWrite(direct, s, r);
      && t.Valid() && t.bytes == s.bytes && t.limit == s.limit && t.mark == s.mark
      && (t.position == s.position + r <==> direct || r > 0 || s.Room() == 0)
      && (t.position != s.position + r ==> t.position == s.limit)
  {
  }

  /** A heap buffer with two bytes to send, of which none is taken, is left at its limit. */
  lemma UnsentSkipped()
    ensures AfterWrite(false, Snapshot(0, 2, None, [7, 8]), 0) == Snapshot(2, 2, None, [7, 8])
  {
  }

  /** A heap buffer with room for two bytes, of which one arrives, loses what it held behind it. */
  lemma UnreadCleared()
    ensures AfterRead(false, Snapshot(0, 2, None, [7, 8]), [1]) == Snapshot(1, 2, None, [1, 0])
    ensures AfterRead(true, Snapshot(0, 2, None, [7, 8]), [1]) == Snapshot(1, 2, None, [1, 8])
  {
    assert [1] + Zeros(1) == [1, 0];
  }
}
