/**
 Selecting on Linux: LinuxSerialChannel.java flattens the keys into two arrays of context
 addresses, doSelect of linux/SerialChannel.c overwrites them with readiness flags, and the
 flags are mapped back to the keys.
 */
module LinuxSelect {
  import opened Basics

  const OP_READ: bv32 := 1
  const OP_WRITE: bv32 := 4
  const MAX_SELECTORS: nat := 64

  /**
   What pselect finds: the descriptors that are ready; or a signal, as when the call returns at
   once because of a stored wakeup; or an error.
   */
  datatype Outcome = Selected(readable: set<nat>, writable: set<nat>) | Interrupted | Failed

  datatype SelectError = IoException | IndexOutOfBounds

  /** The descriptor of each context address. */
  type Contexts = map<int, nat>

  // ---------------------------------------------------------------- the native call

  /** What pselect leaves of a descriptor set: it looks at descriptors below nfds only. */
  function Pselect(nfds: nat, fds: set<nat>, ready: set<nat>): set<nat> {
    set x | x in fds && x < nfds && x in ready
  }

  function FdsOf(ctx: Contexts, addresses: seq<int>): set<nat>
    requires forall i :: 0 <= i < |addresses| ==> addresses[i] in ctx
  {
    set i | 0 <= i < |addresses| :: ctx[addresses[i]]
  }

  /** FD_ISSET for each address. */
  function Flags(ctx: Contexts, addresses: seq<int>, ready: set<nat>): (flags: seq<int>)
    requires forall i :: 0 <= i < |addresses| ==> addresses[i] in ctx
    ensures |flags| == |addresses|
    ensures forall i :: 0 <= i < |addresses| ==> flags[i] == if ctx[addresses[i]] in ready then 1 else 0
  {
    seq(|addresses|, i requires 0 <= i < |addresses| => if ctx[addresses[i]] in ready then 1 else 0)
  }

  /** The loop that fills a descriptor set and keeps track of the highest descriptor. */
  method FillSet(ctx: Contexts, arr: array<int>, count: nat, high: nat) returns (fds: set<nat>, nfds: nat)
    requires count <= arr.Length && forall i :: 0 <= i < count ==> arr[i] in ctx
    ensures fds == FdsOf(ctx, arr[..count])
    ensures high <= nfds && forall x :: x in fds ==> x <= nfds
  {
    fds, nfds := {}, high;
    for ii := 0 to count
      invariant fds == FdsOf(ctx, arr[..ii])
      invariant high <= nfds && forall x :: x in fds ==> x <= nfds
    {
      var fd := ctx[arr[ii]];
      fds := fds + {fd};
      nfds := Max(nfds, fd);
      assert arr[..ii + 1] == arr[..ii] + [arr[ii]];
      assert fds == FdsOf(ctx, arr[..ii + 1]) by {
        forall x | x in FdsOf(ctx, arr[..ii + 1]) ensures x in fds {
          var i :| 0 <= i < ii + 1 && x == ctx[arr[..ii + 1][i]];
          assert i < ii ==> ctx[arr[..ii][i]] in FdsOf(ctx, arr[..ii]);
        }
        forall x | x in fds ensures x in FdsOf(ctx, arr[..ii + 1]) {
          if x == fd {
            assert arr[..ii + 1][ii] == arr[ii];
          } else {
            var i :| 0 <= i < ii && x == ctx[arr[..ii][i]];
            assert arr[..ii + 1][i] == arr[..ii][i];
          }
        }
      }
    }
  }

  /** The loop that overwrites the addresses with flags. */
  method StoreFlags(ctx: Contexts, arr: array<int>, count: nat, fds: set<nat>)
    requires count <= arr.Length && forall i :: 0 <= i < count ==> arr[i] in ctx
    modifies arr
    ensures arr[..count] == Flags(ctx, old(arr[..count]), fds)
    ensures arr[count..] == old(arr[count..])
  {
    for ii := 0 to count
      invariant forall j :: 0 <= j < ii ==> arr[j] == if ctx[old(arr[j])] in fds then 1 else 0
      invariant forall j :: ii <= j < arr.Length ==> arr[j] == old(arr[j])
    {
      arr[ii] := if ctx[arr[ii]] in fds then 1 else 0;
    }
  }

  /** With nfds above all descriptors, pselect overlooks none. */
  lemma PselectSeesAll(nfds: nat, fds: set<nat>, ready: set<nat>)
    requires forall x :: x in fds ==> x < nfds
    ensures Pselect(nfds, fds, ready) == fds * ready
  {
  }

  /** pselect's work on one descriptor set, and the flags made from it; n is the number of ready descriptors. */
  method ReportReady(ctx: Contexts, arr: array<int>, count: nat, nfds: nat, fds: set<nat>, ready: set<nat>)
    returns (n: nat)
    requires count <= arr.Length && forall i :: 0 <= i < count ==> arr[i] in ctx
    requires fds == FdsOf(ctx, arr[..count]) && forall x :: x in fds ==> x < nfds
    modifies arr
    ensures n == |FdsOf(ctx, old(arr[..count])) * ready|
    ensures arr[..count] == Flags(ctx, old(arr[..count]), ready) && arr[count..] == old(arr[count..])
  {
    var left := Pselect(nfds, fds, ready);
    PselectSeesAll(nfds, fds, ready);
    n := |left|;
    StoreFlags(ctx, arr, count, left);
  }

  /** doSelect from its call of pselect on: rc is the number of ready descriptors, read and write. */
  method NativeSelect(ctx: Contexts, readCount: nat, writeCount: nat, readArr: array<int>, writeArr: array<int>,
                      o: Outcome)
    returns (rc: Result<nat, SelectError>)
    requires readArr != writeArr && readCount <= readArr.Length && writeCount <= writeArr.Length
    requires forall i :: 0 <= i < readCount ==> readArr[i] in ctx
    requires forall i :: 0 <= i < writeCount ==> writeArr[i] in ctx
    modifies readArr, writeArr
    ensures if o.Failed? then rc == Err(IoException) else rc.Ok?
    ensures o.Interrupted? ==> rc == Ok(0)
    ensures !o.Selected? ==> readArr[..] == old(readArr[..]) && writeArr[..] == old(writeArr[..])
    ensures o.Selected? ==>
      && rc == Ok(|FdsOf(ctx, old(readArr[..readCount])) * o.readable| + |FdsOf(ctx,
          old(writeArr[..writeCount])) * o.writable|)
      && readArr[..readCount] == Flags(ctx, old(readArr[..readCount]), o.readable)
      && writeArr[..writeCount] == Flags(ctx, old(writeArr[..writeCount]), o.writable)
      && readArr[readCount..] == old(readArr[readCount..]) && writeArr[writeCount..] == old(writeArr[writeCount..])
  {
    var readfds, nfds := FillSet(ctx, readArr, readCount, 0);
    var writefds;
    writefds, nfds := FillSet(ctx, writeArr, writeCount, nfds);
    match o {
      case Failed => rc := Err(IoException);
      case Interrupted => rc := Ok(0);
      case Selected(readable, writable) =>
        var r := ReportReady(ctx, readArr, readCount, nfds + 1, readfds, readable);
        var w := ReportReady(ctx, writeArr, writeCount, nfds + 1, writefds, writable);
        rc := Ok(r + w);
    }
  }

  // ---------------------------------------------------------------- keys

  class SelectionKey {
    const address: int          // of the channel's context
    var interestOps: bv32
    var readyOps: bv32

    constructor (address: int, interestOps: bv32)
      ensures this.address == address && this.interestOps == interestOps && readyOps == 0
    {
      this.address, this.interestOps, readyOps := address, interestOps, 0;
    }
  }

  /** A set of keys that the selector hands out, and doSelect adds to. */
  class KeySet {
    var keys: set<SelectionKey>

    constructor ()
      ensures keys == {}
    {
      keys := {};
    }
  }

  /** What the two walks read of a key. */
  datatype KeyInfo = KeyInfo(address: int, interest: bv32)

  ghost function Infos(keys: seq<SelectionKey>): (infos: seq<KeyInfo>)
    reads keys
    ensures |infos| == |keys|
    ensures forall i :: 0 <= i < |keys| ==> infos[i] == KeyInfo(keys[i].address, keys[i].interestOps)
  {
    seq(|keys|, i requires 0 <= i < |keys| reads keys => KeyInfo(keys[i].address, keys[i].interestOps))
  }

  ghost predicate Distinct(keys: seq<SelectionKey>) {
    forall i, j :: 0 <= i < j < |keys| ==> keys[i] != keys[j]
  }

  predicate Wants(k: KeyInfo, op: bv32) {
    k.interest & op != 0
  }

  /** The addresses of the keys interested in op, in order: what the first walk stores. */
  function Interested(infos: seq<KeyInfo>, op: bv32): seq<int> {
    if |infos| == 0 then []
    else
      var k := infos[|infos| - 1];
      Interested(infos[..|infos| - 1], op) + if Wants(k, op) then [k.address] else []
  }

  /** The kernel-ready operations of a key's own channel. */
  function ReadyOf(ctx: Contexts, address: int, o: Outcome): bv32
    requires address in ctx
  {
    if !o.Selected? then 0
    else (if ctx[address] in o.readable then OP_READ else 0) | (if ctx[address] in o.writable then OP_WRITE else 0)
  }

  /** What the second walk computes for a key: its interest, restricted to what is ready. */
  function ReadyOps(ctx: Contexts, k: KeyInfo, o: Outcome): bv32
    requires k.address in ctx
  {
    k.interest & ReadyOf(ctx, k.address, o)
  }

  lemma {:induction false} InterestedGrows(infos: seq<KeyInfo>, op: bv32, i: nat)
    requires i <= |infos|
    ensures |Interested(infos[..i], op)| <= |Interested(infos, op)|
    ensures Interested(infos[..i], op) == Interested(infos, op)[..|Interested(infos[..i], op)|]
    decreases |infos|
  {
    if i == |infos| {
      assert infos[..i] == infos;
    } else {
      InterestedGrows(infos[..|infos| - 1], op, i);
      assert infos[..|infos| - 1][..i] == infos[..i];
    }
  }

  /**
   The compressed index of a key: the number of interested keys before it.  That is where the
   first walk stored its address, and where the second walk looks for its flag.
   */
  lemma IndexLinesUp(infos: seq<KeyInfo>, op: bv32, i: nat)
    requires i < |infos| && Wants(infos[i], op)
    ensures var index := |Interested(infos[..i], op)|;
      && index < |Interested(infos, op)|
      && Interested(infos, op)[index] == infos[i].address
      && |Interested(infos[..i + 1], op)| == index + 1
  {
    InterestedGrows(infos, op, i + 1);
    assert infos[..i + 1][..i] == infos[..i];
  }

  ghost function Wanting(infos: seq<KeyInfo>, op: bv32): set<nat> {
    set i | 0 <= i < |infos| && Wants(infos[i], op)
  }

  /** Nothing but the interested keys is stored: there are as many addresses as keys. */
  lemma {:induction false} InterestedCount(infos: seq<KeyInfo>, op: bv32)
    ensures |Interested(infos, op)| == |Wanting(infos, op)|
  {
    if |infos| > 0 {
      var n := |infos| - 1;
      InterestedCount(infos[..n], op);
      if Wants(infos[n], op) {
        assert Wanting(infos, op) == Wanting(infos[..n], op) + {n};
      } else {
        assert Wanting(infos, op) == Wanting(infos[..n], op);
      }
    }
  }

  lemma {:induction false} InterestedKnown(ctx: Contexts, infos: seq<KeyInfo>, op: bv32)
    requires forall i :: 0 <= i < |infos| ==> infos[i].address in ctx
    ensures forall i :: 0 <= i < |Interested(infos, op)| ==> Interested(infos, op)[i] in ctx
  {
    if |infos| > 0 {
      InterestedKnown(ctx, infos[..|infos| - 1], op);
    }
  }

  /** Putting the two flags together gives the intersection. */
  lemma FlagsMakeOps(interest: bv32, readable: bool, writable: bool)
    ensures (if interest & OP_READ != 0 && readable then OP_READ else 0) |
            (if interest & OP_WRITE != 0 && writable then OP_WRITE else 0)
            == interest & ((if readable then OP_READ else 0) | (if writable then OP_WRITE else 0))
  {
  }

  // ---------------------------------------------------------------- the first walk

  /**
   Stores the address of a key that is interested in op at the next free place; false stands for
   the IndexOutOfBoundsException of a full array.
   */
  method StoreIfWanted(arr: array<int>, index: nat, sk: SelectionKey, op: bv32) returns (ok: bool, next: nat)
    requires index <= arr.Length
    modifies arr
    ensures var added := if sk.interestOps & op != 0 then [sk.address] else [];
      && (ok <==> index + |added| <= arr.Length)
      && (ok ==> next == index + |added| && arr[..next] == old(arr[..index]) + added)
  {
    ok, next := true, index;
    if sk.interestOps & op != 0 {
      if index == arr.Length {
        return false, next;
      }
      arr[index] := sk.address;
      next := index + 1;
    }
  }

  /** What the first walk has stored of one operation. */
  ghost predicate StoredUpTo(infos: seq<KeyInfo>, op: bv32, i: nat, arr: array<int>, index: nat)
    requires i <= |infos|
    reads arr
  {
    index <= arr.Length && arr[..index] == Interested(infos[..i], op)
  }

  lemma StoredNext(infos: seq<KeyInfo>, op: bv32, i: nat)
    requires i < |infos|
    ensures Interested(infos[..i + 1], op) ==
            Interested(infos[..i], op) + if Wants(infos[i], op) then [infos[i].address] else []
    ensures |Interested(infos[..i + 1], op)| <= |Interested(infos, op)|
  {
    assert infos[..i + 1][..i] == infos[..i] && infos[..i + 1][i] == infos[i];
    InterestedGrows(infos, op, i + 1);
  }

  /** The first walk at one key. */
  method StoreKey(keys: seq<SelectionKey>, ii: nat, readArr: array<int>, writeArr: array<int>, readIndex: nat,
                  writeIndex: nat)
    returns (ok: bool, nextRead: nat, nextWrite: nat)
    requires ii < |keys| && readArr != writeArr
    requires StoredUpTo(Infos(keys), OP_READ, ii, readArr, readIndex)
    requires StoredUpTo(Infos(keys), OP_WRITE, ii, writeArr, writeIndex)
    modifies readArr, writeArr
    ensures var infos := Infos(keys);
      if ok then
        && StoredUpTo(infos, OP_READ, ii + 1, readArr, nextRead)
        && StoredUpTo(infos, OP_WRITE, ii + 1, writeArr, nextWrite)
      else |Interested(infos, OP_READ)| > readArr.Length || |Interested(infos, OP_WRITE)| > writeArr.Length
  {
    StoredNext(Infos(keys), OP_READ, ii);
    StoredNext(Infos(keys), OP_WRITE, ii);
    nextWrite := writeIndex;
    ok, nextRead := StoreIfWanted(readArr, readIndex, keys[ii], OP_READ);
    if ok {
      ok, nextWrite := StoreIfWanted(writeArr, writeIndex, keys[ii], OP_WRITE);
    }
  }

  /** The first walk: fails exactly if more keys are interested in an operation than its array holds. */
  method StoreAddresses(keys: seq<SelectionKey>, readArr: array<int>, writeArr: array<int>)
    returns (ok: bool, readIndex: nat, writeIndex: nat)
    requires readArr != writeArr
    modifies readArr, writeArr
    ensures var infos := Infos(keys);
      && (ok <==> |Interested(infos, OP_READ)| <= readArr.Length && |Interested(infos, OP_WRITE)| <= writeArr.Length)
      && (ok ==> readIndex <= readArr.Length && readArr[..readIndex] == Interested(infos, OP_READ))
      && (ok ==> writeIndex <= writeArr.Length && writeArr[..writeIndex] == Interested(infos, OP_WRITE))
  {
    readIndex, writeIndex := 0, 0;
    ghost var infos := Infos(keys);
    for ii := 0 to |keys|
      invariant StoredUpTo(infos, OP_READ, ii, readArr, readIndex)
      invariant StoredUpTo(infos, OP_WRITE, ii, writeArr, writeIndex)
    {
      ok, readIndex, writeIndex := StoreKey(keys, ii, readArr, writeArr, readIndex, writeIndex);
      if !ok {
        return;
      }
    }
    assert infos[..|keys|] == infos;
    ok := true;
  }

  // ---------------------------------------------------------------- the second walk

  /** What a select may change of a key. */
  datatype KeyState = KeyState(readyOps: bv32, selected: bool)

  ghost function KeyStates(keys: seq<SelectionKey>, sel: KeySet): (states: seq<KeyState>)
    reads keys, sel
    ensures |states| == |keys|
    ensures forall i :: 0 <= i < |keys| ==> states[i] == KeyState(keys[i].readyOps, keys[i] in sel.keys)
  {
    seq(|keys|, i requires 0 <= i < |keys| reads keys, sel => KeyState(keys[i].readyOps, keys[i] in sel.keys))
  }

  /** A key with ready operations becomes selected with just these; a key without keeps its state. */
  function Deliver(st: KeyState, readyOps: bv32): KeyState {
    if readyOps == 0 then st else KeyState(readyOps, true)
  }

  /** The number of keys that differ. */
  ghost function Changes(before: seq<KeyState>, after: seq<KeyState>): nat
    requires |before| == |after|
  {
    |set i | 0 <= i < |before| && after[i] != before[i]|
  }

  lemma ChangeOne(before: seq<KeyState>, after: seq<KeyState>, i: nat, st: KeyState)
    requires |before| == |after| && i < |after| && after[i] == before[i]
    ensures Changes(before, after[i := st]) == Changes(before, after) + if st == before[i] then 0 else 1
  {
    var changed := set j | 0 <= j < |before| && after[j] != before[j];
    var now := set j | 0 <= j < |before| && after[i := st][j] != before[j];
    if st == before[i] {
      assert after[i := st] == after;
    } else {
      assert now == changed + {i};
    }
  }

  /** The part of the second walk that updates a key and the selected set; true if it counts the key. */
  method UpdateKey(ghost keys: seq<SelectionKey>, ghost ii: nat, ssk: SelectionKey, sel: KeySet, readyOps: bv32)
    returns (updated: bool)
    requires ii < |keys| && Distinct(keys) && ssk == keys[ii]
    modifies ssk`readyOps, sel
    ensures KeyStates(keys, sel) == old(KeyStates(keys, sel))[ii := Deliver(old(KeyStates(keys, sel))[ii], readyOps)]
    ensures updated <==> Deliver(old(KeyStates(keys, sel))[ii], readyOps) != old(KeyStates(keys, sel))[ii]
    ensures sel.keys == old(sel.keys) + if readyOps == 0 then {} else {keys[ii]}
  {
    updated := false;
    if readyOps != 0 {
      if ssk in sel.keys {
        if ssk.readyOps != readyOps {
          updated := true;
          ssk.readyOps := readyOps;
        }
      } else {
        updated := true;
        ssk.readyOps := readyOps;
        sel.keys := sel.keys + {ssk};
      }
    }
    assert forall j :: 0 <= j < |keys| && j != ii ==>
      KeyState(keys[j].readyOps, keys[j] in sel.keys) == old(KeyState(keys[j].readyOps, keys[j] in sel.keys));
  }

  /** The array holds the flags of the interested keys, and index is the place of the next one. */
  ghost predicate FlagsFrom(ctx: Contexts, infos: seq<KeyInfo>, op: bv32, i: nat, arr: seq<int>, ready: set<nat>,
                            index: nat)
    requires i <= |infos|
  {
    && (forall k :: 0 <= k < |infos| ==> infos[k].address in ctx)
    && index == |Interested(infos[..i], op)|
    && |Interested(infos, op)| <= |arr|
    && (forall k :: 0 <= k < |Interested(infos, op)| ==> Interested(infos, op)[k] in ctx)
    && arr[..|Interested(infos, op)|] == Flags(ctx, Interested(infos, op), ready)
  }

  /** Takes the next flag of the array for a key that is interested in op; bits is op if the flag is set. */
  method FlagIfWanted(ctx: Contexts, arr: array<int>, index: nat, sk: SelectionKey, op: bv32, ghost infos: seq<KeyInfo>,
                      ghost i: nat, ghost ready: set<nat>)
    returns (bits: bv32, next: nat)
    requires i < |infos| && infos[i] == KeyInfo(sk.address, sk.interestOps)
    requires FlagsFrom(ctx, infos, op, i, arr[..], ready, index)
    ensures bits == if Wants(infos[i], op) && ctx[sk.address] in ready then op else 0
    ensures FlagsFrom(ctx, infos, op, i + 1, arr[..], ready, next)
  {
    FlagOfKey(ctx, infos, op, i, arr[..], ready, index);
    bits, next := 0, index;
    if Wants(KeyInfo(sk.address, sk.interestOps), op) {
      if arr[index] != 0 {
        bits := op;
      }
      next := index + 1;
    }
  }

  /** The flag that the second walk comes to is that of the key's own channel. */
  lemma FlagOfKey(ctx: Contexts, infos: seq<KeyInfo>, op: bv32, i: nat, arr: seq<int>, ready: set<nat>, index: nat)
    requires i < |infos| && FlagsFrom(ctx, infos, op, i, arr, ready, index)
    ensures if Wants(infos[i], op) then
              && index < |arr| && (arr[index] != 0 <==> ctx[infos[i].address] in ready)
              && FlagsFrom(ctx, infos, op, i + 1, arr, ready, index + 1)
            else FlagsFrom(ctx, infos, op, i + 1, arr, ready, index)
  {
    StoredNext(infos, op, i);
    if Wants(infos[i], op) {
      IndexLinesUp(infos, op, i);
      assert arr[index] == arr[..|Interested(infos, op)|][index];
    }
  }

  /** Both arrays hold the flags of outcome o. */
  ghost predicate AllFlagsFrom(ctx: Contexts, infos: seq<KeyInfo>, o: Outcome, i: nat, readArr: seq<int>,
                               readIndex: nat,
                               writeArr: seq<int>, writeIndex: nat)
    requires i <= |infos|
  {
    && o.Selected?
    && FlagsFrom(ctx, infos, OP_READ, i, readArr, o.readable, readIndex)
    && FlagsFrom(ctx, infos, OP_WRITE, i, writeArr, o.writable, writeIndex)
  }

  /** The part of the second walk that finds the ready operations of a key. */
  method OpsOfKey(ctx: Contexts, readArr: array<int>, readIndex: nat, writeArr: array<int>, writeIndex: nat,
                  sk: SelectionKey, ghost infos: seq<KeyInfo>, ghost i: nat, ghost o: Outcome)
    returns (readyOps: bv32, nextRead: nat, nextWrite: nat)
    requires i < |infos| && infos[i] == KeyInfo(sk.address, sk.interestOps)
    requires AllFlagsFrom(ctx, infos, o, i, readArr[..], readIndex, writeArr[..], writeIndex)
    ensures infos[i].address in ctx && readyOps == ReadyOps(ctx, infos[i], o)
    ensures AllFlagsFrom(ctx, infos, o, i + 1, readArr[..], nextRead, writeArr[..], nextWrite)
  {
    var r, w;
    r, nextRead := FlagIfWanted(ctx, readArr, readIndex, sk, OP_READ, infos, i, o.readable);
    w, nextWrite := FlagIfWanted(ctx, writeArr, writeIndex, sk, OP_WRITE, infos, i, o.writable);
    readyOps := r | w;
    FlagsMakeOps(sk.interestOps, ctx[sk.address] in o.readable, ctx[sk.address] in o.writable);
  }

  /** The state of the second walk after i keys. */
  ghost predicate UpdatedUpTo(before: seq<KeyState>, goal: seq<KeyState>, now: seq<KeyState>, i: nat) {
    && |before| == |goal| == |now|
    && (forall j :: 0 <= j < i && j < |now| ==> now[j] == goal[j])
    && (forall j :: i <= j < |now| ==> now[j] == before[j])
  }

  lemma UpdatedNext(before: seq<KeyState>, goal: seq<KeyState>, now: seq<KeyState>, i: nat)
    requires UpdatedUpTo(before, goal, now, i) && i < |now|
    ensures UpdatedUpTo(before, goal, now[i := goal[i]], i + 1)
    ensures Changes(before, now[i := goal[i]]) == Changes(before, now) + if goal[i] == before[i] then 0 else 1
  {
    ChangeOne(before, now, i, goal[i]);
  }

  /** The states that a select with outcome o leaves. */
  ghost function Delivered(ctx: Contexts, infos: seq<KeyInfo>, o: Outcome,
                           before: seq<KeyState>): (after: seq<KeyState>)
    requires |before| == |infos| && forall i :: 0 <= i < |infos| ==> infos[i].address in ctx
    ensures |after| == |infos|
    ensures forall i :: 0 <= i < |infos| ==> after[i] == Deliver(before[i], ReadyOps(ctx, infos[i], o))
  {
    seq(|infos|, i requires 0 <= i < |infos| => Deliver(before[i], ReadyOps(ctx, infos[i], o)))
  }

  /** One round of the second walk. */
  method UpdateRound(keys: seq<SelectionKey>, ii: nat, sel: KeySet, readArr: array<int>, readIndex: nat,
                     writeArr: array<int>, writeIndex: nat, ctx: Contexts, ghost o: Outcome, ghost infos: seq<KeyInfo>,
                     ghost before: seq<KeyState>, ghost goal: seq<KeyState>)
    returns (updated: bool, nextRead: nat, nextWrite: nat)
    requires Distinct(keys) && ii < |keys| == |before| == |infos|
    requires infos[ii] == KeyInfo(keys[ii].address, keys[ii].interestOps)
    requires AllFlagsFrom(ctx, infos, o, ii, readArr[..], readIndex, writeArr[..], writeIndex)
    requires goal == Delivered(ctx, infos, o, before) && UpdatedUpTo(before, goal, KeyStates(keys, sel), ii)
    modifies keys`readyOps, sel
    ensures AllFlagsFrom(ctx, infos, o, ii + 1, readArr[..], nextRead, writeArr[..], nextWrite)
    ensures UpdatedUpTo(before, goal, KeyStates(keys, sel), ii + 1)
    ensures Changes(before, KeyStates(keys, sel)) ==
        old(Changes(before, KeyStates(keys, sel))) + if updated then 1 else 0
    ensures old(sel.keys) <= sel.keys <= old(sel.keys) + {keys[ii]}
  {
    var readyOps;
    readyOps, nextRead, nextWrite :=
      OpsOfKey(ctx, readArr, readIndex, writeArr, writeIndex, keys[ii], infos, ii, o);
    UpdatedNext(before, goal, KeyStates(keys, sel), ii);
    updated := UpdateKey(keys, ii, keys[ii], sel, readyOps);
  }

  method UpdateKeys(keys: seq<SelectionKey>, sel: KeySet, readArr: array<int>, writeArr: array<int>, ctx: Contexts,
                    ghost o: Outcome)
    returns (updated: nat)
    requires Distinct(keys)
    requires AllFlagsFrom(ctx, Infos(keys), o, 0, readArr[..], 0, writeArr[..], 0)
    modifies keys`readyOps, sel
    ensures KeyStates(keys, sel) == Delivered(ctx, Infos(keys), o, old(KeyStates(keys, sel)))
    ensures updated == Changes(old(KeyStates(keys, sel)), KeyStates(keys, sel))
    ensures forall k :: k in sel.keys ==> k in old(sel.keys) || k in keys
    ensures old(sel.keys) <= sel.keys
  {
    var readIndex, writeIndex := 0, 0;
    ghost var infos, before := Infos(keys), KeyStates(keys, sel);
    ghost var goal := Delivered(ctx, infos, o, before);
    updated := 0;
    for ii := 0 to |keys|
      invariant AllFlagsFrom(ctx, infos, o, ii, readArr[..], readIndex, writeArr[..], writeIndex)
      invariant UpdatedUpTo(before, goal, KeyStates(keys, sel), ii)
      invariant updated == Changes(before, KeyStates(keys, sel))
      invariant old(sel.keys) <= sel.keys && forall k :: k in sel.keys ==> k in old(sel.keys) || k in keys
    {
      var counts;
      counts, readIndex, writeIndex :=
        UpdateRound(keys, ii, sel, readArr, readIndex, writeArr, writeIndex, ctx, o, infos, before, goal);
      if counts {
        updated := updated + 1;
      }
    }
    assert KeyStates(keys, sel) == goal;
  }

  // ---------------------------------------------------------------- the whole select

  /** A channel that is ready for an operation it is selected for is among the ready requested ones. */
  lemma ReadyIsCounted(ctx: Contexts, infos: seq<KeyInfo>, op: bv32, i: nat, ready: set<nat>)
    requires i < |infos| && infos[i].address in ctx && Wants(infos[i], op) && ctx[infos[i].address] in ready
    requires forall i :: 0 <= i < |Interested(infos, op)| ==> Interested(infos, op)[i] in ctx
    ensures ctx[infos[i].address] in FdsOf(ctx, Interested(infos, op)) * ready
  {
    IndexLinesUp(infos, op, i);
  }

  /** When no requested descriptor is ready, no key has ready operations: skipping the second walk is harmless. */
  lemma NothingReady(ctx: Contexts, infos: seq<KeyInfo>, o: Outcome)
    requires forall i :: 0 <= i < |infos| ==> infos[i].address in ctx
    requires forall i :: 0 <= i < |Interested(infos, OP_READ)| ==> Interested(infos, OP_READ)[i] in ctx
    requires forall i :: 0 <= i < |Interested(infos, OP_WRITE)| ==> Interested(infos, OP_WRITE)[i] in ctx
    requires o.Selected? ==> FdsOf(ctx, Interested(infos, OP_READ)) * o.readable == {}
    requires o.Selected? ==> FdsOf(ctx, Interested(infos, OP_WRITE)) * o.writable == {}
    ensures forall i :: 0 <= i < |infos| ==> ReadyOps(ctx, infos[i], o) == 0
  {
    if o.Selected? {
      forall i | 0 <= i < |infos| && Wants(infos[i], OP_READ) && ctx[infos[i].address] in o.readable
        ensures ctx[infos[i].address] in FdsOf(ctx, Interested(infos, OP_READ)) * o.readable
      {
        ReadyIsCounted(ctx, infos, OP_READ, i, o.readable);
      }
      forall i | 0 <= i < |infos| && Wants(infos[i], OP_WRITE) && ctx[infos[i].address] in o.writable
        ensures ctx[infos[i].address] in FdsOf(ctx, Interested(infos, OP_WRITE)) * o.writable
      {
        ReadyIsCounted(ctx, infos, OP_WRITE, i, o.writable);
      }
      forall i | 0 <= i < |infos| ensures ReadyOps(ctx, infos[i], o) == 0 {
        FlagsMakeOps(infos[i].interest, ctx[infos[i].address] in o.readable, ctx[infos[i].address] in o.writable);
      }
    }
  }

  lemma NoChanges(before: seq<KeyState>)
    ensures Changes(before, before) == 0
  {
    assert (set i | 0 <= i < |before| && before[i] != before[i]) == {};
  }

  lemma FlagsBegin(ctx: Contexts, infos: seq<KeyInfo>, op: bv32, arr: seq<int>, count: nat, ready: set<nat>)
    requires forall k :: 0 <= k < |infos| ==> infos[k].address in ctx
    requires count == |Interested(infos, op)| <= |arr|
    requires forall k :: 0 <= k < count ==> Interested(infos, op)[k] in ctx
    requires arr[..count] == Flags(ctx, Interested(infos, op), ready)
    ensures FlagsFrom(ctx, infos, op, 0, arr, ready, 0)
  {
  }

  /** More keys are interested in an operation than its array holds. */
  predicate TooMany(infos: seq<KeyInfo>) {
    |Interested(infos, OP_READ)| > MAX_SELECTORS || |Interested(infos, OP_WRITE)| > MAX_SELECTORS
  }

  /** The first walk and the native call: what the second walk finds, if there is anything to find. */
  method SelectNatively(keys: seq<SelectionKey>, readArr: array<int>, writeArr: array<int>, ctx: Contexts, o: Outcome,
                        ghost infos: seq<KeyInfo>)
    returns (rc: Result<nat, SelectError>)
    requires readArr != writeArr && readArr.Length == writeArr.Length == MAX_SELECTORS
    requires infos == Infos(keys) && forall k :: 0 <= k < |infos| ==> infos[k].address in ctx
    modifies readArr, writeArr
    ensures rc.Err? <==> o.Failed? || TooMany(infos)
    ensures rc.Err? ==> rc.error == if TooMany(infos) then IndexOutOfBounds else IoException
    ensures rc == Ok(0) ==> forall i :: 0 <= i < |keys| ==> ReadyOps(ctx, infos[i], o) == 0
    ensures rc.Ok? && rc.value != 0 ==> AllFlagsFrom(ctx, infos, o, 0, readArr[..], 0, writeArr[..], 0)
  {
    var ok, readIndex, writeIndex := StoreAddresses(keys, readArr, writeArr);
    if !ok {
      return Err(IndexOutOfBounds);
    }
    InterestedKnown(ctx, infos, OP_READ);
    InterestedKnown(ctx, infos, OP_WRITE);
    forall i | 0 <= i < readIndex ensures readArr[i] in ctx {
      assert readArr[i] == readArr[..readIndex][i];
    }
    forall i | 0 <= i < writeIndex ensures writeArr[i] in ctx {
      assert writeArr[i] == writeArr[..writeIndex][i];
    }
    rc := NativeSelect(ctx, readIndex, writeIndex, readArr, writeArr, o);
    if rc == Ok(0) {
      NothingReady(ctx, infos, o);
    } else if rc.Ok? {
      FlagsBegin(ctx, infos, OP_READ, readArr[..], readIndex, o.readable);
      FlagsBegin(ctx, infos, OP_WRITE, writeArr[..], writeIndex, o.writable);
    }
  }

  /** doSelect of LinuxSerialChannel.java. */
  method DoSelect(keys: seq<SelectionKey>, sel: KeySet, readArr: array<int>, writeArr: array<int>, ctx: Contexts,
                  o: Outcome)
    returns (r: Result<nat, SelectError>)
    requires Distinct(keys) && readArr != writeArr && readArr.Length == writeArr.Length == MAX_SELECTORS
    requires forall k :: k in keys ==> k.address in ctx
    modifies keys`readyOps, sel, readArr, writeArr
    ensures var infos := old(Infos(keys));
      r == (if TooMany(infos) then Err(IndexOutOfBounds)
            else if o.Failed? then Err(IoException)
            else Ok(Changes(old(KeyStates(keys, sel)), KeyStates(keys, sel))))
    ensures o.Interrupted? && r.Ok? ==> r == Ok(0) && KeyStates(keys, sel) == old(KeyStates(keys, sel))
    ensures KeyStates(keys, sel) ==
      if r.Err? then old(KeyStates(keys, sel)) else Delivered(ctx, old(Infos(keys)), o, old(KeyStates(keys, sel)))
    ensures old(sel.keys) <= sel.keys && forall k :: k in sel.keys ==> k in old(sel.keys) || k in keys
  {
    ghost var infos, before := Infos(keys), KeyStates(keys, sel);
    NoChanges(before);
    var rc := SelectNatively(keys, readArr, writeArr, ctx, o, infos);
    if rc.Err? {
      return rc;
    }
    var updated := 0;
    if rc.value != 0 {
      updated := UpdateKeys(keys, sel, readArr, writeArr, ctx, o);
    } else {
      assert Delivered(ctx, infos, o, before) == before;
    }
    r := Ok(updated);
  }

  // ---------------------------------------------------------------- what a select promises

  /**
   The count is the change count: it counts the keys that were newly added to the selected
   set or given other ready operations; a key that is not ready is left alone.
   */
  lemma CountsChanges(ctx: Contexts, infos: seq<KeyInfo>, o: Outcome, before: seq<KeyState>)
    requires |before| == |infos| && forall i :: 0 <= i < |infos| ==> infos[i].address in ctx
    ensures var after := Delivered(ctx, infos, o, before);
      && Changes(before, after) ==
           |set i | 0 <= i < |infos| && ReadyOps(ctx, infos[i], o) != 0 &&
                    (!before[i].selected || before[i].readyOps != ReadyOps(ctx, infos[i], o))|
      && forall i :: 0 <= i < |infos| ==>
           && (ReadyOps(ctx, infos[i], o) == 0 ==> after[i] == before[i])
           && (ReadyOps(ctx, infos[i], o) != 0 ==> after[i] == KeyState(ReadyOps(ctx, infos[i], o), true))
  {
    var after := Delivered(ctx, infos, o, before);
    var left := set i | 0 <= i < |before| && after[i] != before[i];
    var right := set i | 0 <= i < |infos| && ReadyOps(ctx, infos[i], o) != 0 &&
                         (!before[i].selected || before[i].readyOps != ReadyOps(ctx, infos[i], o));
    assert left == right;
  }

  /** Selecting again, with the same readiness and nothing cleared, changes nothing and counts 0. */
  lemma Idempotent(ctx: Contexts, infos: seq<KeyInfo>, o: Outcome, before: seq<KeyState>)
    requires |before| == |infos| && forall i :: 0 <= i < |infos| ==> infos[i].address in ctx
    ensures var once := Delivered(ctx, infos, o, before);
      Delivered(ctx, infos, o, once) == once && Changes(once, Delivered(ctx, infos, o, once)) == 0
  {
    var once := Delivered(ctx, infos, o, before);
    assert Delivered(ctx, infos, o, once) == once;
    NoChanges(once);
  }

  /**
   The round trip of a key: with interest in reading and writing only, it is ready to read
   exactly when it wants to and its own descriptor is readable, and likewise for writing.
   */
  lemma ReadyExactly(ctx: Contexts, k: KeyInfo, o: Outcome)
    requires k.address in ctx && o.Selected?
    ensures ReadyOps(ctx, k, o) & OP_READ != 0 <==> Wants(k, OP_READ) && ctx[k.address] in o.readable
    ensures ReadyOps(ctx, k, o) & OP_WRITE != 0 <==> Wants(k, OP_WRITE) && ctx[k.address] in o.writable
    ensures ReadyOps(ctx, k, o) & !(OP_READ | OP_WRITE) == 0
  {
    FlagsMakeOps(k.interest, ctx[k.address] in o.readable, ctx[k.address] in o.writable);
  }
}
