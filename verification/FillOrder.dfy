/**
 The order in which readv and writev use their areas (POSIX.1-2017, System Interfaces, readv
 and writev: each area is used fully before the next), and the split of a byte count over the
 areas that this order determines.
 */
module FillOrder {

  function Sum(xs: seq<nat>): nat {
    if |xs| == 0 then 0 else xs[0] + Sum(xs[1..])
  }

  /** No area is used beyond its length, and none is touched before all earlier ones are full. */
  ghost predicate InOrder(lens: seq<nat>, used: seq<nat>) {
    && |used| == |lens|
    && (forall i :: 0 <= i < |lens| ==> used[i] <= lens[i])
    && (forall i, j :: 0 <= i < j < |lens| && used[j] > 0 ==> used[i] == lens[i])
  }

  /** What an area of length len takes of the rest. */
  function Share(rest: nat, len: nat): nat {
    if rest >= len then len else rest
  }

  /** The split of total over areas of the given lengths, filled in order. */
  function Split(lens: seq<nat>, total: nat): (used: seq<nat>)
    ensures |used| == |lens|
  {
    if |lens| == 0 then []
    else
      var r := Share(total, lens[0]);
      [r] + Split(lens[1..], total - r)
  }

  /** What the loop over the areas still has to distribute when it comes to area i. */
  function Rest(lens: seq<nat>, total: nat, i: nat): nat
    requires i <= |lens|
  {
    if i == 0 then total else Rest(lens, total, i - 1) - Share(Rest(lens, total, i - 1), lens[i - 1])
  }

  lemma {:induction false} RestOfTail(lens: seq<nat>, total: nat, i: nat)
    requires 0 < i <= |lens|
    ensures Rest(lens, total, i) == Rest(lens[1..], total - Share(total, lens[0]), i - 1)
  {
    if i > 1 {
      RestOfTail(lens, total, i - 1);
    } else {
      assert Rest(lens, total, 0) == total;
    }
  }

  /** The loop, which sees one area at a time, gives each area its part of the split. */
  lemma {:induction false} LoopIsSplit(lens: seq<nat>, total: nat, i: nat)
    requires i < |lens|
    ensures Split(lens, total)[i] == Share(Rest(lens, total, i), lens[i])
  {
    if i > 0 {
      RestOfTail(lens, total, i);
      LoopIsSplit(lens[1..], total - Share(total, lens[0]), i - 1);
    }
  }

  lemma {:induction false} SumZero(xs: seq<nat>)
    requires forall i :: 0 <= i < |xs| ==> xs[i] == 0
    ensures Sum(xs) == 0
  {
    if |xs| > 0 {
      SumZero(xs[1..]);
    }
  }

  lemma {:induction false} SumAppend(xs: seq<nat>, x: nat)
    ensures Sum(xs + [x]) == Sum(xs) + x
  {
    if |xs| > 0 {
      SumAppend(xs[1..], x);
      assert (xs + [x])[1..] == xs[1..] + [x];
    } else {
      assert (xs + [x])[1..] == [];
    }
  }

  lemma {:induction false} SplitOfZero(lens: seq<nat>)
    ensures forall i :: 0 <= i < |lens| ==> Split(lens, 0)[i] == 0
  {
    if |lens| > 0 {
      SplitOfZero(lens[1..]);
    }
  }

  /** The split of a total that fits is in order and distributes the whole total. */
  lemma {:induction false} SplitIsInOrder(lens: seq<nat>, total: nat)
    requires total <= Sum(lens)
    ensures InOrder(lens, Split(lens, total)) && Sum(Split(lens, total)) == total
  {
    if |lens| > 0 {
      SplitIsInOrder(lens[1..], total - Share(total, lens[0]));
      if total < lens[0] {
        SplitOfZero(lens[1..]);
      }
    }
  }

  /** Any use of the areas that is in order is the split of its own total. */
  lemma {:induction false} InOrderIsSplit(lens: seq<nat>, used: seq<nat>)
    requires InOrder(lens, used)
    ensures Sum(used) <= Sum(lens) && used == Split(lens, Sum(used))
  {
    if |lens| > 0 {
      InOrderIsSplit(lens[1..], used[1..]);
      if used[0] < lens[0] {
        SumZero(used[1..]);
      }
      assert used == [used[0]] + used[1..];
    }
  }

  /** In-order use and the split are the same thing. */
  lemma InOrderExactlySplit(lens: seq<nat>, used: seq<nat>, total: nat)
    requires total <= Sum(lens)
    ensures InOrder(lens, used) && Sum(used) == total <==> used == Split(lens, total)
  {
    SplitIsInOrder(lens, total);
    if InOrder(lens, used) {
      InOrderIsSplit(lens, used);
    }
  }

  /** The shape of a split: full areas, then one partly used at index k, then untouched ones. */
  lemma {:induction false} SplitShape(lens: seq<nat>, total: nat) returns (k: nat)
    requires total <= Sum(lens)
    ensures k <= |lens|
    ensures forall i :: 0 <= i < k ==> Split(lens, total)[i] == lens[i]
    ensures forall i :: k < i < |lens| ==> Split(lens, total)[i] == 0
  {
    if |lens| == 0 {
      k := 0;
    } else if total >= lens[0] {
      var k' := SplitShape(lens[1..], total - lens[0]);
      k := k' + 1;
    } else {
      k := 0;
      SplitOfZero(lens[1..]);
    }
  }

  // ---------------------------------------------------------------- the bytes themselves

  function Flatten<T>(chunks: seq<seq<T>>): seq<T> {
    if |chunks| == 0 then [] else chunks[0] + Flatten(chunks[1..])
  }

  function Lengths<T>(chunks: seq<seq<T>>): (lens: seq<nat>)
    ensures |lens| == |chunks|
    ensures forall i :: 0 <= i < |chunks| ==> lens[i] == |chunks[i]|
  {
    seq(|chunks|, i requires 0 <= i < |chunks| => |chunks[i]|)
  }

  lemma {:induction false} FlattenLength<T>(chunks: seq<seq<T>>)
    ensures |Flatten(chunks)| == Sum(Lengths(chunks))
  {
    if |chunks| > 0 {
      FlattenLength(chunks[1..]);
      assert Lengths(chunks)[1..] == Lengths(chunks[1..]);
    }
  }

  lemma {:induction false} FlattenAppend<T>(chunks: seq<seq<T>>, c: seq<T>)
    ensures Flatten(chunks + [c]) == Flatten(chunks) + c
  {
    if |chunks| > 0 {
      FlattenAppend(chunks[1..], c);
      assert (chunks + [c])[1..] == chunks[1..] + [c];
    } else {
      assert (chunks + [c])[1..] == [];
    }
  }

  lemma {:induction false} FlattenEmpty<T>(chunks: seq<seq<T>>)
    requires forall i :: 0 <= i < |chunks| ==> chunks[i] == []
    ensures Flatten(chunks) == []
  {
    if |chunks| > 0 {
      FlattenEmpty(chunks[1..]);
    }
  }

  /** Each area cut to the part of it that is used. */
  function Cut<T>(areas: seq<seq<T>>, used: seq<nat>): (parts: seq<seq<T>>)
    requires |used| == |areas| && forall i :: 0 <= i < |areas| ==> used[i] <= |areas[i]|
    ensures |parts| == |areas| && Lengths(parts) == used
    ensures forall i :: 0 <= i < |areas| ==> parts[i] == areas[i][..used[i]]
  {
    seq(|areas|, i requires 0 <= i < |areas| => areas[i][..used[i]])
  }

  /** Used in order, the parts concatenate to a prefix of the concatenated areas. */
  lemma {:induction false} InOrderIsPrefix<T>(areas: seq<seq<T>>, used: seq<nat>)
    requires InOrder(Lengths(areas), used)
    ensures Sum(used) <= |Flatten(areas)|
    ensures Flatten(Cut(areas, used)) == Flatten(areas)[..Sum(used)]
  {
    if |areas| > 0 {
      assert Lengths(areas)[1..] == Lengths(areas[1..]);
      assert Cut(areas, used)[1..] == Cut(areas[1..], used[1..]);
      InOrderIsPrefix(areas[1..], used[1..]);
      if used[0] < |areas[0]| {
        SumZero(used[1..]);
        assert Flatten(areas)[..used[0]] == areas[0][..used[0]];
      } else {
        assert areas[0][..used[0]] == areas[0];
      }
    }
  }

  // ---------------------------------------------------------------- one area at a time

  lemma {:induction false} SumSet(xs: seq<nat>, i: nat, x: nat)
    requires i < |xs| && xs[i] == 0
    ensures Sum(xs[i := x]) == Sum(xs) + x
  {
    if i > 0 {
      SumSet(xs[1..], i - 1, x);
      assert xs[i := x][1..] == xs[1..][i - 1 := x];
    } else {
      assert xs[i := x][1..] == xs[1..];
    }
  }

  /** Giving the next area its bytes appends them to the whole. */
  lemma {:induction false} FlattenSet<T>(chunks: seq<seq<T>>, i: nat, c: seq<T>)
    requires i < |chunks| && forall j :: i <= j < |chunks| ==> chunks[j] == []
    ensures Flatten(chunks[i := c]) == Flatten(chunks) + c
  {
    if i > 0 {
      FlattenSet(chunks[1..], i - 1, c);
      assert chunks[i := c][1..] == chunks[1..][i - 1 := c];
    } else {
      assert chunks[i := c][1..] == chunks[1..];
      FlattenEmpty(chunks[1..]);
    }
  }

  /** The same bytes, distributed in order over areas of the same lengths, end up in the same places. */
  lemma {:induction false} SameBytesSamePlaces<T>(lens: seq<nat>, a: seq<seq<T>>, b: seq<seq<T>>)
    requires InOrder(lens, Lengths(a)) && InOrder(lens, Lengths(b)) && Flatten(a) == Flatten(b)
    ensures a == b
  {
    FlattenLength(a);
    FlattenLength(b);
    InOrderIsSplit(lens, Lengths(a));
    InOrderIsSplit(lens, Lengths(b));
    SameLengthsSamePlaces(a, b);
  }

  lemma {:induction false} SameLengthsSamePlaces<T>(a: seq<seq<T>>, b: seq<seq<T>>)
    requires Lengths(a) == Lengths(b) && Flatten(a) == Flatten(b)
    ensures a == b
  {
    if |a| > 0 {
      assert Lengths(a)[0] == |a[0]| && Lengths(b)[0] == |b[0]|;
      assert a[0] == Flatten(a)[..|a[0]|] && Flatten(a[1..]) == Flatten(a)[|a[0]|..];
      assert b[0] == Flatten(b)[..|b[0]|] && Flatten(b[1..]) == Flatten(b)[|b[0]|..];
      assert Lengths(a[1..]) == Lengths(a)[1..] == Lengths(b[1..]);
      SameLengthsSamePlaces(a[1..], b[1..]);
    }
  }
}
