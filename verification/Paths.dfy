/** Sequences of states joined by steps of any kind. */
module Paths {

  ghost predicate Linked<S>(step: (S, S) -> bool, r: seq<S>) {
    |r| > 0 && forall i {:trigger step(r[i - 1], r[i])} :: 0 < i < |r| ==> step(r[i - 1], r[i])
  }

  lemma LinkAt<S>(step: (S, S) -> bool, r: seq<S>, i: nat)
    requires Linked(step, r) && 0 < i < |r|
    ensures step(r[i - 1], r[i])
  {
  }

  lemma LinkFront<S>(step: (S, S) -> bool, s: S, r: seq<S>)
    requires Linked(step, r) && step(s, r[0])
    ensures Linked(step, [s] + r)
  {
    var q := [s] + r;
    forall i | 0 < i < |q| ensures step(q[i - 1], q[i]) {
      if i > 1 {
        LinkAt(step, r, i - 1);
      }
    }
  }

  /** b begins where a ends. */
  lemma LinkJoin<S>(step: (S, S) -> bool, a: seq<S>, b: seq<S>)
    requires Linked(step, a) && Linked(step, b) && a[|a| - 1] == b[0]
    ensures Linked(step, a + b[1..])
  {
    var q := a + b[1..];
    forall i | 0 < i < |q| ensures step(q[i - 1], q[i]) {
      if i < |a| {
        LinkAt(step, a, i);
      } else {
        LinkAt(step, b, i - |a| + 1);
      }
    }
  }
}
