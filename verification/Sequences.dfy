/** Choosing elements of a sequence by their positions. */
module Sequences {

  ghost predicate Increasing(at: seq<nat>) {
    forall i, j | 0 <= i < j < |at| :: at[i] < at[j]
  }

  /** `part` consists of the elements of `all` at the positions `at`, in order. */
  ghost predicate Picks<T>(part: seq<T>, all: seq<T>, at: seq<nat>) {
    && Increasing(at) && |part| == |at|
    && forall k | 0 <= k < |at| :: at[k] < |all| && part[k] == all[at[k]]
  }

  /** One more element at the end, chosen or not. */
  lemma PickLast<T>(part: seq<T>, all: seq<T>, at: seq<nat>, x: T)
    requires Picks(part, all, at)
    ensures Picks(part, all + [x], at) && Picks(part + [x], all + [x], at + [|all|])
    ensures |all| !in at
  {}

  lemma ShiftedMembers(at: seq<nat>)
    ensures 0 !in Shifted(at) && forall i: nat :: i + 1 in Shifted(at) <==> i in at
  {
    var up := Shifted(at);
    forall i: nat ensures i + 1 in up <==> i in at {
      if i in at {
        var k :| 0 <= k < |at| && at[k] == i;
        assert up[k] == i + 1;
      }
    }
  }

  /** One more element in front, chosen or not. */
  lemma PickFirst<T>(part: seq<T>, all: seq<T>, at: seq<nat>, x: T)
    requires Picks(part, all, at)
    ensures Picks(part, [x] + all, Shifted(at)) && Picks([x] + part, [x] + all, [0] + Shifted(at))
    ensures 0 !in Shifted(at) && forall i: nat :: i + 1 in Shifted(at) <==> i in at
  {
    ShiftedMembers(at);
  }

  function Shifted(at: seq<nat>): seq<nat> {
    seq(|at|, i requires 0 <= i < |at| => at[i] + 1)
  }
}
