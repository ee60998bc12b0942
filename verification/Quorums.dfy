/** Counting sets of members: what makes a majority quorum a quorum. */
module Quorums {

  lemma {:induction false} SubsetCard(n: nat, s: set<nat>)
    requires forall i <- s :: i < n
    ensures |s| <= n
  {
    if n == 0 {
      assert s == {};
    } else {
      SubsetCard(n - 1, s - {n - 1});
    }
  }

  lemma GrowCard(a: set<nat>, b: set<nat>)
    requires a <= b
    ensures |a| <= |b|
  {
    assert b == a + (b - a);
  }

  /** Two majorities share a member. */
  lemma QuorumsMeet(n: nat, t: nat, a: set<nat>, b: set<nat>) returns (i: nat)
    requires 2 * t > n && |a| >= t && |b| >= t
    requires forall j <- a + b :: j < n
    ensures i in a && i in b
  {
    if a * b == {} {
      assert |a + b| == |a| + |b|;
      SubsetCard(n, a + b);
      assert false;
    }
    i :| i in a * b;
  }
}
