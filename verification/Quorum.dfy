/** Vote thresholds of the consensus stages, and what quorums have in common. */
module Quorum {

  // Nodes are told apart by their index in the node list.
  type NodeId = nat

  /** ripple.threshould: more than two thirds of the nodes. */
  function Threshold(n: nat): nat { 2 * n / 3 + 1 }

  /** The threshold of the ready and state-fetch stages: more than one third. */
  function ThirdThreshold(n: nat): nat { n / 3 + 1 }

  /** They are the smallest numbers above two thirds and above one third of the nodes. */
  lemma ThresholdsAreSmallest(n: nat)
    ensures forall k: nat :: k >= Threshold(n) <==> 3 * k > 2 * n
    ensures forall k: nat :: k >= ThirdThreshold(n) <==> 3 * k > n
  {}

  function Nodes(n: nat): (nodes: set<NodeId>)
    ensures |nodes| == n && forall a: nat :: a in nodes <==> a < n
  {
    if n == 0 then {} else Nodes(n - 1) + {n - 1}
  }

  /** n nodes of which fewer than a third are faulty. */
  ghost predicate FewFaulty(n: nat, faulty: set<NodeId>) {
    faulty <= Nodes(n) && 3 * |faulty| < n
  }

  lemma SubsetSize<T>(a: set<T>, b: set<T>)
    requires a <= b
    ensures |a| <= |b|
  {
    assert b == a + (b - a);
  }

  /** More than a third of the nodes include a correct one. */
  lemma ThirdHasCorrect(n: nat, faulty: set<NodeId>, q: set<NodeId>) returns (c: NodeId)
    requires FewFaulty(n, faulty) && q <= Nodes(n) && |q| >= ThirdThreshold(n)
    ensures c in q && c !in faulty
  {
    if q <= faulty { SubsetSize(q, faulty); }
    c :| c in q && c !in faulty;
  }

  /** Two quorums share a node outside of any set that is smaller than what they must share. */
  lemma QuorumsMeetOutside(n: nat, p: set<NodeId>, q: set<NodeId>, bad: set<NodeId>) returns (a: NodeId)
    requires p <= Nodes(n) && q <= Nodes(n) && |p| >= Threshold(n) && |q| >= Threshold(n)
    requires |bad| < 2 * Threshold(n) - n
    ensures a in p && a in q && a !in bad
  {
    SubsetSize(p + q, Nodes(n));
    assert |p + q| == |p| + |q| - |p * q|;
    if p * q <= bad { SubsetSize(p * q, bad); }
    a :| a in p * q && a !in bad;
  }

  /** In particular a correct one. */
  lemma QuorumsShareCorrect(n: nat, faulty: set<NodeId>, p: set<NodeId>, q: set<NodeId>) returns (c: NodeId)
    requires FewFaulty(n, faulty) && p <= Nodes(n) && q <= Nodes(n)
    requires |p| >= Threshold(n) && |q| >= Threshold(n)
    ensures c in p && c in q && c !in faulty
  {
    c := QuorumsMeetOutside(n, p, q, faulty);
  }

  lemma {:induction false} PickSome<T>(s: set<T>, k: nat) returns (some: set<T>)
    requires k <= |s|
    ensures some <= s && |some| == k
  {
    if k == 0 {
      some := {};
    } else {
      var x :| x in s;
      some := PickSome(s - {x}, k - 1);
      some := some + {x};
    }
  }

  /** Two quorums that share nothing outside of a set as large as what they must share. */
  lemma QuorumsMeetInside(n: nat, bad: set<NodeId>) returns (p: set<NodeId>, q: set<NodeId>)
    requires n > 0 && bad <= Nodes(n) && |bad| >= 2 * Threshold(n) - n
    ensures p <= Nodes(n) && q <= Nodes(n) && |p| == |q| == Threshold(n) && p * q <= bad
  {
    var shared := PickSome(bad, 2 * Threshold(n) - n);
    var rest := Nodes(n) - shared;
    assert |rest| == n - |shared|;
    var half := PickSome(rest, n - Threshold(n));
    p, q := shared + half, shared + (rest - half);
    assert |rest - half| == |rest| - |half|;
  }
}
