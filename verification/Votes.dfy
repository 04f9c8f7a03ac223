/** Vote counting: one vote per address, counted per candidate. */
module Votes {
  import opened Wrappers
  import opened Quorum

  /** The answer recorded for an address; None stands for one that failed validation. */
  type Ballots<D> = map<NodeId, Option<D>>

  function Supporters<D(==)>(ballots: Ballots<D>, d: D): set<NodeId> {
    set a | a in ballots && ballots[a] == Some(d)
  }

  lemma SupportersGrow<D>(ballots: Ballots<D>, a: NodeId, vote: Option<D>, d: D)
    requires a !in ballots
    ensures vote == Some(d) ==> Supporters(ballots[a := vote], d) == Supporters(ballots, d) + {a}
                                && |Supporters(ballots[a := vote], d)| == |Supporters(ballots, d)| + 1
    ensures vote != Some(d) ==> Supporters(ballots[a := vote], d) == Supporters(ballots, d)
  {
    var s, s' := Supporters(ballots, d), Supporters(ballots[a := vote], d);
    assert a !in s;
    if vote == Some(d) { assert s' == s + {a}; } else { assert s' == s; }
  }

  datatype StageState = Empty | Processing | Finish

  datatype StageEvent<D> = Waiting | Success(winner: D) | AllReturned

  /** A stage that counts equal answers (stage.js and consensusStage.js). */
  class ConsensusStage<D(==, !new)> {
    const nodes: nat
    const threshold: nat
    var state: StageState
    var finishedNodes: set<NodeId>
    var trimedCandidates: map<D, nat>
    ghost var ballots: Ballots<D>

    /** The tables agree with the ballots: a candidate's count is the number of its supporters. */
    ghost predicate Valid()
      reads this
    {
      ballots.Keys == finishedNodes && Tallied(ballots)
    }

    constructor (nodes: nat, threshold: nat)
      ensures Valid() && ballots == map[] && state == Empty && this.nodes == nodes && this.threshold == threshold
    {
      this.nodes, this.threshold := nodes, threshold;
      state, finishedNodes, trimedCandidates := Empty, {}, map[];
      ballots := map[];
    }

    method Run()
      requires Valid()
      modifies this`state
      ensures Valid() && state == Processing
    {
      state := Processing;
    }

    method Reset()
      modifies this
      ensures Valid() && ballots == map[] && state == Empty
    {
      state, finishedNodes, trimedCandidates := Empty, {}, map[];
      ballots := map[];
    }

    /** Records one answer. Only an address's first answer counts, and the stage succeeds with a
        candidate exactly when that answer brings its supporters to the threshold. */
    method ValidateAndProcessExchangeData(candidate: D, address: NodeId, valid: bool) returns (event: StageEvent<D>)
      requires Valid()
      modifies this
      ensures Valid()
      ensures address in old(ballots) ==> event == Waiting && ballots == old(ballots) && state == old(state)
      ensures address !in old(ballots) ==>
                ballots == old(ballots)[address := if valid then Some(candidate) else None] &&
                event == (if valid && |Supporters(ballots, candidate)| >= threshold then Success(candidate)
                          else if |ballots.Keys| >= nodes then AllReturned else Waiting)
      ensures state == if event == Waiting then old(state) else Finish
    {
      event := Waiting;
      if address in finishedNodes { return; }
      finishedNodes := finishedNodes + {address};
      ghost var before := ballots;
      ballots := ballots[address := if valid then Some(candidate) else None];
      if valid {
        var enough := EnterNextStage(candidate, address, before);
        if enough { return Success(candidate); }
      } else {
        forall d { SupportersGrow(before, address, None, d); }
      }
      if |finishedNodes| >= nodes {
        state := Finish;
        event := AllReturned;
      }
    }

    ghost predicate Tallied(ballots: Ballots<D>)
      reads this`trimedCandidates
    {
      && (forall d :: d in trimedCandidates <==> Supporters(ballots, d) != {})
      && (forall d | d in trimedCandidates :: trimedCandidates[d] == |Supporters(ballots, d)|)
    }

    /** Counts one more supporter of a candidate, and tells whether it now has enough. */
    method EnterNextStage(candidate: D, ghost address: NodeId, ghost before: Ballots<D>) returns (enough: bool)
      requires Tallied(before) && address !in before
      modifies this`trimedCandidates, this`state
      ensures Tallied(before[address := Some(candidate)])
      ensures enough <==> |Supporters(before[address := Some(candidate)], candidate)| >= threshold
      ensures state == if enough then Finish else old(state)
    {
      forall d { SupportersGrow(before, address, Some(candidate), d); }
      var count := 1 + if candidate in trimedCandidates then trimedCandidates[candidate] else 0;
      trimedCandidates := trimedCandidates[candidate := count];
      enough := count >= threshold;
      if enough { state := Finish; }
    }
  }
}
