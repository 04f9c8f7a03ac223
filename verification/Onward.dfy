/** Runs of views and sequences that only go on: no synchronisation, and no view change to a view that
    is not a later one. When a sequence is run twice in such a run. */
module Onward {
  import opened Quorum
  import opened Wrappers
  import opened RisingLists
  import opened WaterLine

  predicate OnwardStep(s: System, a: Action) {
    && !a.StartSync? && !a.Adopt?
    && (a.ChangeView? && a.i in s.nodes ==> a.view >= s.nodes[a.i].view)
  }

  predicate GoesOn(c: Config, s: System, actions: seq<Action>)
    requires CanRun(c, s, actions)
    decreases |actions|
  {
    actions == [] || (OnwardStep(s, actions[0]) && GoesOn(c, Next(c, s, actions[0]), actions[1..]))
  }

  /** The one view whose correct leader may propose a sequence. */
  function ViewOf(sequence: nat): int { (sequence - 1) / STEP }

  /** A node that has run the sequence in its own view, or is in a later one. */
  predicate Passed(node: Node, sequence: nat) {
    node.view > ViewOf(sequence) || (node.view == ViewOf(sequence) && node.sequence >= sequence)
  }

  /** This step is a round of the node for the sequence. */
  predicate RoundAt(s: System, a: Action, i: NodeId, sequence: nat) {
    a.i == i && i in s.nodes && ((a.Lead? && s.nodes[i].sequence + 1 == sequence) || (a.Follow? && a.sequence == sequence))
  }

  lemma FirstRound(c: Config, s: System, actions: seq<Action>, i: NodeId, sequence: nat)
    requires CanRun(c, s, actions) && actions != []
    ensures Times(RoundsOf(c, s, actions, i), sequence) ==
            (if RoundAt(s, actions[0], i, sequence) then 1 else 0)
            + Times(RoundsOf(c, Next(c, s, actions[0]), actions[1..], i), sequence)
  {
    var rest := RoundsOf(c, Next(c, s, actions[0]), actions[1..], i);
    assert forall x: nat :: ([x] + rest)[1..] == rest;
  }

  // ---------- without a faulty leader in an earlier view ----------

  /** No view before the sequence's own has a faulty leader. */
  predicate LeadersBefore(c: Config, sequence: nat) {
    forall f | f in c.faulty :: sequence <= (f + 1) * STEP
  }

  lemma ModAtMost(a: nat, n: nat)
    requires n > 0
    ensures a % n <= a
  {}

  lemma PassedStays(c: Config, s: System, a: Action, j: NodeId, sequence: nat)
    requires Enabled(c, s, a) && OnwardStep(s, a) && j in s.nodes && Passed(s.nodes[j], sequence)
    ensures Passed(Next(c, s, a).nodes[j], sequence)
  {}

  /** Where a correct node can run a sequence: before its view only by a request of its one leader. */
  lemma WhereRun(c: Config, s: System, a: Action, sequence: nat)
    requires Invariant(c, s) && Enabled(c, s, a) && RoundAt(s, a, a.i, sequence)
    ensures s.nodes[a.i].view <= ViewOf(sequence) && sequence > 0
    ensures a.Lead? ==> s.nodes[a.i].view == ViewOf(sequence) && a.i == ViewOf(sequence) % c.n
    ensures a.Follow? && LeadersBefore(c, sequence) && (s.nodes[a.i].view < ViewOf(sequence) || ViewOf(sequence) % c.n !in c.faulty) ==>
              var leader := ViewOf(sequence) % c.n;
              && leader !in c.faulty && leader != a.i && a.asked == Some(ViewOf(sequence))
              && s.nodes[a.i].view % c.n == leader
              && (a.i, Proposal(leader, ViewOf(sequence), sequence)) in s.requests
  {
    var node := s.nodes[a.i];
    if a.Follow? {
      ModAtMost(node.view, c.n);
      if a.asked.Some? {
        var p := Proposal(node.view % c.n, a.asked.value, sequence);
        assert (a.i, p) in s.requests && (a.i, p).1 in s.proposals && (a.i, p).0 != p.leader;
        assert p.view == ViewOf(sequence);
      }
    }
  }

  /** How often the node can still run the sequence. */
  function Left(c: Config, s: System, i: NodeId, sequence: nat): nat
    requires c.n > 0 && i in s.nodes
  {
    if sequence == 0 then 0
    else
      var leader := ViewOf(sequence) % c.n;
      if leader in c.faulty || i == leader then if Passed(s.nodes[i], sequence) then 0 else 1
      else
        (if leader in s.nodes && !Passed(s.nodes[leader], sequence) then 1 else 0)
        + if (i, Proposal(leader, ViewOf(sequence), sequence)) in s.requests then 1 else 0
  }

  lemma LeftStep(c: Config, s: System, a: Action, i: NodeId, sequence: nat)
    requires Invariant(c, s) && Enabled(c, s, a) && OnwardStep(s, a) && LeadersBefore(c, sequence) && i in s.nodes
    ensures Left(c, Next(c, s, a), i, sequence) + (if RoundAt(s, a, i, sequence) then 1 else 0) <= Left(c, s, i, sequence)
  {
    var s', leader := Next(c, s, a), ViewOf(sequence) % c.n;
    if RoundAt(s, a, i, sequence) { WhereRun(c, s, a, sequence); }
    if Passed(s.nodes[i], sequence) { PassedStays(c, s, a, i, sequence); }
    if sequence > 0 && leader in s.nodes {
      if Passed(s.nodes[leader], sequence) { PassedStays(c, s, a, leader, sequence); }
      if RoundAt(s, a, leader, sequence) { WhereRun(c, s, a, sequence); }
    }
  }

  lemma {:induction false} RunsAreLeft(c: Config, s: System, actions: seq<Action>, i: NodeId, sequence: nat)
    requires FewFaulty(c.n, c.faulty) && Invariant(c, s) && CanRun(c, s, actions) && GoesOn(c, s, actions)
    requires LeadersBefore(c, sequence) && i in s.nodes
    ensures Times(RoundsOf(c, s, actions, i), sequence) <= Left(c, s, i, sequence)
    decreases |actions|
  {
    if actions != [] {
      var a, s' := actions[0], Next(c, s, actions[0]);
      FirstRound(c, s, actions, i, sequence);
      LeftStep(c, s, a, i, sequence);
      StepKeeps(c, s, a);
      RunsAreLeft(c, s', actions[1..], i, sequence);
    }
  }

  /** Where views only go on, a sequence is run once by every node, unless it is past the high water
      line of a view that a faulty node leads first. */
  lemma RunOnceBeforeFaultyLeaders(c: Config, s: System, actions: seq<Action>, i: NodeId, sequence: nat)
    requires FewFaulty(c.n, c.faulty) && Start(s) && CanRun(c, s, actions) && GoesOn(c, s, actions)
    requires LeadersBefore(c, sequence) && i in s.nodes
    ensures Times(RoundsOf(c, s, actions, i), sequence) <= 1
  {
    RunsAreLeft(c, s, actions, i, sequence);
    OneAtFirst(c, s, i, sequence);
  }

  lemma OneAtFirst(c: Config, s: System, i: NodeId, sequence: nat)
    requires Start(s) && c.n > 0 && i in s.nodes
    ensures Left(c, s, i, sequence) <= 1
  {}

  /** No round is for sequence 0. */
  lemma {:induction false} ZeroIsNotRun(c: Config, s: System, actions: seq<Action>, i: NodeId)
    requires CanRun(c, s, actions)
    ensures Times(RoundsOf(c, s, actions, i), 0) == 0
    decreases |actions|
  {
    if actions != [] {
      ZeroIsNotRun(c, Next(c, s, actions[0]), actions[1..], i);
      FirstRound(c, s, actions, i, 0);
    }
  }

  // ---------- without synchronisation only ----------

  /** No step of a synchronisation. */
  predicate NoSync(actions: seq<Action>) { forall a | a in actions :: !a.StartSync? && !a.Adopt? }

  /** No view change goes back behind the first high water line. */
  lemma {:induction false} NotRunAgain(c: Config, s: System, actions: seq<Action>, i: NodeId, sequence: nat)
    requires CanRun(c, s, actions) && NoSync(actions) && i in s.nodes && sequence <= STEP
    requires s.nodes[i].sequence >= sequence
    ensures Times(RoundsOf(c, s, actions, i), sequence) == 0
    decreases |actions|
  {
    if actions != [] {
      NotRunAgain(c, Next(c, s, actions[0]), actions[1..], i, sequence);
      FirstRound(c, s, actions, i, sequence);
    }
  }

  /** So that only synchronisation makes a node run a sequence up to it twice, even where views do not
      only go on. */
  lemma {:induction false} LowSequencesRunOnce(c: Config, s: System, actions: seq<Action>, i: NodeId, sequence: nat)
    requires CanRun(c, s, actions) && NoSync(actions) && i in s.nodes && sequence <= STEP
    ensures Times(RoundsOf(c, s, actions, i), sequence) <= 1
    decreases |actions|
  {
    if actions != [] {
      var s' := Next(c, s, actions[0]);
      LowSequencesRunOnce(c, s', actions[1..], i, sequence);
      if s'.nodes[i].sequence >= sequence { NotRunAgain(c, s', actions[1..], i, sequence); }
      FirstRound(c, s, actions, i, sequence);
    }
  }
}
