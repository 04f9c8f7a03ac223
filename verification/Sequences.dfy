/** From the water lines to agreement: a node whose rounds rise votes once for a sequence, and calm
    nodes are such nodes. */
module Sequences {
  import opened Quorum
  import opened RisingLists
  import opened Consensus
  import WaterLine

  // ---------- nodes that start a sequence once ----------

  /** The sequences of the rounds that a node starts. */
  function StartsOf(actions: seq<Action>, i: NodeId): seq<nat> {
    if actions == [] then []
    else (if actions[0].StartRound? && actions[0].i == i then [actions[0].sequence] else []) + StartsOf(actions[1..], i)
  }

  predicate Voted(net: set<Message>, i: NodeId, sequence: nat) {
    exists m | m in net :: m.stage == Prepare && m.sender == i && m.digest.sequence == sequence
  }

  /** In a round of the sequence, before the proposal. */
  predicate AboutToVote(s: System, i: NodeId, sequence: nat) {
    i in s.nodes && s.nodes[i].stage == PrePrepare && s.nodes[i].sequence == sequence
  }

  /** A node has not voted twice on a sequence, and with the rounds still to come it will not. */
  ghost predicate VotesOnce(s: System, i: NodeId, sequence: nat, toCome: seq<Action>) {
    && !VotedTwice(s.net, i, OnSequence(sequence))
    && !(Voted(s.net, i, sequence) && AboutToVote(s, i, sequence))
    && Times(StartsOf(toCome, i), sequence) + (if Voted(s.net, i, sequence) || AboutToVote(s, i, sequence) then 1 else 0) <= 1
  }

  lemma FirstStart(actions: seq<Action>, i: NodeId, sequence: nat)
    requires actions != []
    ensures Times(StartsOf(actions, i), sequence) ==
            (if actions[0].StartRound? && actions[0].i == i && actions[0].sequence == sequence then 1 else 0)
            + Times(StartsOf(actions[1..], i), sequence)
  {
    var a, rest := actions[0], StartsOf(actions[1..], i);
    if a.StartRound? && a.i == i {
      assert StartsOf(actions, i)[1..] == rest;
    } else {
      assert StartsOf(actions, i) == rest;
    }
  }

  /** A proposal is the only step that sends a prepare vote. */
  lemma PrepareVotes(c: Config, s: System, a: Action, m: Message)
    requires Enabled(c, s, a) && m.stage == Prepare
    ensures m in Next(c, s, a).net <==> m in s.net || (a.Propose? && m == Message(Prepare, a.i, DigestOf(c, a.candidate)))
  {}

  lemma StepVotesOnce(c: Config, s: System, actions: seq<Action>, i: NodeId, sequence: nat)
    requires CanRun(c, s, actions) && actions != [] && i !in c.faulty && VotesOnce(s, i, sequence, actions)
    ensures VotesOnce(Next(c, s, actions[0]), i, sequence, actions[1..])
  {
    var a, s' := actions[0], Next(c, s, actions[0]);
    FirstStart(actions, i, sequence);
    forall m: Message | m.stage == Prepare
      ensures m in s'.net <==> m in s.net || (a.Propose? && m == Message(Prepare, a.i, DigestOf(c, a.candidate)))
    {
      PrepareVotes(c, s, a, m);
    }
  }

  lemma {:induction false} RunVotesOnce(c: Config, s: System, actions: seq<Action>, i: NodeId, sequence: nat)
    requires CanRun(c, s, actions) && i !in c.faulty && VotesOnce(s, i, sequence, actions)
    ensures VotesOnce(Run(c, s, actions), i, sequence, [])
    decreases |actions|
  {
    if actions != [] {
      StepVotesOnce(c, s, actions, i, sequence);
      RunVotesOnce(c, Next(c, s, actions[0]), actions[1..], i, sequence);
    }
  }

  /** A correct node that starts a sequence at most once, whatever the others do, does not vote twice
      on it. */
  lemma StartedOnceVotesOnce(c: Config, s: System, actions: seq<Action>, i: NodeId, sequence: nat)
    requires Start(s) && CanRun(c, s, actions) && i !in c.faulty && Times(StartsOf(actions, i), sequence) <= 1
    ensures !VotedTwice(Run(c, s, actions).net, i, OnSequence(sequence))
  {
    RunVotesOnce(c, s, actions, i, sequence);
  }

  /** The faulty nodes, and those that start the sequence more than once. */
  ghost function Repeaters(c: Config, actions: seq<Action>, sequence: nat): set<NodeId> {
    c.faulty + set a | a in Nodes(c.n) && Times(StartsOf(actions, a), sequence) > 1
  }

  /** Decisions for one sequence agree, with no assumption on votes, as long as the faulty nodes, with
      those that start the sequence more than once, are fewer than two quorums share. */
  lemma StartedOnceAgreement(c: Config, s: System, actions: seq<Action>, i: NodeId, d: Digest, j: NodeId, d': Digest)
    requires ConfigOk(c) && Start(s) && CanRun(c, s, actions) && |Repeaters(c, actions, d.sequence)| < Overlap(c.n)
    requires (i, d) in Run(c, s, actions).decisions && (j, d') in Run(c, s, actions).decisions
    requires d.sequence == d'.sequence
    ensures d == d'
  {
    var net, about := Run(c, s, actions).net, OnSequence(d.sequence);
    forall a | a in Unreliable(c, net, about) ensures a in Repeaters(c, actions, d.sequence) {
      if a !in c.faulty && Times(StartsOf(actions, a), d.sequence) <= 1 { StartedOnceVotesOnce(c, s, actions, a, d.sequence); }
    }
    SubsetSize(Unreliable(c, net, about), Repeaters(c, actions, d.sequence));
    Agreement(c, s, actions, about, i, d, j, d');
  }

  // ---------- nodes whose rounds rise ----------

  function SequenceOf(s: System, i: NodeId): nat { if i in s.nodes then s.nodes[i].sequence else 0 }

  /** A node starts its rounds in rising order, from the sequence it has. */
  predicate Rises(s: System, actions: seq<Action>, i: NodeId) { Rising(SequenceOf(s, i), StartsOf(actions, i)) }

  lemma StepSequence(c: Config, s: System, a: Action, i: NodeId)
    requires Enabled(c, s, a)
    ensures Next(c, s, a).nodes.Keys == s.nodes.Keys
    ensures SequenceOf(Next(c, s, a), i) == if a.StartRound? && a.i == i then a.sequence else SequenceOf(s, i)
  {}

  lemma StepRises(c: Config, s: System, actions: seq<Action>, i: NodeId)
    requires CanRun(c, s, actions) && actions != []
    ensures Rises(s, actions, i) <==>
            (actions[0].StartRound? && actions[0].i == i ==> actions[0].sequence > SequenceOf(s, i)) &&
            Rises(Next(c, s, actions[0]), actions[1..], i)
  {
    StepSequence(c, s, actions[0], i);
    var rest := StartsOf(actions[1..], i);
    if actions[0].StartRound? && actions[0].i == i {
      assert StartsOf(actions, i)[1..] == rest;
    } else {
      assert StartsOf(actions, i) == rest;
    }
  }

  /** The faulty nodes, and those whose rounds do not rise. */
  ghost function Unsteady(c: Config, s: System, actions: seq<Action>): set<NodeId> {
    c.faulty + set a | a in Nodes(c.n) && !Rises(s, actions, a)
  }

  /** So they do as long as the faulty nodes, with those whose rounds do not rise, are that few. */
  lemma RisingAgreement(c: Config, s: System, actions: seq<Action>, i: NodeId, d: Digest, j: NodeId, d': Digest)
    requires ConfigOk(c) && Start(s) && CanRun(c, s, actions) && |Unsteady(c, s, actions)| < Overlap(c.n)
    requires (i, d) in Run(c, s, actions).decisions && (j, d') in Run(c, s, actions).decisions
    requires d.sequence == d'.sequence
    ensures d == d'
  {
    forall a | a in Repeaters(c, actions, d.sequence) ensures a in Unsteady(c, s, actions) {
      if Rises(s, actions, a) { RisingIsOnce(SequenceOf(s, a), StartsOf(actions, a), d.sequence); }
    }
    SubsetSize(Repeaters(c, actions, d.sequence), Unsteady(c, s, actions));
    StartedOnceAgreement(c, s, actions, i, d, j, d');
  }

  /** Rounds ascend exactly when those of every node rise. */
  lemma {:induction false} AscendingIsRising(c: Config, s: System, actions: seq<Action>)
    requires CanRun(c, s, actions)
    ensures Ascending(c, s, actions) <==> forall i :: Rises(s, actions, i)
    decreases |actions|
  {
    if actions != [] {
      AscendingIsRising(c, Next(c, s, actions[0]), actions[1..]);
      forall i ensures Rises(s, actions, i) <==>
                       (actions[0].StartRound? && actions[0].i == i ==> actions[0].sequence > SequenceOf(s, i)) &&
                       Rises(Next(c, s, actions[0]), actions[1..], i)
      {
        StepRises(c, s, actions, i);
      }
      if forall i :: Rises(s, actions, i) { assert Rises(s, actions, actions[0].i); }
    }
  }

  /** In runs whose rounds all ascend, decisions for one sequence always agree. */
  lemma AscendingAgreement(c: Config, s: System, actions: seq<Action>, i: NodeId, d: Digest, j: NodeId, d': Digest)
    requires ConfigOk(c) && Start(s) && CanRun(c, s, actions) && Ascending(c, s, actions)
    requires (i, d) in Run(c, s, actions).decisions && (j, d') in Run(c, s, actions).decisions
    requires d.sequence == d'.sequence
    ensures d == d'
  {
    AscendingIsRising(c, s, actions);
    assert Unsteady(c, s, actions) == c.faulty;
    RisingAgreement(c, s, actions, i, d, j, d');
  }

  // ---------- nodes that the water lines keep rising ----------

  /** The rounds that a node starts in a consensus run are those that its view and sequence let it
      begin. */
  ghost predicate RoundsMatch(s: System, actions: seq<Action>,
                              wc: WaterLine.Config, w: WaterLine.System, steps: seq<WaterLine.Action>, i: NodeId)
    requires WaterLine.CanRun(wc, w, steps)
  {
    i in w.nodes && SequenceOf(s, i) <= w.nodes[i].sequence && StartsOf(actions, i) <= WaterLine.RoundsOf(wc, w, steps, i)
  }

  lemma RisesAsMatched(s: System, actions: seq<Action>,
                       wc: WaterLine.Config, w: WaterLine.System, steps: seq<WaterLine.Action>, i: NodeId)
    requires WaterLine.CanRun(wc, w, steps) && RoundsMatch(s, actions, wc, w, steps, i)
    requires Rising(w.nodes[i].sequence, WaterLine.RoundsOf(wc, w, steps, i))
    ensures Rises(s, actions, i)
  {
    RisingFrom(SequenceOf(s, i), w.nodes[i].sequence, WaterLine.RoundsOf(wc, w, steps, i));
    RisingPrefix(SequenceOf(s, i), StartsOf(actions, i), WaterLine.RoundsOf(wc, w, steps, i));
  }

  /** A correct node votes twice on a sequence only if its sequence has fallen. */
  lemma VotesTwiceOnlyAfterAFall(c: Config, s: System, actions: seq<Action>,
                                 wc: WaterLine.Config, w: WaterLine.System, steps: seq<WaterLine.Action>,
                                 i: NodeId, sequence: nat)
    requires Start(s) && CanRun(c, s, actions) && i !in c.faulty
    requires WaterLine.CanRun(wc, w, steps) && RoundsMatch(s, actions, wc, w, steps, i)
    requires VotedTwice(Run(c, s, actions).net, i, OnSequence(sequence))
    ensures !WaterLine.NeverFalls(wc, w, steps, i)
  {
    if WaterLine.NeverFalls(wc, w, steps, i) {
      WaterLine.RoundsRiseWithoutFalls(wc, w, steps, i);
      RisesAsMatched(s, actions, wc, w, steps, i);
      RisingIsOnce(SequenceOf(s, i), StartsOf(actions, i), sequence);
      StartedOnceVotesOnce(c, s, actions, i, sequence);
    }
  }

  /** The faulty nodes, and those that are not calm or start other rounds than they may. */
  ghost function Restless(c: Config, s: System, actions: seq<Action>,
                          wc: WaterLine.Config, w: WaterLine.System, steps: seq<WaterLine.Action>): set<NodeId>
    requires WaterLine.CanRun(wc, w, steps)
  {
    c.faulty +
    set a | a in Nodes(c.n) && !(RoundsMatch(s, actions, wc, w, steps, a) && WaterLine.Calm(wc, w, steps, a))
  }

  /** Decisions for one sequence agree as long as the faulty nodes, with those that are not calm, are
      fewer than two quorums share. Calm nodes may synchronise, and the others may do so in any way. */
  lemma CalmAgreement(c: Config, s: System, actions: seq<Action>,
                      wc: WaterLine.Config, w: WaterLine.System, steps: seq<WaterLine.Action>,
                      i: NodeId, d: Digest, j: NodeId, d': Digest)
    requires ConfigOk(c) && Start(s) && CanRun(c, s, actions)
    requires WaterLine.Start(w) && WaterLine.CanRun(wc, w, steps)
    requires |Restless(c, s, actions, wc, w, steps)| < Overlap(c.n)
    requires (i, d) in Run(c, s, actions).decisions && (j, d') in Run(c, s, actions).decisions
    requires d.sequence == d'.sequence
    ensures d == d'
  {
    forall a | a in Unsteady(c, s, actions) ensures a in Restless(c, s, actions, wc, w, steps) {
      if a !in c.faulty && RoundsMatch(s, actions, wc, w, steps, a) && WaterLine.Calm(wc, w, steps, a) {
        WaterLine.CalmRoundsRise(wc, w, steps, a);
        RisesAsMatched(s, actions, wc, w, steps, a);
      }
    }
    SubsetSize(Unsteady(c, s, actions), Restless(c, s, actions, wc, w, steps));
    RisingAgreement(c, s, actions, i, d, j, d');
  }
}
