/** Consensus rounds as a step relation: n nodes, some faulty, any delivery order, any number of
    rounds. Decisions for one sequence agree as long as no correct node votes twice for it, and
    the blocks built from them are equal. */
module Consensus {
  import opened Wrappers
  import opened Quorum
  import opened Votes

  type Hash(==, !new)
  type Txs(==, !new)
  type TxsHash(==, !new)

  datatype Candidate = Candidate(sequence: nat, blockHash: Hash, number: nat, timestamp: nat, view: nat, transactions: Txs)

  /** What is voted on. Its own hash covers all its fields, so equal hashes are equal values. */
  datatype Digest = Digest(sequence: nat, blockHash: Hash, number: nat, timestamp: nat, view: nat, digest: TxsHash)

  datatype Block = Block(number: nat, parentHash: Hash, timestamp: nat, transactions: Txs)

  datatype Config = Config(n: nat, faulty: set<NodeId>, sha: Txs -> TxsHash)

  ghost predicate ConfigOk(c: Config) {
    FewFaulty(c.n, c.faulty) && forall t, u :: c.sha(t) == c.sha(u) ==> t == u
  }

  datatype Stage = Amalgamate | PrePrepare | Prepare | Ready | Commit | FetchCandidate | ProcessCandidate | ViewChange

  datatype Node = Node(
    stage: Stage,
    sequence: nat,
    hash: Hash,
    number: nat,
    candidate: Option<Candidate>,
    candidateDigest: Option<Digest>,
    consensus: Option<Digest>,
    decided: Option<Digest>,
    ballots: Ballots<Digest>)   // the answers the current stage has recorded

  /** A vote broadcast in one of the three voting stages. */
  datatype Message = Message(stage: Stage, sender: NodeId, digest: Digest)

  /** The nodes (entries of faulty addresses mean nothing), every vote a correct node has sent so
      far, and every decision and block of a correct node so far. */
  datatype System = System(
    nodes: map<NodeId, Node>,
    net: set<Message>,
    decisions: set<(NodeId, Digest)>,
    blocks: set<(NodeId, Digest, Block)>)

  datatype Action =
    | StartRound(i: NodeId, sequence: nat, hash: Hash, number: nat)
    | Propose(i: NodeId, candidate: Candidate)
    | Deliver(i: NodeId, sender: NodeId, vote: Option<Digest>)
    | EndStage(i: NodeId)
    | FetchReply(i: NodeId, transactions: Txs)

  function DigestOf(c: Config, x: Candidate): Digest {
    Digest(x.sequence, x.blockHash, x.number, x.timestamp, x.view, c.sha(x.transactions))
  }

  /** The block header and transactions that processConsensusCandidate builds. */
  function BlockOf(x: Candidate): Block {
    Block(x.number + 1, x.blockHash, x.timestamp, x.transactions)
  }

  predicate IsVoting(stage: Stage) {
    stage == Prepare || stage == Ready || stage == Commit
  }

  function StageThreshold(c: Config, stage: Stage): nat {
    if stage == Ready then ThirdThreshold(c.n) else Threshold(c.n)
  }

  // ---------- what one node does ----------

  /** The next voting stage is entered with empty tables; a known digest is broadcast. */
  function EnterStage(s: System, i: NodeId, node: Node, stage: Stage): System {
    var vote := if stage == Prepare then node.candidateDigest else node.consensus;
    s.(nodes := s.nodes[i := node.(stage := stage, ballots := map[])],
       net := s.net + if vote.Some? then {Message(stage, i, vote.value)} else {})
  }

  /** The commit stage has a winner: decide, then process, fetch, or change the view. */
  function Decide(s: System, i: NodeId, node: Node, d: Digest): System {
    var node' := node.(decided := Some(d));
    var s' := s.(decisions := s.decisions + {(i, d)});
    if node.hash != d.blockHash || node.number != d.number then
      s'.(nodes := s.nodes[i := node'.(stage := ViewChange)])
    else if node.candidateDigest != Some(d) || node.candidate.None? then
      s'.(nodes := s.nodes[i := node'.(stage := FetchCandidate)])
    else
      s'.(nodes := s.nodes[i := node'.(stage := ProcessCandidate)],
          blocks := s.blocks + {(i, d, BlockOf(node.candidate.value))})
  }

  /** A stage ends: with a winning digest, or without one by timeout or when all have answered. */
  function LeaveStage(s: System, i: NodeId, node: Node, winner: Option<Digest>): System {
    match node.stage
    case Prepare => EnterStage(s, i, if winner.Some? then node.(consensus := winner) else node, Ready)
    case Ready => EnterStage(s, i, if node.consensus.None? then node.(consensus := winner) else node, Commit)
    case _ =>
      if winner.Some? then Decide(s, i, node, winner.value)
      else s.(nodes := s.nodes[i := node.(stage := ViewChange)])
  }

  predicate Enabled(c: Config, s: System, a: Action) {
    a.i < c.n && a.i !in c.faulty && a.i in s.nodes &&
    var node := s.nodes[a.i];
    match a
    case StartRound(_, _, _, _) => true
    case Propose(_, x) => node.stage == PrePrepare && x.sequence == node.sequence
    case Deliver(_, sender, vote) =>
      IsVoting(node.stage) && sender !in node.ballots &&
      (vote.Some? ==> sender < c.n && vote.value.sequence == node.sequence &&
                      (sender in c.faulty || Message(node.stage, sender, vote.value) in s.net))
    case EndStage(_) => IsVoting(node.stage)
    case FetchReply(_, txs) =>
      node.stage == FetchCandidate && node.decided.Some? && c.sha(txs) == node.decided.value.digest
  }

  function Next(c: Config, s: System, a: Action): System
    requires Enabled(c, s, a)
  {
    var i, node := a.i, s.nodes[a.i];
    match a
    case StartRound(_, sequence, hash, number) =>
      s.(nodes := s.nodes[i := Node(PrePrepare, sequence, hash, number, None, None, None, None, map[])])
    case Propose(_, x) =>
      EnterStage(s, i, node.(candidate := Some(x), candidateDigest := Some(DigestOf(c, x))), Prepare)
    case Deliver(_, sender, vote) =>
      var node' := node.(ballots := node.ballots[sender := vote]);
      if vote.Some? && |Supporters(node'.ballots, vote.value)| >= StageThreshold(c, node.stage)
      then LeaveStage(s, i, node', vote)
      else s.(nodes := s.nodes[i := node'])
    case EndStage(_) => LeaveStage(s, i, node, None)
    case FetchReply(_, txs) =>
      var d := node.decided.value;
      var x := Candidate(d.sequence, d.blockHash, d.number, d.timestamp, d.view, txs);
      s.(nodes := s.nodes[i := node.(stage := ProcessCandidate, candidate := Some(x))],
         blocks := s.blocks + {(i, d, BlockOf(x))})
  }

  // ---------- runs ----------

  /** No vote sent, nothing recorded, nothing decided. */
  predicate Start(s: System) {
    s.net == {} && s.decisions == {} && s.blocks == {} &&
    forall i | i in s.nodes ::
      s.nodes[i].stage == Amalgamate && s.nodes[i].ballots == map[] && s.nodes[i].consensus == None &&
      s.nodes[i].candidateDigest == None && s.nodes[i].decided == None
  }

  predicate CanRun(c: Config, s: System, actions: seq<Action>)
    decreases |actions|
  {
    actions == [] || (Enabled(c, s, actions[0]) && CanRun(c, Next(c, s, actions[0]), actions[1..]))
  }

  function Run(c: Config, s: System, actions: seq<Action>): System
    requires CanRun(c, s, actions)
    decreases |actions|
  {
    if actions == [] then s else Run(c, Next(c, s, actions[0]), actions[1..])
  }

  lemma RunFirst(c: Config, s: System, a: Action, rest: seq<Action>)
    requires Enabled(c, s, a) && CanRun(c, Next(c, s, a), rest)
    ensures CanRun(c, s, [a] + rest) && Run(c, s, [a] + rest) == Run(c, Next(c, s, a), rest)
  {
    assert ([a] + rest)[1..] == rest;
  }

  lemma {:induction false} RunOn(c: Config, s: System, first: seq<Action>, second: seq<Action>)
    requires CanRun(c, s, first) && CanRun(c, Run(c, s, first), second)
    ensures CanRun(c, s, first + second) && Run(c, s, first + second) == Run(c, Run(c, s, first), second)
    decreases |first|
  {
    if first == [] {
      assert first + second == second;
    } else {
      RunOn(c, Next(c, s, first[0]), first[1..], second);
      assert (first + second)[1..] == first[1..] + second;
    }
  }

  // ---------- the invariant ----------

  /** A prepare quorum stands behind the digest: more than two thirds of the nodes, of which every
      correct one has voted for it. */
  ghost predicate Backed(c: Config, net: set<Message>, d: Digest) {
    exists q :: IsQuorum(c, net, d, q)
  }

  ghost predicate IsQuorum(c: Config, net: set<Message>, d: Digest, q: set<NodeId>) {
    q <= Nodes(c.n) && |q| >= Threshold(c.n) && forall a | a in q && a !in c.faulty :: Message(Prepare, a, d) in net
  }

  ghost predicate NodeOk(c: Config, net: set<Message>, node: Node) {
    && (IsVoting(node.stage) ==> forall a | a in node.ballots && node.ballots[a].Some? ::
          a < c.n && (a in c.faulty || Message(node.stage, a, node.ballots[a].value) in net))
    && (node.consensus.Some? ==> Backed(c, net, node.consensus.value))
    && (node.candidateDigest.Some? && node.candidate.Some? && node.stage != ProcessCandidate
        ==> node.candidateDigest.value == DigestOf(c, node.candidate.value))
  }

  /** Correct nodes send ready and commit votes only for digests with a prepare quorum. */
  ghost predicate NetOk(c: Config, net: set<Message>) {
    forall m | m in net && m.stage != Prepare :: Backed(c, net, m.digest)
  }

  /** A block carries the fields of the decided digest and transactions with its hash. */
  ghost predicate BlockFits(c: Config, d: Digest, b: Block) {
    b == Block(d.number + 1, d.blockHash, d.timestamp, b.transactions) && c.sha(b.transactions) == d.digest
  }

  ghost predicate Invariant(c: Config, s: System) {
    && (forall i | i in s.nodes && i < c.n && i !in c.faulty :: NodeOk(c, s.net, s.nodes[i]) &&
          (s.nodes[i].decided.Some? ==> (i, s.nodes[i].decided.value) in s.decisions))
    && NetOk(c, s.net)
    && (forall x | x in s.decisions :: Backed(c, s.net, x.1))
    && (forall x | x in s.blocks :: (x.0, x.1) in s.decisions && BlockFits(c, x.1, x.2))
  }

  lemma BackedMonotone(c: Config, net: set<Message>, more: set<Message>, d: Digest)
    requires net <= more && Backed(c, net, d)
    ensures Backed(c, more, d)
  {
    var q :| IsQuorum(c, net, d, q);
    assert IsQuorum(c, more, d, q);
  }

  lemma NodeOkMonotone(c: Config, net: set<Message>, more: set<Message>, node: Node)
    requires net <= more && NodeOk(c, net, node)
    ensures NodeOk(c, more, node)
  {
    if node.consensus.Some? { BackedMonotone(c, net, more, node.consensus.value); }
  }

  /** A digest with a stage's threshold of recorded votes has a prepare quorum behind it. */
  lemma WinnersAreBacked(c: Config, net: set<Message>, node: Node, d: Digest)
    requires ConfigOk(c) && IsVoting(node.stage) && NodeOk(c, net, node) && NetOk(c, net)
    requires |Supporters(node.ballots, d)| >= StageThreshold(c, node.stage)
    ensures Backed(c, net, d)
  {
    var q := Supporters(node.ballots, d);
    assert q <= Nodes(c.n);
    if node.stage == Prepare {
      assert IsQuorum(c, net, d, q);
    } else {
      var a := ThirdHasCorrect(c.n, c.faulty, q);
      assert Message(node.stage, a, d) in net;
    }
  }

  /** Adding votes with a prepare quorum, or prepare votes, to the net. */
  lemma NetGrows(c: Config, s: System, net': set<Message>)
    requires Invariant(c, s) && s.net <= net'
    requires forall m | m in net' && m !in s.net && m.stage != Prepare :: Backed(c, s.net, m.digest)
    ensures Invariant(c, s.(net := net'))
  {
    forall m | m in net' && m.stage != Prepare ensures Backed(c, net', m.digest) {
      BackedMonotone(c, s.net, net', m.digest);
    }
    forall i | i in s.nodes && i < c.n && i !in c.faulty ensures NodeOk(c, net', s.nodes[i]) {
      NodeOkMonotone(c, s.net, net', s.nodes[i]);
    }
    forall x | x in s.decisions ensures Backed(c, net', x.1) { BackedMonotone(c, s.net, net', x.1); }
  }

  lemma EnterStageKeeps(c: Config, s: System, i: NodeId, node: Node, stage: Stage)
    requires Invariant(c, s) && i in s.nodes && IsVoting(stage)
    requires NodeOk(c, s.net, node.(ballots := map[], stage := stage))
    requires node.decided.Some? ==> (i, node.decided.value) in s.decisions
    ensures Invariant(c, EnterStage(s, i, node, stage))
  {
    var s' := EnterStage(s, i, node, stage);
    NetGrows(c, s, s'.net);
    NodeOkMonotone(c, s.net, s'.net, node.(ballots := map[], stage := stage));
  }

  lemma DecideKeeps(c: Config, s: System, i: NodeId, node: Node, d: Digest)
    requires Invariant(c, s) && i in s.nodes && NodeOk(c, s.net, node) && node.stage == Commit && Backed(c, s.net, d)
    ensures Invariant(c, Decide(s, i, node, d))
  {
    var s' := Decide(s, i, node, d);
    assert s'.nodes[i].ballots == node.ballots;
  }

  lemma LeaveStageKeeps(c: Config, s: System, i: NodeId, node: Node, winner: Option<Digest>)
    requires Invariant(c, s) && i in s.nodes && NodeOk(c, s.net, node) && IsVoting(node.stage)
    requires winner.Some? ==> Backed(c, s.net, winner.value)
    requires node.decided.Some? ==> (i, node.decided.value) in s.decisions
    ensures Invariant(c, LeaveStage(s, i, node, winner))
  {
    if node.stage == Prepare {
      EnterStageKeeps(c, s, i, if winner.Some? then node.(consensus := winner) else node, Ready);
    } else if node.stage == Ready {
      EnterStageKeeps(c, s, i, if node.consensus.None? then node.(consensus := winner) else node, Commit);
    } else if winner.Some? {
      DecideKeeps(c, s, i, node, winner.value);
    }
  }

  lemma StepKeeps(c: Config, s: System, a: Action)
    requires ConfigOk(c) && Invariant(c, s) && Enabled(c, s, a)
    ensures Invariant(c, Next(c, s, a))
  {
    var i, node := a.i, s.nodes[a.i];
    match a
    case StartRound(_, _, _, _) =>
    case Propose(_, x) =>
      EnterStageKeeps(c, s, i, node.(candidate := Some(x), candidateDigest := Some(DigestOf(c, x))), Prepare);
    case Deliver(_, sender, vote) =>
      var node' := node.(ballots := node.ballots[sender := vote]);
      assert NodeOk(c, s.net, node');
      if vote.Some? && |Supporters(node'.ballots, vote.value)| >= StageThreshold(c, node.stage) {
        WinnersAreBacked(c, s.net, node', vote.value);
        LeaveStageKeeps(c, s, i, node', vote);
      }
    case EndStage(_) => LeaveStageKeeps(c, s, i, node, None);
    case FetchReply(_, txs) =>
  }

  lemma {:induction false} RunKeeps(c: Config, s: System, actions: seq<Action>)
    requires ConfigOk(c) && Invariant(c, s) && CanRun(c, s, actions)
    ensures Invariant(c, Run(c, s, actions))
    decreases |actions|
  {
    if actions != [] {
      StepKeeps(c, s, actions[0]);
      RunKeeps(c, Next(c, s, actions[0]), actions[1..]);
    }
  }

  // ---------- agreement ----------

  /** A node has sent prepare votes for two digests about one thing. */
  ghost predicate VotedTwice(net: set<Message>, a: NodeId, about: Digest -> bool) {
    exists m, m' | m in net && m' in net ::
      m.stage == m'.stage == Prepare && m.sender == m'.sender == a && about(m.digest) && about(m'.digest) && m.digest != m'.digest
  }

  /** The nodes that cannot be relied on: the faulty ones, and those that have voted twice. */
  ghost function Unreliable(c: Config, net: set<Message>, about: Digest -> bool): set<NodeId> {
    c.faulty + set a | a in Nodes(c.n) && VotedTwice(net, a, about)
  }

  /** How many nodes two quorums share at least. */
  function Overlap(n: nat): int { 2 * Threshold(n) - n }

  lemma BackedIsUnique(c: Config, net: set<Message>, about: Digest -> bool, d: Digest, d': Digest)
    requires ConfigOk(c) && Backed(c, net, d) && Backed(c, net, d')
    requires about(d) && about(d') && |Unreliable(c, net, about)| < Overlap(c.n)
    ensures d == d'
  {
    var q :| IsQuorum(c, net, d, q);
    var q' :| IsQuorum(c, net, d', q');
    var a := QuorumsMeetOutside(c.n, q, q', Unreliable(c, net, about));
    var m, m' := Message(Prepare, a, d), Message(Prepare, a, d');
    assert m in net && m' in net;
    assert m.digest != m'.digest ==> VotedTwice(net, a, about);
  }

  /** In every run, with any number of rounds: decisions of correct nodes about one thing, be it a
      sequence or a parent block, agree, whether their digests came from a prepare quorum or from
      ready votes, provided that the faulty nodes, with those that have voted twice about it, are
      fewer than two quorums share. A restarted node that votes again counts like a faulty one. */
  lemma Agreement(c: Config, s: System, actions: seq<Action>, about: Digest -> bool, i: NodeId, d: Digest, j: NodeId, d': Digest)
    requires ConfigOk(c) && Start(s) && CanRun(c, s, actions)
    requires (i, d) in Run(c, s, actions).decisions && (j, d') in Run(c, s, actions).decisions
    requires about(d) && about(d') && |Unreliable(c, Run(c, s, actions).net, about)| < Overlap(c.n)
    ensures d == d'
  {
    RunKeeps(c, s, actions);
    BackedIsUnique(c, Run(c, s, actions).net, about, d, d');
  }

  /** Whoever builds a block about it, from its own candidate or from a fetched one, builds the same. */
  lemma SameBlock(c: Config, s: System, actions: seq<Action>, about: Digest -> bool,
                  i: NodeId, d: Digest, b: Block, j: NodeId, d': Digest, b': Block)
    requires ConfigOk(c) && Start(s) && CanRun(c, s, actions)
    requires (i, d, b) in Run(c, s, actions).blocks && (j, d', b') in Run(c, s, actions).blocks
    requires about(d) && about(d') && |Unreliable(c, Run(c, s, actions).net, about)| < Overlap(c.n)
    ensures b == b'
  {
    RunKeeps(c, s, actions);
    var t := Run(c, s, actions);
    assert (i, d, b) in t.blocks && (j, d', b') in t.blocks;
    assert (i, d, b).0 == i && (j, d', b').0 == j;
    Agreement(c, s, actions, about, i, d, j, d');
    assert BlockFits(c, d, b) && BlockFits(c, d', b');
  }

  /** A node that waits for transactions has decided about its own parent block. */
  ghost predicate WaitsOnParent(s: System) {
    forall i | i in s.nodes && s.nodes[i].stage == FetchCandidate ::
      s.nodes[i].decided.Some? && s.nodes[i].decided.value.blockHash == s.nodes[i].hash
      && s.nodes[i].decided.value.number == s.nodes[i].number
  }

  lemma {:induction false} RunWaitsOnParent(c: Config, s: System, actions: seq<Action>)
    requires CanRun(c, s, actions) && WaitsOnParent(s)
    ensures WaitsOnParent(Run(c, s, actions))
    decreases |actions|
  {
    if actions != [] { RunWaitsOnParent(c, Next(c, s, actions[0]), actions[1..]); }
  }

  lemma StepBuildsOnParent(c: Config, s: System, a: Action, x: (NodeId, Digest, Block))
    requires Enabled(c, s, a) && WaitsOnParent(s) && x in Next(c, s, a).blocks && x !in s.blocks
    ensures x.0 == a.i && x.1.blockHash == s.nodes[a.i].hash && x.1.number == s.nodes[a.i].number
  {}

  lemma NewBlockFits(c: Config, s: System, a: Action, x: (NodeId, Digest, Block))
    requires ConfigOk(c) && Invariant(c, s) && Enabled(c, s, a) && x in Next(c, s, a).blocks
    ensures BlockFits(c, x.1, x.2)
  {
    StepKeeps(c, s, a);
  }

  /** The next step of any run builds blocks for the node that takes it only, and only on the parent
      block that the node has begun its round with. */
  lemma BlocksExtendTheParent(c: Config, s: System, actions: seq<Action>, a: Action, x: (NodeId, Digest, Block))
    requires ConfigOk(c) && Start(s) && CanRun(c, s, actions) && Enabled(c, Run(c, s, actions), a)
    requires x in Next(c, Run(c, s, actions), a).blocks && x !in Run(c, s, actions).blocks
    ensures var node := Run(c, s, actions).nodes[a.i];
            x.0 == a.i && x.2.parentHash == node.hash && x.2.number == node.number + 1
  {
    var t := Run(c, s, actions);
    RunKeeps(c, s, actions);
    RunWaitsOnParent(c, s, actions);
    StepBuildsOnParent(c, t, a, x);
    NewBlockFits(c, t, a, x);
  }

  function OnSequence(sequence: nat): Digest -> bool { (d: Digest) => d.sequence == sequence }

  function OnParent(hash: Hash, number: nat): Digest -> bool { (d: Digest) => d.blockHash == hash && d.number == number }

  /** Every round a node starts has a larger sequence than its rounds before. */
  ghost predicate Ascending(c: Config, s: System, actions: seq<Action>)
    requires CanRun(c, s, actions)
    decreases |actions|
  {
    actions == [] ||
    ((actions[0].StartRound? ==> actions[0].sequence > s.nodes[actions[0].i].sequence) &&
     Ascending(c, Next(c, s, actions[0]), actions[1..]))
  }
}
