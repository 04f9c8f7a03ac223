/** The round of one node as the program runs it: one object whose handlers update its fields and
    hand over from stage to stage. Every handler is a run of the step relation. */
module Round {
  import opened Wrappers
  import opened Quorum
  import opened Votes
  import opened Consensus

  /** What a handler sends, decides and builds. */
  datatype Outbox = Outbox(sent: seq<Message>, decided: Option<Digest>, block: Option<Block>)

  function Rank(stage: Stage): nat {
    if stage == Prepare then 3 else if stage == Ready then 2 else if stage == Commit then 1 else 0
  }

  /** The system differs by the node's new record and by what is in the outbox. */
  ghost predicate Differs(s: System, s': System, i: NodeId, node: Node, out: Outbox) {
    && s'.nodes == s.nodes[i := node]
    && s'.net == s.net + (set m | m in out.sent)
    && s'.decisions == s.decisions + (if out.decided.Some? then {(i, out.decided.value)} else {})
    && s'.blocks == s.blocks + (if out.block.Some? && out.decided.Some? then {(i, out.decided.value, out.block.value)} else {})
  }

  // ---------- what a node does by itself ----------

  function StepsLeft(stage: Stage): nat {
    if stage == PrePrepare then 4 else Rank(stage)
  }

  /** A node that has just entered a voting stage answers in it itself, if it knows a digest. */
  function OwnVote(i: NodeId, node: Node): Option<Action> {
    var vote := if node.stage == Prepare then node.candidateDigest else node.consensus;
    if IsVoting(node.stage) && vote.Some? then Some(Deliver(i, i, vote)) else None
  }

  /** What follows an action of a node at once: its own answer in a stage it has entered, or the end
      of a stage in which all have answered and none has won. */
  function FollowUp(c: Config, before: Node, a: Action, after: Node): Option<Action> {
    if after.stage != before.stage then OwnVote(a.i, after)
    else if a.Deliver? && |after.ballots.Keys| >= c.n then Some(EndStage(a.i))
    else None
  }

  /** An action of a node with all that follows it. */
  ghost function Cascade(c: Config, s: System, a: Action): seq<Action>
    requires Enabled(c, s, a)
    decreases StepsLeft(s.nodes[a.i].stage), if a.Deliver? then 1 else 0, 1
  {
    var s' := Next(c, s, a);
    [a] + After(c, s', FollowUp(c, s.nodes[a.i], a, s'.nodes[a.i]))
  }

  ghost function After(c: Config, s: System, next: Option<Action>): seq<Action>
    decreases if next.Some? && next.value.i in s.nodes then StepsLeft(s.nodes[next.value.i].stage) else 0,
              if next.Some? && next.value.Deliver? then 1 else 0, if next.Some? then 2 else 0
  {
    if next.Some? && Enabled(c, s, next.value) then Cascade(c, s, next.value) else []
  }

  /** The first answer of a node, with which more than two thirds of all nodes support its digest, or in
      the ready stage more than one third. */
  ghost predicate Wins(c: Config, node: Node, sender: NodeId, d: Digest) {
    sender !in node.ballots &&
    var support := |Supporters(node.ballots[sender := Some(d)], d)|;
    if node.stage == Ready then 3 * support > c.n else 3 * support > 2 * c.n
  }

  /** An answer with all that follows it. */
  lemma CascadeOfAnswer(c: Config, s: System, i: NodeId, sender: NodeId, vote: Option<Digest>)
    requires Enabled(c, s, Deliver(i, sender, vote))
    ensures var a, node := Deliver(i, sender, vote), s.nodes[i].(ballots := s.nodes[i].ballots[sender := vote]);
            if vote.Some? && Wins(c, s.nodes[i], sender, vote.value) then
              var s' := LeaveStage(s, i, node, vote);
              Next(c, s, a) == s' && i in s'.nodes && Cascade(c, s, a) == [a] + After(c, s', OwnVote(i, s'.nodes[i]))
            else
              var s' := s.(nodes := s.nodes[i := node]);
              Next(c, s, a) == s' && Cascade(c, s, a) == [a] + if |node.ballots.Keys| >= c.n then Cascade(c, s', EndStage(i)) else []
  {
    ThresholdsAreSmallest(c.n);
  }

  /** A node past the prepare stage keeps a digest that it holds, and no node goes back. */
  ghost predicate GoesOn(node: Node, node': Node) {
    && StepsLeft(node'.stage) <= StepsLeft(node.stage)
    && (node.stage != Prepare && node.consensus.Some? ==> node'.stage != Prepare && node'.consensus == node.consensus)
  }

  lemma StepGoesOn(c: Config, s: System, a: Action)
    requires Enabled(c, s, a) && (a.Deliver? || a.EndStage?)
    ensures a.i in Next(c, s, a).nodes && GoesOn(s.nodes[a.i], Next(c, s, a).nodes[a.i])
  {}

  lemma {:induction false} CascadeGoesOn(c: Config, s: System, a: Action)
    requires Enabled(c, s, a) && (a.Deliver? || a.EndStage?)
    ensures CanRun(c, s, Cascade(c, s, a))
    ensures var nodes := Run(c, s, Cascade(c, s, a)).nodes; a.i in nodes && GoesOn(s.nodes[a.i], nodes[a.i])
    decreases StepsLeft(s.nodes[a.i].stage), if a.Deliver? then 1 else 0
  {
    StepGoesOn(c, s, a);
    var s' := Next(c, s, a);
    var next := FollowUp(c, s.nodes[a.i], a, s'.nodes[a.i]);
    if next.Some? && Enabled(c, s', next.value) { CascadeGoesOn(c, s', next.value); }
    RunFirst(c, s, a, After(c, s', next));
  }

  /** The stage is left with the digest that has won it: from prepare as the candidate digest agreed on,
      from ready likewise if none was, from commit as the decided one. */
  lemma WinnerIsTaken(c: Config, s: System, i: NodeId, sender: NodeId, d: Digest)
    requires Enabled(c, s, Deliver(i, sender, Some(d))) && Wins(c, s.nodes[i], sender, d)
    ensures CanRun(c, s, Cascade(c, s, Deliver(i, sender, Some(d))))
    ensures var node, s' := s.nodes[i], Run(c, s, Cascade(c, s, Deliver(i, sender, Some(d))));
            && i in s'.nodes && StepsLeft(s'.nodes[i].stage) < StepsLeft(node.stage)
            && (node.stage == Prepare ==> s'.nodes[i].consensus == Some(d))
            && (node.stage == Ready ==> s'.nodes[i].consensus == if node.consensus.Some? then node.consensus else Some(d))
            && (node.stage == Commit ==> s'.nodes[i].decided == Some(d) && (i, d) in s'.decisions)
  {
    CascadeOfAnswer(c, s, i, sender, Some(d));
    var a := Deliver(i, sender, Some(d));
    var s' := Next(c, s, a);
    var next := OwnVote(i, s'.nodes[i]);
    if s.nodes[i].stage == Commit {
      assert next == None && After(c, s', next) == [];
    } else if next.Some? && Enabled(c, s', next.value) {
      CascadeGoesOn(c, s', next.value);
    }
    RunFirst(c, s, a, After(c, s', next));
  }

  lemma DiffersFromBefore(s: System, s1: System, s': System, i: NodeId, before: Node, node: Node, out: Outbox)
    requires s1 == s.(nodes := s.nodes[i := before]) && Differs(s1, s', i, node, out)
    ensures Differs(s, s', i, node, out)
  {
    assert s.nodes[i := before][i := node] == s.nodes[i := node];
  }

  lemma DiffersByBroadcast(s: System, s1: System, s': System, i: NodeId, before: Node, stage: Stage, d: Digest, node: Node, out: Outbox)
    requires s1 == EnterStage(s, i, before, stage) && Differs(s1, s', i, node, out)
    requires Some(d) == if stage == Prepare then before.candidateDigest else before.consensus
    ensures Differs(s, s', i, node, out.(sent := [Message(stage, i, d)] + out.sent))
  {
    var m := Message(stage, i, d);
    assert (set x | x in [m] + out.sent) == {m} + (set x | x in out.sent);
    assert s1.nodes[i := node] == s.nodes[i := node];
  }

  class Ripple {
    const i: NodeId
    const n: nat
    const sha: Txs -> TxsHash
    var stage: Stage
    var sequence: nat
    var hash: Hash
    var number: nat
    var candidate: Option<Candidate>
    var candidateDigest: Option<Digest>
    var consensusCandidateDigest: Option<Digest>
    var decidedCandidateDigest: Option<Digest>
    const prepare: ConsensusStage<Digest>
    const ready: ConsensusStage<Digest>
    const commit: ConsensusStage<Digest>

    ghost predicate IsFresh(st: ConsensusStage<Digest>)
      reads st
    {
      st.ballots == map[] && st.state == Empty
    }

    ghost function Repr(): set<object> { {this, prepare, ready, commit} }

    ghost predicate Valid()
      reads Repr()
    {
      && prepare != ready && ready != commit && prepare != commit
      && prepare.Valid() && ready.Valid() && commit.Valid() && prepare.nodes == ready.nodes == commit.nodes == n
      && prepare.threshold == Threshold(n) && ready.threshold == ThirdThreshold(n) && commit.threshold == Threshold(n)
      && (stage == PrePrepare ==> IsFresh(prepare))
      && (stage == PrePrepare || stage == Prepare ==> IsFresh(ready))
      && (stage == PrePrepare || stage == Prepare || stage == Ready ==> IsFresh(commit))
      && (candidateDigest.Some? ==> candidateDigest.value.sequence == sequence)
      && (consensusCandidateDigest.Some? ==> consensusCandidateDigest.value.sequence == sequence)
    }

    ghost function Tables(): ConsensusStage<Digest>
      reads this
    {
      if stage == Prepare then prepare else if stage == Ready then ready else commit
    }

    /** The node of the step relation that the object stands for. */
    ghost function Record(): Node
      reads Repr()
    {
      Node(stage, sequence, hash, number, candidate, candidateDigest, consensusCandidateDigest, decidedCandidateDigest,
           Tables().ballots)
    }

    ghost predicate StandsIn(c: Config, s: System)
      reads Repr()
    {
      c.n == n && c.sha == sha && i < n && i !in c.faulty && i in s.nodes && s.nodes[i] == Record()
    }

    constructor (i: NodeId, n: nat, sha: Txs -> TxsHash, sequence: nat, hash: Hash, number: nat)
      ensures Valid() && this.i == i && this.n == n && this.sha == sha && fresh(Repr())
      ensures Record() == Node(PrePrepare, sequence, hash, number, None, None, None, None, map[])
    {
      this.i, this.n, this.sha := i, n, sha;
      stage, this.sequence, this.hash, this.number := PrePrepare, sequence, hash, number;
      candidate, candidateDigest, consensusCandidateDigest, decidedCandidateDigest := None, None, None, None;
      prepare := new ConsensusStage(n, Threshold(n));
      ready := new ConsensusStage(n, ThirdThreshold(n));
      commit := new ConsensusStage(n, Threshold(n));
    }

    method ResetTables()
      requires prepare != ready && ready != commit && prepare != commit
      requires prepare.Valid() && ready.Valid() && commit.Valid()
      modifies prepare, ready, commit
      ensures prepare.Valid() && ready.Valid() && commit.Valid() && IsFresh(prepare) && IsFresh(ready) && IsFresh(commit)
    {
      prepare.Reset();
      ready.Reset();
      commit.Reset();
    }

    /** A new round, up to the point where its sequence is agreed on. */
    method RunNewConsensusRound(sequence: nat, hash: Hash, number: nat, ghost c: Config, ghost s: System)
      returns (ghost s': System)
      requires Valid() && StandsIn(c, s)
      modifies Repr()
      ensures Valid() && StandsIn(c, s')
      ensures Enabled(c, s, StartRound(i, sequence, hash, number)) && s' == Next(c, s, StartRound(i, sequence, hash, number))
    {
      candidate, candidateDigest, consensusCandidateDigest, decidedCandidateDigest := None, None, None, None;
      stage, this.sequence, this.hash, this.number := PrePrepare, sequence, hash, number;
      ResetTables();
      assert Record() == Node(PrePrepare, sequence, hash, number, None, None, None, None, map[]);
      s' := Next(c, s, StartRound(i, sequence, hash, number));
    }

    /** The leader's candidate, made or received: record it with its digest and go on to prepare. */
    method PrePrepared(x: Candidate, ghost c: Config, ghost s: System)
      returns (out: Outbox, ghost s': System, ghost actions: seq<Action>)
      requires Valid() && StandsIn(c, s) && stage == PrePrepare && x.sequence == sequence
      modifies Repr()
      ensures Valid() && StandsIn(c, s') && Differs(s, s', i, Record(), out)
      ensures Enabled(c, s, Propose(i, x)) && actions == Cascade(c, s, Propose(i, x))
      ensures CanRun(c, s, actions) && Run(c, s, actions) == s'
    {
      candidate := Some(x);
      candidateDigest := Some(Digest(x.sequence, x.blockHash, x.number, x.timestamp, x.view, sha(x.transactions)));
      ghost var a := Propose(i, x);
      ghost var more;
      out, s', more := RunStage(Prepare, c, s, Next(c, s, a));
      actions := [a] + more;
      RunFirst(c, s, a, more);
    }

    /** Starts a voting stage: a known digest is broadcast, and is the first vote counted. */
    method RunStage(next: Stage, ghost c: Config, ghost s: System, ghost s1: System)
      returns (out: Outbox, ghost s': System, ghost actions: seq<Action>)
      requires Valid() && c.n == n && c.sha == sha && i < n && i !in c.faulty && i in s.nodes
      requires (next == Prepare && stage == PrePrepare) || (next == Ready && stage == Prepare) ||
               (next == Commit && stage == Ready)
      requires s1 == EnterStage(s, i, Record(), next)
      modifies Repr()
      ensures Valid() && StandsIn(c, s') && Differs(s, s', i, Record(), out)
      ensures CanRun(c, s1, actions) && Run(c, s1, actions) == s'
      ensures actions == After(c, s1, OwnVote(i, s1.nodes[i]))
      decreases Rank(next), 3
    {
      ghost var before := Record();
      stage := next;
      var tables := if next == Prepare then prepare else if next == Ready then ready else commit;
      tables.Run();
      var vote := if next == Prepare then candidateDigest else consensusCandidateDigest;
      out, s', actions := Outbox([], None, None), s1, [];
      assert OwnVote(i, s1.nodes[i]) == if vote.Some? then Some(Deliver(i, i, vote)) else None;
      if vote.Some? {
        var inside;
        inside, s', actions := Answer(i, vote.value, true, c, s1);
        DiffersByBroadcast(s, s1, s', i, before, next, vote.value, Record(), inside);
        out := inside.(sent := [Message(next, i, vote.value)] + inside.sent);
      }
    }

    /** Counts an answer in the tables of the current stage. */
    method CountVote(sender: NodeId, digest: Digest, valid: bool) returns (counted: bool, event: StageEvent<Digest>)
      requires Valid() && IsVoting(stage)
      modifies Tables()
      ensures Valid()
      ensures counted <==> sender !in old(Record()).ballots
      ensures !counted ==> event == Waiting && Record() == old(Record())
      ensures counted ==>
                var ballots := old(Record()).ballots[sender := if valid then Some(digest) else None];
                Record() == old(Record()).(ballots := ballots) &&
                event == (if valid && |Supporters(ballots, digest)| >= Tables().threshold then Success(digest)
                          else if |ballots.Keys| >= n then AllReturned else Waiting)
    {
      if stage == Prepare {
        counted := sender !in prepare.finishedNodes;
        event := prepare.ValidateAndProcessExchangeData(digest, sender, valid);
      } else if stage == Ready {
        counted := sender !in ready.finishedNodes;
        event := ready.ValidateAndProcessExchangeData(digest, sender, valid);
      } else {
        counted := sender !in commit.finishedNodes;
        event := commit.ValidateAndProcessExchangeData(digest, sender, valid);
      }
    }

    /** An answer in the current stage. A repeated one changes nothing; another is recorded, and when it
        brings its digest to the threshold the stage is left with that digest. */
    method ReceiveVote(sender: NodeId, digest: Digest, valid: bool, ghost c: Config, ghost s: System)
      returns (out: Outbox, ghost s': System, ghost actions: seq<Action>)
      requires Valid() && StandsIn(c, s) && IsVoting(stage)
      requires valid ==> sender < n && digest.sequence == sequence &&
                         (sender in c.faulty || Message(stage, sender, digest) in s.net)
      modifies Repr()
      ensures Valid() && StandsIn(c, s') && Differs(s, s', i, Record(), out)
      ensures CanRun(c, s, actions) && Run(c, s, actions) == s'
      ensures sender in old(Record()).ballots ==> actions == [] && Record() == old(Record())
      ensures sender !in old(Record()).ballots ==>
                var a := Deliver(i, sender, if valid then Some(digest) else None);
                Enabled(c, s, a) && actions == Cascade(c, s, a)
      ensures valid && Wins(c, old(Record()), sender, digest) ==>
                && StepsLeft(stage) < StepsLeft(old(stage))
                && (old(stage) == Prepare ==> consensusCandidateDigest == Some(digest))
                && (old(stage) == Commit ==> decidedCandidateDigest == Some(digest) && (i, digest) in s'.decisions)
    {
      if valid && sender !in Tables().ballots && Wins(c, Record(), sender, digest) { WinnerIsTaken(c, s, i, sender, digest); }
      out, s', actions := Answer(sender, digest, valid, c, s);
    }

    method Answer(sender: NodeId, digest: Digest, valid: bool, ghost c: Config, ghost s: System)
      returns (out: Outbox, ghost s': System, ghost actions: seq<Action>)
      requires Valid() && StandsIn(c, s) && IsVoting(stage)
      requires valid ==> sender < n && digest.sequence == sequence &&
                         (sender in c.faulty || Message(stage, sender, digest) in s.net)
      modifies Repr()
      ensures Valid() && StandsIn(c, s') && Differs(s, s', i, Record(), out)
      ensures CanRun(c, s, actions) && Run(c, s, actions) == s'
      ensures sender in old(Record()).ballots ==> actions == [] && Record() == old(Record())
      ensures sender !in old(Record()).ballots ==>
                var a := Deliver(i, sender, if valid then Some(digest) else None);
                Enabled(c, s, a) && actions == Cascade(c, s, a)
      decreases Rank(stage), 2
    {
      ghost var a := Deliver(i, sender, if valid then Some(digest) else None);
      var counted, event := CountVote(sender, digest, valid);
      out, s', actions := Outbox([], None, None), s, [];
      if !counted { return; }
      ThresholdsAreSmallest(n);
      CascadeOfAnswer(c, s, i, sender, a.vote);
      ghost var more := [];
      s' := Next(c, s, a);
      match event {
        case Waiting =>
        case Success(d) => out, s', more := Handler(Some(d), c, s, s');
        case AllReturned =>
          ghost var before, s1 := Record(), s';
          out, s', more := Timeout(c, s1);
          DiffersFromBefore(s, s1, s', i, before, Record(), out);
      }
      actions := [a] + more;
      RunFirst(c, s, a, more);
    }

    /** The stage ends without a winner: its timer has run out, or every node has answered. */
    method Timeout(ghost c: Config, ghost s: System) returns (out: Outbox, ghost s': System, ghost actions: seq<Action>)
      requires Valid() && StandsIn(c, s) && IsVoting(stage)
      modifies Repr()
      ensures Valid() && StandsIn(c, s') && Differs(s, s', i, Record(), out)
      ensures CanRun(c, s, actions) && Run(c, s, actions) == s'
      ensures actions == Cascade(c, s, EndStage(i))
      decreases Rank(stage), 1, 1
    {
      ghost var e, more := EndStage(i), [];
      out, s', more := Handler(None, c, s, Next(c, s, e));
      actions := [e] + more;
      RunFirst(c, s, e, more);
    }

    /** The current stage has ended, with a winner or without. */
    method Handler(winner: Option<Digest>, ghost c: Config, ghost s: System, ghost s1: System)
      returns (out: Outbox, ghost s': System, ghost actions: seq<Action>)
      requires Valid() && c.n == n && c.sha == sha && i < n && i !in c.faulty && i in s.nodes
      requires IsVoting(stage) && s1 == LeaveStage(s, i, Record(), winner)
      requires winner.Some? ==> winner.value.sequence == sequence
      modifies Repr()
      ensures Valid() && StandsIn(c, s') && Differs(s, s', i, Record(), out)
      ensures CanRun(c, s1, actions) && Run(c, s1, actions) == s'
      ensures actions == After(c, s1, OwnVote(i, s1.nodes[i]))
      decreases Rank(stage), 1, 0
    {
      if stage == Prepare {
        if winner.Some? { consensusCandidateDigest := winner; }
        out, s', actions := RunStage(Ready, c, s, s1);
      } else if stage == Ready {
        if winner.Some? && consensusCandidateDigest.None? { consensusCandidateDigest := winner; }
        out, s', actions := RunStage(Commit, c, s, s1);
      } else {
        out := CommitHandler(winner, s);
        s', actions := s1, [];
      }
    }

    /** The commit stage has ended: process the decided candidate, fetch it, or change the view. */
    method CommitHandler(winner: Option<Digest>, ghost s: System) returns (out: Outbox)
      requires Valid() && stage == Commit && i in s.nodes
      modifies this`stage, this`decidedCandidateDigest
      ensures Valid()
      ensures Differs(s, LeaveStage(s, i, old(Record()), winner), i, Record(), out)
    {
      out := Outbox([], winner, None);
      if winner.Some? { decidedCandidateDigest := winner; }
      if winner.None? {
        stage := ViewChange;
      } else if hash != winner.value.blockHash || number != winner.value.number {
        stage := ViewChange;
      } else if candidateDigest != winner || candidate.None? {
        stage := FetchCandidate;
      } else {
        stage := ProcessCandidate;
        out := out.(block := Some(ProcessConsensusCandidate()));
      }
    }

    function ProcessConsensusCandidate(): Block
      reads this
      requires candidate.Some?
    {
      BlockOf(candidate.value)
    }

    /** A reply with transactions that may be those of the decided candidate. */
    method FetchReplied(transactions: Txs, ghost c: Config, ghost s: System)
      returns (out: Outbox, ghost s': System, ghost actions: seq<Action>)
      requires Valid() && StandsIn(c, s) && stage == FetchCandidate && decidedCandidateDigest.Some?
      modifies this`stage, this`candidate
      ensures Valid() && StandsIn(c, s') && CanRun(c, s, actions) && Run(c, s, actions) == s'
      ensures out.block.Some? <==> sha(transactions) == decidedCandidateDigest.value.digest
      ensures actions == if out.block.Some? then [FetchReply(i, transactions)] else []
      ensures s'.blocks == s.blocks + if out.block.Some? then {(i, decidedCandidateDigest.value, out.block.value)} else {}
    {
      out, s', actions := Outbox([], None, None), s, [];
      var d := decidedCandidateDigest.value;
      if sha(transactions) != d.digest { return; }
      candidate := Some(Candidate(d.sequence, d.blockHash, d.number, d.timestamp, d.view, transactions));
      stage := ProcessCandidate;
      out := out.(block := Some(ProcessConsensusCandidate()));
      ghost var a := FetchReply(i, transactions);
      s', actions := Next(c, s, a), [a] + [];
      RunFirst(c, s, a, []);
    }
  }
}
