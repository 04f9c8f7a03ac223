/** When agreement fails: for every set of unreliable nodes that is as large as what two quorums
    share, a run in which only they vote twice and two decisions differ. */
module Forks {
  import opened Wrappers
  import opened Quorum
  import opened Votes
  import opened Consensus
  import opened Sequences

  // ---------- putting runs together ----------

  /** A run leads from one system to another; with `up`, its rounds ascend. */
  ghost predicate Leads(c: Config, s: System, actions: seq<Action>, t: System, up: bool) {
    CanRun(c, s, actions) && Run(c, s, actions) == t && (up ==> Ascending(c, s, actions))
  }

  lemma LeadsFirst(c: Config, s: System, a: Action, rest: seq<Action>, t: System, up: bool)
    requires Enabled(c, s, a) && Leads(c, Next(c, s, a), rest, t, up)
    requires up && a.StartRound? ==> a.sequence > s.nodes[a.i].sequence
    ensures Leads(c, s, [a] + rest, t, up)
  {
    RunFirst(c, s, a, rest);
    assert ([a] + rest)[1..] == rest;
  }

  lemma {:induction false} LeadsOn(c: Config, s: System, first: seq<Action>, m: System, second: seq<Action>, t: System, up: bool)
    requires Leads(c, s, first, m, up) && Leads(c, m, second, t, up)
    ensures Leads(c, s, first + second, t, up)
    decreases |first|
  {
    if first == [] {
      assert first + second == second;
    } else {
      LeadsOn(c, Next(c, s, first[0]), first[1..], m, second, t, up);
      LeadsFirst(c, s, first[0], first[1..] + second, t, up);
      assert first + second == [first[0]] + (first[1..] + second);
    }
  }

  /** In these actions just these nodes start a round, each one, for this sequence. */
  ghost predicate StartsEach(actions: seq<Action>, q: set<NodeId>, sequence: nat) {
    forall k :: StartsOf(actions, k) == if k in q then [sequence] else []
  }

  lemma Joined<T>(a: T, b: seq<T>, c: seq<T>)
    ensures ([a] + b)[1..] == b && [a] + b + c == [a] + (b + c)
  {}

  lemma {:induction false} StartsOfBoth(first: seq<Action>, second: seq<Action>, k: NodeId)
    ensures StartsOf(first + second, k) == StartsOf(first, k) + StartsOf(second, k)
    decreases |first|
  {
    if first == [] {
      assert first + second == second;
    } else {
      var a, rest := first[0], first[1..];
      StartsOfBoth(rest, second, k);
      Joined(a, rest, second);
      Joined(a, rest + second, []);
      assert first == [a] + rest;
      if a.StartRound? { Joined(a.sequence, StartsOf(rest, k), StartsOf(second, k)); }
    }
  }

  predicate NoStarts(actions: seq<Action>) { forall a | a in actions :: !a.StartRound? }

  lemma {:induction false} NothingStarts(actions: seq<Action>, k: NodeId)
    requires NoStarts(actions)
    ensures StartsOf(actions, k) == []
  {
    if actions != [] { NothingStarts(actions[1..], k); }
  }

  lemma StartsEachOnly(first: seq<Action>, p: set<NodeId>, second: seq<Action>, sequence: nat)
    requires StartsEach(first, p, sequence) && NoStarts(second)
    ensures StartsEach(first + second, p, sequence)
  {
    forall k ensures StartsOf(first + second, k) == if k in p then [sequence] else [] {
      StartsOfBoth(first, second, k);
      NothingStarts(second, k);
    }
  }

  lemma StartsEachOn(first: seq<Action>, p: set<NodeId>, second: seq<Action>, q: set<NodeId>, sequence: nat)
    requires StartsEach(first, p, sequence) && StartsEach(second, q, sequence) && p !! q
    ensures StartsEach(first + second, p + q, sequence)
  {
    forall k ensures StartsOf(first + second, k) == if k in p + q then [sequence] else [] { StartsOfBoth(first, second, k); }
  }

  // ---------- one node ----------

  /** The ballots of these nodes, all for one digest. */
  function AllFor(q: set<NodeId>, d: Digest): Ballots<Digest> { map a | a in q :: Some(d) }

  ghost predicate IsCorrect(c: Config, s: System, i: NodeId) { i < c.n && i !in c.faulty && i in s.nodes }

  /** Faulty nodes say anything; the correct ones of these have sent this vote. */
  ghost predicate Sent(c: Config, net: set<Message>, stage: Stage, d: Digest, q: set<NodeId>) {
    forall a | a in q && a !in c.faulty :: Message(stage, a, d) in net
  }

  lemma LeaveStageAt(s: System, i: NodeId, node: Node, other: Node, w: Option<Digest>)
    requires i in s.nodes
    ensures LeaveStage(s.(nodes := s.nodes[i := other]), i, node, w) == LeaveStage(s, i, node, w)
  {}

  /** A node in a voting stage has all votes of a quorum for a digest, but for those left. */
  ghost predicate Collecting(c: Config, s: System, i: NodeId, d: Digest, q: set<NodeId>, left: set<NodeId>) {
    && IsCorrect(c, s, i) && q <= Nodes(c.n) && |q| == Threshold(c.n) && left <= q && left != {}
    && (s.nodes[i].stage == Prepare || s.nodes[i].stage == Commit) && s.nodes[i].sequence == d.sequence
    && s.nodes[i].ballots == AllFor(q - left, d) && Sent(c, s.net, s.nodes[i].stage, d, q)
  }

  function WithBallots(s: System, i: NodeId, q: set<NodeId>, d: Digest): Node
    requires i in s.nodes
  {
    s.nodes[i].(ballots := AllFor(q, d))
  }

  /** One vote more; the last one ends the stage. */
  lemma CollectOne(c: Config, s: System, i: NodeId, d: Digest, q: set<NodeId>, left: set<NodeId>, b: NodeId)
    requires Collecting(c, s, i, d, q, left) && b in left
    ensures Enabled(c, s, Deliver(i, b, Some(d)))
    ensures left == {b} ==> Next(c, s, Deliver(i, b, Some(d))) == LeaveStage(s, i, WithBallots(s, i, q, d), Some(d))
    ensures left != {b} ==>
              var s' := s.(nodes := s.nodes[i := WithBallots(s, i, q - (left - {b}), d)]);
              Next(c, s, Deliver(i, b, Some(d))) == s' && Collecting(c, s', i, d, q, left - {b})
  {
    var ballots := s.nodes[i].ballots[b := Some(d)];
    assert ballots == AllFor(q - (left - {b}), d);
    assert Supporters(ballots, d) == q - (left - {b});
    assert |q - (left - {b})| == |q| - |left - {b}|;
    if left == {b} { assert q - (left - {b}) == q; }
  }

  /** A node collects the votes of a quorum. */
  lemma {:induction false} Collect(c: Config, s: System, i: NodeId, d: Digest, q: set<NodeId>, left: set<NodeId>, up: bool)
    returns (actions: seq<Action>)
    requires Collecting(c, s, i, d, q, left)
    ensures Leads(c, s, actions, LeaveStage(s, i, WithBallots(s, i, q, d), Some(d)), up)
    ensures NoStarts(actions)
    decreases |left|
  {
    var t := LeaveStage(s, i, WithBallots(s, i, q, d), Some(d));
    var b :| b in left;
    var a := Deliver(i, b, Some(d));
    CollectOne(c, s, i, d, q, left, b);
    if left == {b} {
      actions := [a] + [];
      LeadsFirst(c, s, a, [], t, up);
    } else {
      var s' := Next(c, s, a);
      var rest := Collect(c, s', i, d, q, left - {b}, up);
      LeaveStageAt(s, i, WithBallots(s, i, q, d), s'.nodes[i], Some(d));
      actions := [a] + rest;
      LeadsFirst(c, s, a, rest, t, up);
    }
  }

  /** A node that has proposed a candidate, and one that commits to it. */
  function Proposed(c: Config, x: Candidate): Node {
    Node(Prepare, x.sequence, x.blockHash, x.number, Some(x), Some(DigestOf(c, x)), None, None, map[])
  }

  function Committing(c: Config, x: Candidate): Node {
    Node(Commit, x.sequence, x.blockHash, x.number, Some(x), Some(DigestOf(c, x)), Some(DigestOf(c, x)), None, map[])
  }

  function AllAs(q: set<NodeId>, node: Node): map<NodeId, Node> { map a | a in q :: node }

  function VotesOf(q: set<NodeId>, stage: Stage, d: Digest): set<Message> { set a | a in q :: Message(stage, a, d) }

  function WithProposed(c: Config, s: System, q: set<NodeId>, x: Candidate): System {
    s.(nodes := s.nodes + AllAs(q, Proposed(c, x)), net := s.net + VotesOf(q, Prepare, DigestOf(c, x)))
  }

  function WithCommitting(c: Config, s: System, q: set<NodeId>, x: Candidate): System {
    s.(nodes := s.nodes + AllAs(q, Committing(c, x)),
       net := s.net + (VotesOf(q, Ready, DigestOf(c, x)) + VotesOf(q, Commit, DigestOf(c, x))))
  }

  lemma NothingProposed(c: Config, s: System, x: Candidate)
    ensures WithProposed(c, s, {}, x) == s && WithCommitting(c, s, {}, x) == s
  {
    assert WithProposed(c, s, {}, x).net == s.net && WithCommitting(c, s, {}, x).net == s.net;
    assert WithProposed(c, s, {}, x).nodes == s.nodes && WithCommitting(c, s, {}, x).nodes == s.nodes;
  }

  lemma Together(m: map<NodeId, Node>, i: NodeId, q: set<NodeId>, node: Node)
    requires i in q
    ensures (m + AllAs({i}, node)) + AllAs(q - {i}, node) == m + AllAs(q, node)
    ensures forall stage, d :: VotesOf({i}, stage, d) + VotesOf(q - {i}, stage, d) == VotesOf(q, stage, d)
  {}

  lemma ProposedTogether(c: Config, s: System, i: NodeId, q: set<NodeId>, x: Candidate)
    requires i in q
    ensures WithProposed(c, WithProposed(c, s, {i}, x), q - {i}, x) == WithProposed(c, s, q, x)
  {
    Together(s.nodes, i, q, Proposed(c, x));
    var d := DigestOf(c, x);
    assert (s.net + VotesOf({i}, Prepare, d)) + VotesOf(q - {i}, Prepare, d) == s.net + (VotesOf({i}, Prepare, d) + VotesOf(q - {i}, Prepare, d));
  }

  lemma CommittingTogether(c: Config, s: System, i: NodeId, q: set<NodeId>, x: Candidate)
    requires i in q
    ensures WithCommitting(c, WithCommitting(c, s, {i}, x), q - {i}, x) == WithCommitting(c, s, q, x)
  {
    Together(s.nodes, i, q, Committing(c, x));
    var d := DigestOf(c, x);
    var r, r', k, k' := VotesOf({i}, Ready, d), VotesOf(q - {i}, Ready, d), VotesOf({i}, Commit, d), VotesOf(q - {i}, Commit, d);
    assert (s.net + (r + k)) + (r' + k') == s.net + ((r + r') + (k + k'));
  }

  lemma StartsOne(i: NodeId, sequence: nat, start: Action, propose: Action)
    requires start.StartRound? && start.i == i && start.sequence == sequence && propose.Propose?
    ensures StartsEach([start] + ([propose] + []), {i}, sequence)
  {
    var rest := [propose] + [];
    assert ([start] + rest)[1..] == rest;
    forall k ensures StartsOf([start] + rest, k) == if k in {i} then [sequence] else [] { NothingStarts(rest, k); }
  }

  lemma ProposeOne(c: Config, s: System, i: NodeId, x: Candidate, up: bool) returns (actions: seq<Action>)
    requires IsCorrect(c, s, i) && (up ==> x.sequence > s.nodes[i].sequence)
    ensures Leads(c, s, actions, WithProposed(c, s, {i}, x), up) && StartsEach(actions, {i}, x.sequence)
  {
    var start, propose := StartRound(i, x.sequence, x.blockHash, x.number), Propose(i, x);
    var s1 := Next(c, s, start);
    var s2 := Next(c, s1, propose);
    assert s2.nodes == WithProposed(c, s, {i}, x).nodes;
    assert s2.net == WithProposed(c, s, {i}, x).net;
    LeadsFirst(c, s1, propose, [], s2, up);
    actions := [start] + ([propose] + []);
    StartsOne(i, x.sequence, start, propose);
    LeadsFirst(c, s, start, [propose] + [], s2, up);
  }

  /** The end of prepare and the end of ready. */
  lemma Commits(c: Config, s: System, i: NodeId, x: Candidate, q: set<NodeId>)
    requires IsCorrect(c, s, i) && s.nodes[i] == Proposed(c, x)
    ensures var d := DigestOf(c, x);
            var s1 := LeaveStage(s, i, WithBallots(s, i, q, d), Some(d));
            Enabled(c, s1, EndStage(i)) && Next(c, s1, EndStage(i)) == WithCommitting(c, s, {i}, x)
  {
    var d := DigestOf(c, x);
    var s2 := Next(c, LeaveStage(s, i, WithBallots(s, i, q, d), Some(d)), EndStage(i));
    assert s2.nodes == WithCommitting(c, s, {i}, x).nodes;
    assert s2.net == WithCommitting(c, s, {i}, x).net;
  }

  /** With a prepare quorum out, a node goes through prepare, lets ready end, and commits. */
  lemma CommitOne(c: Config, s: System, i: NodeId, x: Candidate, q: set<NodeId>, up: bool) returns (actions: seq<Action>)
    requires IsCorrect(c, s, i) && q <= Nodes(c.n) && |q| == Threshold(c.n) && s.nodes[i] == Proposed(c, x)
    requires Sent(c, s.net, Prepare, DigestOf(c, x), q)
    ensures Leads(c, s, actions, WithCommitting(c, s, {i}, x), up) && NoStarts(actions)
  {
    var d := DigestOf(c, x);
    assert q - q == {};
    var votes := Collect(c, s, i, d, q, q, up);
    var s1 := LeaveStage(s, i, WithBallots(s, i, q, d), Some(d));
    var e := EndStage(i);
    var s2 := Next(c, s1, e);
    Commits(c, s, i, x, q);
    LeadsFirst(c, s1, e, [], s2, up);
    actions := votes + ([e] + []);
    LeadsOn(c, s, votes, s1, [e] + [], s2, up);
  }

  // ---------- a quorum ----------

  ghost predicate AllCorrect(c: Config, s: System, q: set<NodeId>) { forall a | a in q :: IsCorrect(c, s, a) }

  lemma OthersUnchanged(c: Config, s: System, q: set<NodeId>, x: Candidate, i: NodeId)
    requires AllCorrect(c, s, q) && i in q
    ensures var s1 := WithProposed(c, s, {i}, x);
            AllCorrect(c, s1, q - {i}) && forall a | a in q - {i} :: s1.nodes[a] == s.nodes[a]
  {}

  lemma {:induction false} ProposeAll(c: Config, s: System, q: set<NodeId>, x: Candidate, up: bool) returns (actions: seq<Action>)
    requires AllCorrect(c, s, q) && (up ==> forall a | a in q :: x.sequence > s.nodes[a].sequence)
    ensures Leads(c, s, actions, WithProposed(c, s, q, x), up) && StartsEach(actions, q, x.sequence)
    decreases |q|
  {
    if q == {} {
      actions := [];
      NothingProposed(c, s, x);
    } else {
      var i :| i in q;
      var first := ProposeOne(c, s, i, x, up);
      var s1 := WithProposed(c, s, {i}, x);
      OthersUnchanged(c, s, q, x, i);
      var rest := ProposeAll(c, s1, q - {i}, x, up);
      actions := first + rest;
      ProposedTogether(c, s, i, q, x);
      LeadsOn(c, s, first, s1, rest, WithProposed(c, s, q, x), up);
      StartsEachOn(first, {i}, rest, q - {i}, x.sequence);
      assert {i} + (q - {i}) == q;
    }
  }

  lemma {:induction false} CommitAll(c: Config, s: System, p: set<NodeId>, x: Candidate, q: set<NodeId>, up: bool)
    returns (actions: seq<Action>)
    requires AllCorrect(c, s, p) && (forall a | a in p :: s.nodes[a] == Proposed(c, x))
    requires q <= Nodes(c.n) && |q| == Threshold(c.n) && Sent(c, s.net, Prepare, DigestOf(c, x), q)
    ensures Leads(c, s, actions, WithCommitting(c, s, p, x), up) && NoStarts(actions)
    decreases |p|
  {
    if p == {} {
      actions := [];
      NothingProposed(c, s, x);
    } else {
      var i :| i in p;
      var first := CommitOne(c, s, i, x, q, up);
      var s1 := WithCommitting(c, s, {i}, x);
      var rest := CommitAll(c, s1, p - {i}, x, q, up);
      actions := first + rest;
      CommittingTogether(c, s, i, p, x);
      LeadsOn(c, s, first, s1, rest, WithCommitting(c, s, p, x), up);
    }
  }

  /** What a round of a quorum does: one of its correct nodes has decided and built the block, and
      no other prepare votes have been sent than for the candidate and by the quorum. */
  ghost predicate RoundDone(c: Config, s: System, t: System, q: set<NodeId>, x: Candidate, i: NodeId) {
    var d := DigestOf(c, x);
    && i < c.n && i !in c.faulty
    && (i, d) in t.decisions && (i, d, BlockOf(x)) in t.blocks && s.decisions <= t.decisions && s.blocks <= t.blocks
    && t.nodes.Keys == s.nodes.Keys
    && (forall a | a in s.nodes :: t.nodes[a].sequence == if a in q && a !in c.faulty then x.sequence else s.nodes[a].sequence)
    && (forall m | m in t.net && m.stage == Prepare :: m in s.net || (m.digest == d && m.sender in q && m.sender !in c.faulty))
  }

  /** The votes on what has been proposed. */
  lemma VoteRound(c: Config, s: System, q: set<NodeId>, x: Candidate, up: bool, i: NodeId)
    returns (actions: seq<Action>, t: System)
    requires q <= Nodes(c.n) && |q| == Threshold(c.n) && AllCorrect(c, s, q - c.faulty) && i in q - c.faulty
    ensures Leads(c, WithProposed(c, s, q - c.faulty, x), actions, t, up) && RoundDone(c, s, t, q, x, i) && NoStarts(actions)
  {
    var p, d := q - c.faulty, DigestOf(c, x);
    var s1 := WithProposed(c, s, p, x);
    var commits := CommitAll(c, s1, p, x, q, up);
    var s2 := WithCommitting(c, s1, p, x);
    assert q - q == {} && s2.nodes[i] == Committing(c, x);
    var votes := Collect(c, s2, i, d, q, q, up);
    t := LeaveStage(s2, i, WithBallots(s2, i, q, d), Some(d));
    actions := commits + votes;
    LeadsOn(c, s1, commits, s2, votes, t, up);
    DecideIsDone(c, s, s2, q, x, i);
  }

  lemma OneRound(c: Config, s: System, q: set<NodeId>, x: Candidate, up: bool)
    returns (actions: seq<Action>, t: System, i: NodeId)
    requires ConfigOk(c) && q <= Nodes(c.n) && |q| == Threshold(c.n) && AllCorrect(c, s, q - c.faulty)
    requires up ==> forall a | a in q - c.faulty :: x.sequence > s.nodes[a].sequence
    ensures Leads(c, s, actions, t, up) && RoundDone(c, s, t, q, x, i) && StartsEach(actions, q - c.faulty, x.sequence)
  {
    i := QuorumsShareCorrect(c.n, c.faulty, q, q);
    var proposals := ProposeAll(c, s, q - c.faulty, x, up);
    var votes;
    votes, t := VoteRound(c, s, q, x, up, i);
    LeadsOn(c, s, proposals, WithProposed(c, s, q - c.faulty, x), votes, t, up);
    StartsEachOnly(proposals, q - c.faulty, votes, x.sequence);
    actions := proposals + votes;
  }

  /** After the decision of a node of the quorum the round is done. */
  lemma DecideIsDone(c: Config, s: System, s2: System, q: set<NodeId>, x: Candidate, i: NodeId)
    requires i in q && i !in c.faulty && i < c.n && AllCorrect(c, s, q - c.faulty)
    requires s2 == WithCommitting(c, WithProposed(c, s, q - c.faulty, x), q - c.faulty, x)
    ensures RoundDone(c, s, LeaveStage(s2, i, Committing(c, x).(ballots := AllFor(q, DigestOf(c, x))), Some(DigestOf(c, x))), q, x, i)
  {
    var t := LeaveStage(s2, i, Committing(c, x).(ballots := AllFor(q, DigestOf(c, x))), Some(DigestOf(c, x)));
    var p := q - c.faulty;
    assert AllAs(p, Proposed(c, x)).Keys == p == AllAs(p, Committing(c, x)).Keys && p <= s.nodes.Keys;
    assert s2.nodes.Keys == s.nodes.Keys;
    assert t.nodes.Keys == s2.nodes.Keys && t.net == s2.net;
  }

  // ---------- the fork ----------

  /** Two different decisions of correct nodes about one thing, in a run in which only nodes of this
      set are faulty or vote twice about it. */
  ghost predicate Forked(c: Config, bad: set<NodeId>, about: Digest -> bool, s: System, actions: seq<Action>,
                        i: NodeId, d: Digest, j: NodeId, d': Digest)
  {
    && Start(s) && CanRun(c, s, actions)
    && var t := Run(c, s, actions);
       Unreliable(c, t.net, about) <= bad && (i, d) in t.decisions && (j, d') in t.decisions && about(d) && about(d') && d != d'
  }

  function Initially(c: Config, hash: Hash): System {
    System(map a | a in Nodes(c.n) :: Node(Amalgamate, 0, hash, 0, None, None, None, None, map[]), {}, {}, {})
  }

  lemma OnlySharedVoteTwice(c: Config, net: set<Message>, about: Digest -> bool, p: set<NodeId>, d: Digest, q: set<NodeId>, d': Digest)
    requires forall m | m in net && m.stage == Prepare ::
               m.sender !in c.faulty && ((m.digest == d && m.sender in p) || (m.digest == d' && m.sender in q))
    ensures Unreliable(c, net, about) <= c.faulty + p * q
  {}

  /** Two rounds, of two quorums that share only unreliable nodes. */
  lemma TwoRounds(c: Config, bad: set<NodeId>, x: Candidate, y: Candidate, up: bool)
    returns (actions: seq<Action>, t: System, i: NodeId, j: NodeId)
    requires ConfigOk(c) && c.faulty <= bad <= Nodes(c.n) && |bad| >= Overlap(c.n)
    requires up ==> 0 < x.sequence < y.sequence
    ensures Start(Initially(c, x.blockHash)) && Leads(c, Initially(c, x.blockHash), actions, t, up)
    ensures i < c.n && i !in c.faulty && (i, DigestOf(c, x)) in t.decisions && (i, DigestOf(c, x), BlockOf(x)) in t.blocks
    ensures j < c.n && j !in c.faulty && (j, DigestOf(c, y)) in t.decisions && (j, DigestOf(c, y), BlockOf(y)) in t.blocks
    ensures forall about :: Unreliable(c, t.net, about) <= bad
  {
    var s := Initially(c, x.blockHash);
    var p, q := QuorumsMeetInside(c.n, bad);
    var first, second, m;
    first, m, i := OneRound(c, s, p, x, up);
    second, t, j := OneRound(c, m, q, y, up);
    actions := first + second;
    LeadsOn(c, s, first, m, second, t, up);
    forall about ensures Unreliable(c, t.net, about) <= bad {
      OnlySharedVoteTwice(c, t.net, about, p, DigestOf(c, x), q, DigestOf(c, y));
    }
  }

  /** Whatever two candidates are about, and whichever nodes are unreliable: no run forks if and only
      if the unreliable nodes are fewer than two quorums share. */
  lemma AgreementExactly(c: Config, bad: set<NodeId>, about: Digest -> bool, x: Candidate, y: Candidate)
    requires ConfigOk(c) && c.faulty <= bad <= Nodes(c.n)
    requires about(DigestOf(c, x)) && about(DigestOf(c, y)) && DigestOf(c, x) != DigestOf(c, y)
    ensures (forall s, actions, i, d, j, d' :: !Forked(c, bad, about, s, actions, i, d, j, d')) <==> |bad| < Overlap(c.n)
  {
    if |bad| < Overlap(c.n) {
      forall s, actions, i, d, j, d' ensures !Forked(c, bad, about, s, actions, i, d, j, d') {
        if Forked(c, bad, about, s, actions, i, d, j, d') {
          SubsetSize(Unreliable(c, Run(c, s, actions).net, about), bad);
          Agreement(c, s, actions, about, i, d, j, d');
        }
      }
    } else {
      var actions, t, i, j := TwoRounds(c, bad, x, y, false);
      assert Forked(c, bad, about, Initially(c, x.blockHash), actions, i, DigestOf(c, x), j, DigestOf(c, y));
    }
  }

  /** Rounds that ascend, so that every sequence has one decision, do not keep correct nodes from
      building different blocks on one parent: a vote in one round does not bind a node in the next. */
  lemma ParentsCanFork(c: Config, x: Candidate, y: Candidate) returns (s: System, actions: seq<Action>, i: NodeId, j: NodeId)
    requires ConfigOk(c) && 0 < x.sequence < y.sequence
    requires x.blockHash == y.blockHash && x.number == y.number && BlockOf(x) != BlockOf(y)
    ensures Start(s) && CanRun(c, s, actions) && Ascending(c, s, actions)
    ensures var t := Run(c, s, actions);
            && i < c.n && i !in c.faulty && (i, DigestOf(c, x), BlockOf(x)) in t.blocks
            && j < c.n && j !in c.faulty && (j, DigestOf(c, y), BlockOf(y)) in t.blocks
            && BlockOf(x).parentHash == BlockOf(y).parentHash
            && |Unreliable(c, t.net, OnParent(x.blockHash, x.number))| >= Overlap(c.n)
  {
    s := Initially(c, x.blockHash);
    var t;
    actions, t, i, j := TwoRounds(c, Nodes(c.n), x, y, true);
    if |Unreliable(c, t.net, OnParent(x.blockHash, x.number))| < Overlap(c.n) {
      SameBlock(c, s, actions, OnParent(x.blockHash, x.number), i, DigestOf(c, x), BlockOf(x), j, DigestOf(c, y), BlockOf(y));
    }
  }
}
