/** Two decisions for one sequence: when there is a run of the consensus with them whose every round is
    one that view and sequence let the node begin. */
module SequenceForks {
  import opened Quorum
  import opened RisingLists
  import opened Consensus
  import opened Sequences
  import opened Forks
  import WaterLine
  import Onward
  import Lockstep

  // ---------- rounds that come to nothing ----------

  /** In these actions just these nodes start rounds, each one those of the list. */
  ghost predicate StartsList(actions: seq<Action>, q: set<NodeId>, list: seq<nat>) {
    forall k :: StartsOf(actions, k) == if k in q then list else []
  }

  lemma StartsListOn(first: seq<Action>, x: seq<nat>, second: seq<Action>, y: seq<nat>, q: set<NodeId>)
    requires StartsList(first, q, x) && StartsList(second, q, y)
    ensures StartsList(first + second, q, x + y)
  {
    forall k ensures StartsOf(first + second, k) == if k in q then x + y else [] { StartsOfBoth(first, second, k); }
  }

  /** Nothing has been sent or decided. */
  ghost predicate Quiet(s: System, t: System) {
    t.nodes.Keys == s.nodes.Keys && t.net == s.net && t.decisions == s.decisions && t.blocks == s.blocks
  }

  lemma StartsFirst(a: Action, rest: seq<Action>, q: set<NodeId>, sequence: nat)
    requires a.StartRound? && a.sequence == sequence && a.i in q && StartsEach(rest, q - {a.i}, sequence)
    ensures StartsEach([a] + rest, q, sequence)
  {
    assert ([a] + rest)[1..] == rest && [sequence] + [] == [sequence];
  }

  /** Nodes start a round, and hear nothing. */
  lemma {:induction false} StartAll(c: Config, s: System, q: set<NodeId>, sequence: nat, hash: Hash)
    returns (actions: seq<Action>, t: System)
    requires AllCorrect(c, s, q)
    ensures Leads(c, s, actions, t, false) && Quiet(s, t) && StartsEach(actions, q, sequence)
    decreases |q|
  {
    if q == {} {
      actions, t := [], s;
    } else {
      var i :| i in q;
      var a := StartRound(i, sequence, hash, 0);
      var rest;
      rest, t := StartAll(c, Next(c, s, a), q - {i}, sequence, hash);
      actions := [a] + rest;
      LeadsFirst(c, s, a, rest, t, false);
      StartsFirst(a, rest, q, sequence);
    }
  }

  lemma {:induction false} StartList(c: Config, s: System, q: set<NodeId>, list: seq<nat>, hash: Hash)
    returns (actions: seq<Action>, t: System)
    requires AllCorrect(c, s, q)
    ensures Leads(c, s, actions, t, false) && Quiet(s, t) && StartsList(actions, q, list)
    decreases |list|
  {
    if list == [] {
      actions, t := [], s;
    } else {
      var first, m := StartAll(c, s, q, list[0], hash);
      var rest;
      rest, t := StartList(c, m, q, list[1..], hash);
      actions := first + rest;
      LeadsOn(c, s, first, m, rest, t, false);
      assert [list[0]] + list[1..] == list;
      StartsListOn(first, [list[0]], rest, list[1..], q);
    }
  }

  /** Everybody starts the candidate's round, and a quorum goes through it. */
  lemma RoundOfAll(c: Config, s: System, q: set<NodeId>, x: Candidate, all: set<NodeId>)
    returns (actions: seq<Action>, m: System, t: System, i: NodeId)
    requires ConfigOk(c) && q <= Nodes(c.n) && |q| == Threshold(c.n) && all == Nodes(c.n) - c.faulty && AllCorrect(c, s, all)
    ensures Leads(c, s, actions, t, false) && Quiet(s, m) && RoundDone(c, m, t, q, x, i)
    ensures StartsList(actions, all, [x.sequence])
  {
    var idle, rest;
    idle, m := StartAll(c, s, all - q, x.sequence, x.blockHash);
    assert q - c.faulty <= all;
    rest, t, i := OneRound(c, m, q, x, false);
    actions := idle + rest;
    LeadsOn(c, s, idle, m, rest, t, false);
    StartsEachOn(idle, all - q, rest, q - c.faulty, x.sequence);
    assert (all - q) + (q - c.faulty) == all;
  }

  /** Some rounds that come to nothing, and then the candidate's. */
  lemma RoundsThen(c: Config, s: System, before: seq<nat>, q: set<NodeId>, x: Candidate, all: set<NodeId>)
    returns (actions: seq<Action>, m: System, t: System, i: NodeId)
    requires ConfigOk(c) && q <= Nodes(c.n) && |q| == Threshold(c.n) && all == Nodes(c.n) - c.faulty && AllCorrect(c, s, all)
    ensures Leads(c, s, actions, t, false) && Quiet(s, m) && RoundDone(c, m, t, q, x, i)
    ensures StartsList(actions, all, before + [x.sequence])
  {
    var first, m1 := StartList(c, s, all, before, x.blockHash);
    var rest;
    rest, m, t, i := RoundOfAll(c, m1, q, x, all);
    actions := first + rest;
    LeadsOn(c, s, first, m1, rest, t, false);
    StartsListOn(first, before, rest, [x.sequence], all);
  }

  /** Two quorums that share only unreliable nodes, each in its round of one sequence. */
  lemma TwoDecisions(c: Config, bad: set<NodeId>, x: Candidate, y: Candidate, before: seq<nat>, between: seq<nat>)
    returns (actions: seq<Action>, i: NodeId, j: NodeId)
    requires ConfigOk(c) && c.faulty <= bad <= Nodes(c.n) && |bad| >= Overlap(c.n)
    requires x.sequence == y.sequence && DigestOf(c, x) != DigestOf(c, y)
    ensures Forked(c, bad, OnSequence(x.sequence), Initially(c, x.blockHash), actions, i, DigestOf(c, x), j, DigestOf(c, y))
    ensures StartsList(actions, Nodes(c.n) - c.faulty, (before + [x.sequence]) + (between + [x.sequence]))
  {
    var s, all := Initially(c, x.blockHash), Nodes(c.n) - c.faulty;
    var p, q := QuorumsMeetInside(c.n, bad);
    var first, second, m1, m2, m3, t;
    first, m1, m2, i := RoundsThen(c, s, before, p, x, all);
    second, m3, t, j := RoundsThen(c, m2, between, q, y, all);
    actions := first + second;
    LeadsOn(c, s, first, m2, second, t, false);
    StartsListOn(first, before + [x.sequence], second, between + [x.sequence], all);
    OnlySharedVoteTwice(c, t.net, OnSequence(x.sequence), p, DigestOf(c, x), q, DigestOf(c, y));
  }

  // ---------- in line with views and sequences ----------

  /** A fork in which every correct node starts only rounds that its view and sequence let it begin, in
      one and the same run of the views and sequences; with `on`, one in which views only go on. */
  ghost predicate ForksInLine(c: Config, bad: set<NodeId>, sequence: nat, on: bool, s: System, actions: seq<Action>,
                              steps: seq<WaterLine.Action>, i: NodeId, d: Digest, j: NodeId, d': Digest)
  {
    && Forked(c, bad, OnSequence(sequence), s, actions, i, d, j, d')
    && var wc, zero := WaterLine.Config(c.n, c.faulty), Lockstep.Zero(c.n);
       WaterLine.CanRun(wc, zero, steps) && (on ==> Onward.GoesOn(wc, zero, steps))
       && forall a | a in Nodes(c.n) && a !in c.faulty :: RoundsMatch(s, actions, wc, zero, steps, a)
  }

  /** There is such a fork. */
  ghost predicate CanFork(c: Config, bad: set<NodeId>, sequence: nat, on: bool) {
    exists s, actions, steps, i, d, j, d' :: ForksInLine(c, bad, sequence, on, s, actions, steps, i, d, j, d')
  }

  /** A run of views and sequences in which everybody runs a sequence twice gives a fork on it. */
  lemma TwiceForks(c: Config, bad: set<NodeId>, x: Candidate, y: Candidate, on: bool,
                   steps: seq<WaterLine.Action>, u: WaterLine.System, before: seq<nat>, between: seq<nat>)
    requires ConfigOk(c) && c.faulty <= bad <= Nodes(c.n) && |bad| >= Overlap(c.n)
    requires x.sequence == y.sequence && DigestOf(c, x) != DigestOf(c, y)
    requires var wc := WaterLine.Config(c.n, c.faulty);
             Lockstep.Leads(wc, Lockstep.Zero(c.n), steps, u, Lockstep.Correct(wc), (before + [x.sequence]) + (between + [x.sequence]), on)
    ensures CanFork(c, bad, x.sequence, on)
  {
    var actions, i, j := TwoDecisions(c, bad, x, y, before, between);
    assert ForksInLine(c, bad, x.sequence, on, Initially(c, x.blockHash), actions, steps, i, DigestOf(c, x), j, DigestOf(c, y));
  }

  /** Where every correct node runs the sequence at most once, the faulty ones alone are too few. */
  lemma OnceDoesNotFork(c: Config, bad: set<NodeId>, sequence: nat, on: bool, s: System, actions: seq<Action>,
                        steps: seq<WaterLine.Action>, i: NodeId, d: Digest, j: NodeId, d': Digest)
    requires ConfigOk(c) && ForksInLine(c, bad, sequence, on, s, actions, steps, i, d, j, d')
    ensures exists a :: a in Nodes(c.n) - c.faulty
              && Times(WaterLine.RoundsOf(WaterLine.Config(c.n, c.faulty), Lockstep.Zero(c.n), steps, a), sequence) > 1
  {
    var wc, zero := WaterLine.Config(c.n, c.faulty), Lockstep.Zero(c.n);
    if forall a | a in Nodes(c.n) - c.faulty :: Times(WaterLine.RoundsOf(wc, zero, steps, a), sequence) <= 1 {
      forall a | a in Repeaters(c, actions, sequence) ensures a in c.faulty {
        if a !in c.faulty { TimesPrefix(StartsOf(actions, a), WaterLine.RoundsOf(wc, zero, steps, a), sequence); }
      }
      assert Repeaters(c, actions, sequence) == c.faulty;
      StartedOnceAgreement(c, s, actions, i, d, j, d');
    }
  }

  lemma TooFewDoNotFork(c: Config, bad: set<NodeId>, x: Candidate, y: Candidate, on: bool)
    requires ConfigOk(c) && c.faulty <= bad <= Nodes(c.n) && |bad| < Overlap(c.n)
    requires x.sequence == y.sequence && DigestOf(c, x) != DigestOf(c, y)
    ensures !CanFork(c, bad, x.sequence, on)
  {
    AgreementExactly(c, bad, OnSequence(x.sequence), x, y);
  }

  lemma EarlyLeaderForks(c: Config, bad: set<NodeId>, x: Candidate, y: Candidate, f: NodeId)
    requires ConfigOk(c) && c.faulty <= bad <= Nodes(c.n) && |bad| >= Overlap(c.n)
    requires x.sequence == y.sequence > (f + 1) * WaterLine.STEP && f in c.faulty && DigestOf(c, x) != DigestOf(c, y)
    ensures CanFork(c, bad, x.sequence, true)
  {
    var steps, u, between := Lockstep.TwiceOnward(WaterLine.Config(c.n, c.faulty), x.sequence, f);
    Lockstep.NoneAdded([x.sequence]);
    TwiceForks(c, bad, x, y, true, steps, u, [], between);
  }

  lemma LaterLeadersDoNotFork(c: Config, bad: set<NodeId>, sequence: nat)
    requires ConfigOk(c) && forall f | f in c.faulty :: sequence <= (f + 1) * WaterLine.STEP
    ensures !CanFork(c, bad, sequence, true)
  {
    forall s, actions, steps, i, d, j, d' ensures !ForksInLine(c, bad, sequence, true, s, actions, steps, i, d, j, d') {
      if ForksInLine(c, bad, sequence, true, s, actions, steps, i, d, j, d') {
        var wc, zero := WaterLine.Config(c.n, c.faulty), Lockstep.Zero(c.n);
        OnceDoesNotFork(c, bad, sequence, true, s, actions, steps, i, d, j, d');
        var a :| a in Nodes(c.n) - c.faulty && Times(WaterLine.RoundsOf(wc, zero, steps, a), sequence) > 1;
        Onward.RunOnceBeforeFaultyLeaders(wc, zero, steps, a, sequence);
      }
    }
  }

  /** Where views only go on, and for whatever two candidates of one sequence: there is such a fork if
      and only if the unreliable nodes are as many as two quorums share, and the sequence is past the
      high water line of a view that a faulty node leads first. */
  lemma SequenceForksExactly(c: Config, bad: set<NodeId>, x: Candidate, y: Candidate)
    requires ConfigOk(c) && c.faulty <= bad <= Nodes(c.n)
    requires x.sequence == y.sequence && DigestOf(c, x) != DigestOf(c, y)
    ensures CanFork(c, bad, x.sequence, true)
            <==> |bad| >= Overlap(c.n) && exists f :: f in c.faulty && x.sequence > (f + 1) * WaterLine.STEP
  {
    var v := x.sequence;
    if |bad| < Overlap(c.n) {
      TooFewDoNotFork(c, bad, x, y, true);
    } else if f :| f in c.faulty && v > (f + 1) * WaterLine.STEP {
      EarlyLeaderForks(c, bad, x, y, f);
    } else {
      LaterLeadersDoNotFork(c, bad, v);
    }
  }

  lemma ZeroDoesNotFork(c: Config, bad: set<NodeId>, sequence: nat)
    requires ConfigOk(c) && sequence == 0
    ensures !CanFork(c, bad, sequence, false)
  {
    forall s, actions, steps, i, d, j, d' ensures !ForksInLine(c, bad, sequence, false, s, actions, steps, i, d, j, d') {
      if ForksInLine(c, bad, sequence, false, s, actions, steps, i, d, j, d') {
        var wc, zero := WaterLine.Config(c.n, c.faulty), Lockstep.Zero(c.n);
        OnceDoesNotFork(c, bad, sequence, false, s, actions, steps, i, d, j, d');
        var a :| a in Nodes(c.n) - c.faulty && Times(WaterLine.RoundsOf(wc, zero, steps, a), sequence) > 1;
        Onward.ZeroIsNotRun(wc, zero, steps, a);
      }
    }
  }

  lemma SyncForks(c: Config, bad: set<NodeId>, x: Candidate, y: Candidate)
    requires ConfigOk(c) && c.faulty <= bad <= Nodes(c.n) && |bad| >= Overlap(c.n)
    requires x.sequence == y.sequence > 0 && DigestOf(c, x) != DigestOf(c, y)
    ensures CanFork(c, bad, x.sequence, false)
  {
    var steps, u, before, between := Lockstep.TwiceBySync(WaterLine.Config(c.n, c.faulty), x.sequence);
    TwiceForks(c, bad, x, y, false, steps, u, before, between);
  }

  /** With synchronisation every sequence is open to it, without a faulty leader. */
  lemma SyncForksExactly(c: Config, bad: set<NodeId>, x: Candidate, y: Candidate)
    requires ConfigOk(c) && c.faulty <= bad <= Nodes(c.n)
    requires x.sequence == y.sequence && DigestOf(c, x) != DigestOf(c, y)
    ensures CanFork(c, bad, x.sequence, false)
            <==> |bad| >= Overlap(c.n) && x.sequence > 0
  {
    var v := x.sequence;
    if |bad| < Overlap(c.n) {
      TooFewDoNotFork(c, bad, x, y, false);
    } else if v > 0 {
      SyncForks(c, bad, x, y);
    } else {
      ZeroDoesNotFork(c, bad, v);
    }
  }
}
