/** Runs of views and sequences in which all correct nodes do the same: how a sequence comes to be run
    twice. */
module Lockstep {
  import opened Quorum
  import opened Wrappers
  import opened RisingLists
  import opened WaterLine
  import opened Onward

  // ---------- putting runs together ----------

  /** A run from one system to another in which each of these nodes runs these rounds, and no other
      node any; with `on`, views only go on. */
  ghost predicate Leads(c: Config, s: System, steps: seq<Action>, t: System, q: set<NodeId>, rounds: seq<nat>, on: bool) {
    && CanRun(c, s, steps) && Run(c, s, steps) == t && (on ==> GoesOn(c, s, steps))
    && forall j :: RoundsOf(c, s, steps, j) == if j in q then rounds else []
  }

  lemma AfterFirst(c: Config, s: System, a: Action, rest: seq<Action>)
    requires Enabled(c, s, a) && CanRun(c, Next(c, s, a), rest)
    ensures CanRun(c, s, [a] + rest) && Run(c, s, [a] + rest) == Run(c, Next(c, s, a), rest)
    ensures OnwardStep(s, a) && GoesOn(c, Next(c, s, a), rest) ==> GoesOn(c, s, [a] + rest)
    ensures forall j :: RoundsOf(c, s, [a] + rest, j) ==
              if a.i == j && (a.Lead? || a.Follow?) then [Next(c, s, a).nodes[j].sequence] + RoundsOf(c, Next(c, s, a), rest, j)
              else RoundsOf(c, Next(c, s, a), rest, j)
  {
    assert ([a] + rest)[1..] == rest;
  }

  lemma Joined<T>(a: T, b: seq<T>, c: seq<T>)
    ensures [a] + b + c == [a] + (b + c)
  {}

  lemma {:induction false} AfterMany(c: Config, s: System, first: seq<Action>, second: seq<Action>, j: NodeId)
    requires CanRun(c, s, first) && CanRun(c, Run(c, s, first), second)
    ensures CanRun(c, s, first + second) && Run(c, s, first + second) == Run(c, Run(c, s, first), second)
    ensures GoesOn(c, s, first) && GoesOn(c, Run(c, s, first), second) ==> GoesOn(c, s, first + second)
    ensures RoundsOf(c, s, first + second, j) == RoundsOf(c, s, first, j) + RoundsOf(c, Run(c, s, first), second, j)
    decreases |first|
  {
    if first == [] {
      assert first + second == second;
    } else {
      var a, rest := first[0], first[1..];
      AfterMany(c, Next(c, s, a), rest, second, j);
      AfterFirst(c, s, a, rest + second);
      AfterFirst(c, s, a, rest);
      Joined(a, rest, second);
      assert first == [a] + rest;
      if a.i == j && (a.Lead? || a.Follow?) {
        Joined(Next(c, s, a).nodes[j].sequence, RoundsOf(c, Next(c, s, a), rest, j), RoundsOf(c, Run(c, s, first), second, j));
      }
    }
  }

  lemma NoneAdded(x: seq<nat>)
    ensures [] + x == x == x + []
  {}

  /** One run after another, of the same nodes. */
  lemma LeadsOn(c: Config, s: System, first: seq<Action>, m: System, second: seq<Action>, t: System, q: set<NodeId>,
                x: seq<nat>, y: seq<nat>, on: bool)
    requires Leads(c, s, first, m, q, x, on) && Leads(c, m, second, t, q, y, on)
    ensures Leads(c, s, first + second, t, q, x + y, on)
  {
    AfterMany(c, s, first, second, 0);
    forall j ensures RoundsOf(c, s, first + second, j) == if j in q then x + y else [] { AfterMany(c, s, first, second, j); }
  }

  /** And of different nodes with the same rounds. */
  lemma LeadsBeside(c: Config, s: System, first: seq<Action>, m: System, second: seq<Action>, t: System,
                    p: set<NodeId>, q: set<NodeId>, x: seq<nat>, on: bool)
    requires Leads(c, s, first, m, p, x, on) && Leads(c, m, second, t, q, x, on) && p !! q
    ensures Leads(c, s, first + second, t, p + q, x, on)
  {
    AfterMany(c, s, first, second, 0);
    forall j ensures RoundsOf(c, s, first + second, j) == if j in p + q then x else [] { AfterMany(c, s, first, second, j); }
  }

  // ---------- one step of each node ----------

  datatype Kind =
    | Ask(view: nat)
    | Change(view: nat, sequence: nat, backers: set<NodeId>)
    | FollowIt(sequence: nat, asked: Option<nat>)
    | Tell
    | Forget
    | Take(backers: set<NodeId>)

  function Of(k: Kind, i: NodeId): Action {
    match k
    case Ask(view) => AskView(i, view)
    case Change(view, sequence, backers) => ChangeView(i, view, sequence, backers)
    case FollowIt(sequence, asked) => Follow(i, sequence, asked)
    case Tell => Respond(i)
    case Forget => StartSync(i)
    case Take(backers) => Adopt(i, 0, 0, backers)
  }

  function RoundsBy(k: Kind): seq<nat> { if k.FollowIt? then [k.sequence] else [] }

  function NodeAfter(k: Kind, node: Node): Node {
    match k
    case Change(view, _, _) => Node(view + 1, (view + 1) * STEP, false)
    case FollowIt(sequence, _) => node.(sequence := sequence)
    case Forget => Node(0, 0, true)
    case Take(_) => Node(0, 0, false)
    case _ => node
  }

  /** What one node's step does to the system. */
  lemma OneDoes(c: Config, s: System, k: Kind, i: NodeId)
    requires Enabled(c, s, Of(k, i))
    ensures var t := Next(c, s, Of(k, i));
            && t.nodes == s.nodes[i := NodeAfter(k, s.nodes[i])]
            && s.votes <= t.votes && (k.Ask? ==> Vote(i, k.view, s.nodes[i].sequence) in t.votes)
            && s.reports <= t.reports && (k.Tell? ==> Report(i, s.nodes[i].view, s.nodes[i].sequence) in t.reports)
  {
    match k
    case Ask(_) => assert s.nodes[i := s.nodes[i]] == s.nodes;
    case Tell => assert s.nodes[i := s.nodes[i]] == s.nodes;
    case _ =>
  }

  lemma OthersRequests(c: Config, s: System, k: Kind, i: NodeId)
    requires Enabled(c, s, Of(k, i))
    ensures forall x | x in s.requests :: x.0 != i ==> x in Next(c, s, Of(k, i)).requests
  {}

  /** It keeps no other from doing the same. */
  lemma OthersCan(c: Config, s: System, k: Kind, i: NodeId, j: NodeId)
    requires Enabled(c, s, Of(k, i)) && Enabled(c, s, Of(k, j)) && i != j
    ensures Enabled(c, Next(c, s, Of(k, i)), Of(k, j))
    ensures OnwardStep(s, Of(k, j)) ==> OnwardStep(Next(c, s, Of(k, i)), Of(k, j))
  {
    OneDoes(c, s, k, i);
    OthersRequests(c, s, k, i);
    StaysEnabled(c, s, Next(c, s, Of(k, i)), k, j);
  }

  lemma StaysEnabled(c: Config, s: System, t: System, k: Kind, j: NodeId)
    requires Enabled(c, s, Of(k, j)) && j in t.nodes && t.nodes[j] == s.nodes[j]
    requires s.votes <= t.votes && s.reports <= t.reports && forall x | x in s.requests :: x.0 == j ==> x in t.requests
    ensures Enabled(c, t, Of(k, j))
    ensures OnwardStep(s, Of(k, j)) ==> OnwardStep(t, Of(k, j))
  {
    match k
    case Ask(_) =>
    case Change(_, _, _) =>
    case FollowIt(sequence, asked) =>
      if asked.Some? {
        var x := (j, Proposal(s.nodes[j].view % c.n, asked.value, sequence));
        assert x.0 == j && x in s.requests;
      }
    case _ =>
  }

  /** Everything said before is still said. */
  ghost predicate Grows(s: System, t: System) {
    s.nodes.Keys == t.nodes.Keys && s.votes <= t.votes && s.reports <= t.reports
  }

  ghost predicate DidAt(s: System, t: System, k: Kind, i: NodeId) {
    && i in s.nodes && i in t.nodes && t.nodes[i] == NodeAfter(k, s.nodes[i])
    && (k.Ask? ==> Vote(i, k.view, s.nodes[i].sequence) in t.votes)
    && (k.Tell? ==> Report(i, s.nodes[i].view, s.nodes[i].sequence) in t.reports)
  }

  /** Each of the nodes has done it, and the others nothing. */
  ghost predicate AllDid(s: System, t: System, q: set<NodeId>, k: Kind) {
    && Grows(s, t) && (forall i | i in q :: DidAt(s, t, k, i))
    && forall i | i in s.nodes && i !in q :: t.nodes[i] == s.nodes[i]
  }

  lemma OneMoreDid(c: Config, s: System, t: System, q: set<NodeId>, k: Kind, i: NodeId)
    requires i in q && Enabled(c, s, Of(k, i)) && AllDid(Next(c, s, Of(k, i)), t, q - {i}, k)
    ensures AllDid(s, t, q, k)
  {
    OneDoes(c, s, k, i);
    var m := Next(c, s, Of(k, i));
    forall j | j in q ensures DidAt(s, t, k, j) { assert j != i ==> DidAt(m, t, k, j); }
  }

  lemma {:induction false} EachDoes(c: Config, s: System, q: set<NodeId>, k: Kind, on: bool) returns (steps: seq<Action>, t: System)
    requires forall i | i in q :: Enabled(c, s, Of(k, i)) && (on ==> OnwardStep(s, Of(k, i)))
    ensures Leads(c, s, steps, t, q, RoundsBy(k), on) && AllDid(s, t, q, k)
    decreases |q|
  {
    if q == {} {
      steps, t := [], s;
    } else {
      var i :| i in q;
      var a := Of(k, i);
      forall j | j in q - {i}
        ensures Enabled(c, Next(c, s, a), Of(k, j)) && (on ==> OnwardStep(Next(c, s, a), Of(k, j)))
      {
        OthersCan(c, s, k, i, j);
      }
      var rest;
      rest, t := EachDoes(c, Next(c, s, a), q - {i}, k, on);
      steps := [a] + rest;
      OneMoreDid(c, s, t, q, k, i);
      LeadsFirst(c, s, k, i, rest, t, q, on);
    }
  }

  lemma LeadsFirst(c: Config, s: System, k: Kind, i: NodeId, rest: seq<Action>, t: System, q: set<NodeId>, on: bool)
    requires i in q && Enabled(c, s, Of(k, i)) && (on ==> OnwardStep(s, Of(k, i)))
    requires Leads(c, Next(c, s, Of(k, i)), rest, t, q - {i}, RoundsBy(k), on)
    ensures Leads(c, s, [Of(k, i)] + rest, t, q, RoundsBy(k), on)
  {
    OneDoes(c, s, k, i);
    AfterFirst(c, s, Of(k, i), rest);
    NoneAdded(RoundsBy(k));
  }

  // ---------- all correct nodes ----------

  function Correct(c: Config): set<NodeId> { Nodes(c.n) - c.faulty }

  lemma CorrectAreEnough(c: Config)
    requires FewFaulty(c.n, c.faulty)
    ensures |Correct(c)| >= Threshold(c.n) >= ThirdThreshold(c.n)
  {
    assert Nodes(c.n) == Correct(c) + c.faulty;
    assert |Correct(c) + c.faulty| == |Correct(c)| + |c.faulty|;
  }

  ghost predicate AllAt(c: Config, s: System, view: nat, sequence: nat) {
    Correct(c) <= s.nodes.Keys && forall i | i in Correct(c) :: s.nodes[i] == Node(view, sequence, false)
  }

  lemma VoteAll(c: Config, s: System, view: nat, sequence: nat, on: bool) returns (steps: seq<Action>, t: System)
    requires AllAt(c, s, view, sequence)
    ensures Leads(c, s, steps, t, Correct(c), [], on) && AllAt(c, t, view, sequence) && Grows(s, t)
    ensures forall i | i in Correct(c) :: Vote(i, view, sequence) in t.votes
  {
    steps, t := EachDoes(c, s, Correct(c), Ask(view), on);
    forall i | i in Correct(c) ensures t.nodes[i] == s.nodes[i] && Vote(i, view, sequence) in t.votes {
      assert DidAt(s, t, Ask(view), i);
    }
  }

  lemma AllCanChange(c: Config, s: System, view: nat, sequence: nat)
    requires FewFaulty(c.n, c.faulty) && AllAt(c, s, view, sequence)
    requires forall i | i in Correct(c) :: Vote(i, view, sequence) in s.votes
    ensures var k := Change(view, sequence, Correct(c));
            forall i | i in Correct(c) :: Enabled(c, s, Of(k, i)) && OnwardStep(s, Of(k, i))
  {
    CorrectAreEnough(c);
    assert Agreed(c, s, view, sequence, Correct(c));
  }

  lemma ChangeAll(c: Config, s: System, view: nat, sequence: nat, on: bool) returns (steps: seq<Action>, t: System)
    requires FewFaulty(c.n, c.faulty) && AllAt(c, s, view, sequence)
    requires forall i | i in Correct(c) :: Vote(i, view, sequence) in s.votes
    ensures Leads(c, s, steps, t, Correct(c), [], on) && AllAt(c, t, view + 1, (view + 1) * STEP) && Grows(s, t)
  {
    var k := Change(view, sequence, Correct(c));
    AllCanChange(c, s, view, sequence);
    steps, t := EachDoes(c, s, Correct(c), k, on);
    forall i | i in Correct(c) ensures t.nodes[i] == Node(view + 1, (view + 1) * STEP, false) { assert DidAt(s, t, k, i); }
  }

  /** They vote to leave the view, and do. */
  lemma NextView(c: Config, s: System, view: nat, sequence: nat, on: bool) returns (steps: seq<Action>, t: System)
    requires FewFaulty(c.n, c.faulty) && AllAt(c, s, view, sequence)
    ensures Leads(c, s, steps, t, Correct(c), [], on) && AllAt(c, t, view + 1, (view + 1) * STEP) && Grows(s, t)
  {
    var votes, m := VoteAll(c, s, view, sequence, on);
    var changes;
    changes, t := ChangeAll(c, m, view, sequence, on);
    steps := votes + changes;
    LeadsOn(c, s, votes, m, changes, t, Correct(c), [], [], on);
    NoneAdded([]);
  }

  lemma {:induction false} GoToView(c: Config, s: System, view: nat, sequence: nat, later: nat, on: bool)
    returns (steps: seq<Action>, t: System)
    requires FewFaulty(c.n, c.faulty) && AllAt(c, s, view, sequence) && view <= later
    requires view == later ==> sequence == view * STEP
    ensures Leads(c, s, steps, t, Correct(c), [], on) && AllAt(c, t, later, later * STEP) && Grows(s, t)
    decreases later - view
  {
    if view == later {
      steps, t := [], s;
    } else {
      var first, m := NextView(c, s, view, sequence, on);
      var rest;
      rest, t := GoToView(c, m, view + 1, (view + 1) * STEP, later, on);
      steps := first + rest;
      LeadsOn(c, s, first, m, rest, t, Correct(c), [], [], on);
      NoneAdded([]);
    }
  }

  /** A faulty leader asks for a sequence. */
  lemma FollowFaulty(c: Config, s: System, view: nat, sequence: nat, later: nat, on: bool) returns (steps: seq<Action>, t: System)
    requires c.n > 0 && AllAt(c, s, view, sequence) && view % c.n in c.faulty && sequence < later && sequence < (view + 1) * STEP
    ensures Leads(c, s, steps, t, Correct(c), [later], on) && AllAt(c, t, view, later) && Grows(s, t)
  {
    steps, t := EachDoes(c, s, Correct(c), FollowIt(later, None), on);
  }

  lemma LeaderAsks(c: Config, s: System, view: nat, sequence: nat)
    requires c.n > 0 && AllAt(c, s, view, sequence) && view % c.n !in c.faulty && sequence < (view + 1) * STEP
    ensures var leader := view % c.n;
            leader in Correct(c) && Enabled(c, s, Lead(leader)) &&
            var m := Next(c, s, Lead(leader));
            && m.nodes == s.nodes[leader := Node(view, sequence + 1, false)] && m.votes == s.votes && m.reports == s.reports
            && forall i | i in Correct(c) - {leader} :: Enabled(c, m, Follow(i, sequence + 1, Some(view)))
  {
    var leader, p := view % c.n, Proposal(view % c.n, view, sequence + 1);
    assert leader in Nodes(c.n);
    forall i | i in Correct(c) - {leader} ensures (i, p) in RequestsOf(c.n, p) {}
  }

  lemma AllFollowed(c: Config, s: System, t: System, leader: NodeId, view: nat, sequence: nat)
    requires leader in Correct(c) && Correct(c) <= s.nodes.Keys && s.nodes[leader] == Node(view, sequence + 1, false)
    requires forall i | i in Correct(c) - {leader} :: s.nodes[i] == Node(view, sequence, false)
    requires AllDid(s, t, Correct(c) - {leader}, FollowIt(sequence + 1, Some(view)))
    ensures AllAt(c, t, view, sequence + 1)
  {
    forall i | i in Correct(c) ensures t.nodes[i] == Node(view, sequence + 1, false) {
      assert i != leader ==> DidAt(s, t, FollowIt(sequence + 1, Some(view)), i);
    }
  }

  /** A correct leader takes everybody one sequence further. */
  lemma LeadOne(c: Config, s: System, view: nat, sequence: nat, next: nat, on: bool) returns (steps: seq<Action>, t: System)
    requires c.n > 0 && AllAt(c, s, view, sequence) && view % c.n !in c.faulty && next == sequence + 1 <= (view + 1) * STEP
    ensures Leads(c, s, steps, t, Correct(c), [next], on) && AllAt(c, t, view, next) && Grows(s, t)
  {
    LeaderAsks(c, s, view, sequence);
    var leader := view % c.n;
    var m, others := Next(c, s, Lead(leader)), Correct(c) - {leader};
    var rest;
    rest, t := EachDoes(c, m, others, FollowIt(next, Some(view)), on);
    steps := [Lead(leader)] + rest;
    AfterFirst(c, s, Lead(leader), rest);
    NoneAdded([next]);
    AllFollowed(c, m, t, leader, view, sequence);
  }

  /** And so on up to a later one. */
  lemma {:induction false} LeadTo(c: Config, s: System, view: nat, sequence: nat, later: nat, on: bool)
    returns (steps: seq<Action>, t: System, before: seq<nat>)
    requires c.n > 0 && AllAt(c, s, view, sequence) && view % c.n !in c.faulty && sequence < later <= (view + 1) * STEP
    ensures Leads(c, s, steps, t, Correct(c), before + [later], on) && AllAt(c, t, view, later) && Grows(s, t)
    decreases later
  {
    if later == sequence + 1 {
      before := [];
      steps, t := LeadOne(c, s, view, sequence, later, on);
      NoneAdded([later]);
    } else {
      var first, m, r := LeadTo(c, s, view, sequence, later - 1, on);
      var last;
      before := r + [later - 1];
      last, t := LeadOne(c, m, view, later - 1, later, on);
      steps := first + last;
      LeadsOn(c, s, first, m, last, t, Correct(c), before, [later], on);
    }
  }

  /** In its own view a sequence is run at the request of the leader, correct or not. */
  lemma RunIt(c: Config, s: System, sequence: nat, on: bool) returns (steps: seq<Action>, t: System, before: seq<nat>)
    requires c.n > 0 && sequence > 0 && AllAt(c, s, ViewOf(sequence), ViewOf(sequence) * STEP)
    ensures Leads(c, s, steps, t, Correct(c), before + [sequence], on) && AllAt(c, t, ViewOf(sequence), sequence) && Grows(s, t)
  {
    var view: nat := ViewOf(sequence);
    if view % c.n in c.faulty {
      before := [];
      steps, t := FollowFaulty(c, s, view, view * STEP, sequence, on);
      NoneAdded([sequence]);
    } else {
      steps, t, before := LeadTo(c, s, view, view * STEP, sequence, on);
    }
  }

  /** They begin to synchronise, and adopt the state they have all reported at first. */
  lemma SyncAll(c: Config, s: System, view: nat, sequence: nat) returns (steps: seq<Action>, t: System)
    requires FewFaulty(c.n, c.faulty) && AllAt(c, s, view, sequence)
    requires forall i | i in Correct(c) :: Report(i, 0, 0) in s.reports
    ensures Leads(c, s, steps, t, Correct(c), [], false) && AllAt(c, t, 0, 0) && Grows(s, t)
  {
    var begin, m := EachDoes(c, s, Correct(c), Forget, false);
    forall i | i in Correct(c) ensures m.nodes[i] == Node(0, 0, true) { assert DidAt(s, m, Forget, i); }
    var end;
    end, t := TakeAll(c, m);
    steps := begin + end;
    LeadsOn(c, s, begin, m, end, t, Correct(c), [], [], false);
    NoneAdded([]);
  }

  lemma TakeAll(c: Config, s: System) returns (steps: seq<Action>, t: System)
    requires FewFaulty(c.n, c.faulty) && Correct(c) <= s.nodes.Keys
    requires forall i | i in Correct(c) :: s.nodes[i] == Node(0, 0, true) && Report(i, 0, 0) in s.reports
    ensures Leads(c, s, steps, t, Correct(c), [], false) && AllAt(c, t, 0, 0) && Grows(s, t)
  {
    var k := Take(Correct(c));
    CorrectAreEnough(c);
    steps, t := EachDoes(c, s, Correct(c), k, false);
    forall i | i in Correct(c) ensures t.nodes[i] == Node(0, 0, false) { assert DidAt(s, t, k, i); }
  }

  /** To the sequence's own view, and there the sequence. */
  lemma GoAndRun(c: Config, s: System, view: nat, at: nat, sequence: nat, on: bool)
    returns (steps: seq<Action>, t: System, before: seq<nat>)
    requires FewFaulty(c.n, c.faulty) && sequence > 0 && AllAt(c, s, view, at)
    requires view <= ViewOf(sequence) && (view == ViewOf(sequence) ==> at == view * STEP)
    ensures Leads(c, s, steps, t, Correct(c), before + [sequence], on) && AllAt(c, t, ViewOf(sequence), sequence) && Grows(s, t)
  {
    var first, m := GoToView(c, s, view, at, ViewOf(sequence), on);
    var rest;
    rest, t, before := RunIt(c, m, sequence, on);
    LeadsOn(c, s, first, m, rest, t, Correct(c), [], before + [sequence], on);
    NoneAdded(before + [sequence]);
    steps := first + rest;
  }

  // ---------- a sequence run twice ----------

  function Zero(n: nat): System {
    System(map a | a in Nodes(n) :: Node(0, 0, false), {}, {}, {}, {})
  }

  lemma FirstView(c: Config, f: NodeId, sequence: nat)
    requires FewFaulty(c.n, c.faulty) && f in c.faulty && sequence > (f + 1) * STEP
    ensures c.n > 0 && f % c.n == f < ViewOf(sequence) && f * STEP < (f + 1) * STEP && AllAt(c, Zero(c.n), 0, 0)
  {
    assert f in Nodes(c.n);
    SmallMod(f, c.n);
    ZeroIsAt(c);
  }

  lemma SmallMod(a: nat, n: nat)
    requires a < n
    ensures a % n == a
  {}

  lemma ZeroIsAt(c: Config)
    ensures AllAt(c, Zero(c.n), 0, 0)
  {}

  /** Views only go on, and a node that leads an earlier view is faulty: it asks for the sequence ahead
      of time, everybody follows, the quorum that finds itself past the high water line changes the
      view, and in the sequence's own view everybody runs it again. */
  lemma TwiceOnward(c: Config, sequence: nat, f: NodeId) returns (steps: seq<Action>, t: System, between: seq<nat>)
    requires FewFaulty(c.n, c.faulty) && f in c.faulty && sequence > (f + 1) * STEP
    ensures Leads(c, Zero(c.n), steps, t, Correct(c), [sequence] + (between + [sequence]), true)
  {
    var s := Zero(c.n);
    FirstView(c, f, sequence);
    var x1, s1 := GoToView(c, s, 0, 0, f, true);
    var x2, s2 := FollowFaulty(c, s1, f, f * STEP, sequence, true);
    var x3;
    x3, t, between := GoAndRun(c, s2, f, sequence, sequence, true);
    LeadsOn(c, s1, x2, s2, x3, t, Correct(c), [sequence], between + [sequence], true);
    LeadsOn(c, s, x1, s1, x2 + x3, t, Correct(c), [], [sequence] + (between + [sequence]), true);
    steps := x1 + (x2 + x3);
    NoneAdded([sequence] + (between + [sequence]));
  }

  /** Or everybody runs the sequence in its own view, synchronises, and comes there again. */
  lemma TwiceBySync(c: Config, sequence: nat) returns (steps: seq<Action>, t: System, before: seq<nat>, between: seq<nat>)
    requires FewFaulty(c.n, c.faulty) && sequence > 0
    ensures Leads(c, Zero(c.n), steps, t, Correct(c), (before + [sequence]) + (between + [sequence]), false)
  {
    var s, q := Zero(c.n), Correct(c);
    var x1, s1 := EachDoes(c, s, q, Tell, false);
    forall i | i in q ensures s1.nodes[i] == Node(0, 0, false) && Report(i, 0, 0) in s1.reports { assert DidAt(s, s1, Tell, i); }
    var x2, s2;
    x2, s2, before := GoAndRun(c, s1, 0, 0, sequence, false);
    var x3, s3 := SyncAll(c, s2, ViewOf(sequence), sequence);
    var x4;
    x4, t, between := GoAndRun(c, s3, 0, 0, sequence, false);
    var first, second := before + [sequence], between + [sequence];
    LeadsOn(c, s2, x3, s3, x4, t, q, [], second, false);
    NoneAdded(second);
    LeadsOn(c, s1, x2, s2, x3 + x4, t, q, first, second, false);
    LeadsOn(c, s, x1, s1, x2 + (x3 + x4), t, q, [], first + second, false);
    NoneAdded(first + second);
    steps := x1 + (x2 + (x3 + x4));
  }

  // ---------- exactly when ----------

  ghost predicate RunsTwice(c: Config, steps: seq<Action>, i: NodeId, sequence: nat, on: bool) {
    && CanRun(c, Zero(c.n), steps) && (on ==> GoesOn(c, Zero(c.n), steps))
    && Times(RoundsOf(c, Zero(c.n), steps, i), sequence) >= 2
  }

  lemma {:induction false} TimesBoth(a: seq<nat>, b: seq<nat>, x: nat)
    ensures Times(a + b, x) == Times(a, x) + Times(b, x)
    decreases |a|
  {
    if a == [] {
      assert a + b == b;
    } else {
      TimesBoth(a[1..], b, x);
      assert (a + b)[1..] == a[1..] + b;
    }
  }

  lemma TwiceIsTwo(before: seq<nat>, between: seq<nat>, x: nat)
    ensures Times((before + [x]) + (between + [x]), x) >= 2
  {
    TimesBoth(before + [x], between + [x], x);
    TimesBoth(before, [x], x);
    TimesBoth(between, [x], x);
  }

  /** Where views only go on, a correct node can come to run a sequence twice if and only if it is past
      the high water line of a view that a faulty node leads first. */
  lemma SequenceRunsTwiceExactly(c: Config, i: NodeId, sequence: nat)
    requires FewFaulty(c.n, c.faulty) && i in Correct(c)
    ensures (exists steps :: RunsTwice(c, steps, i, sequence, true)) <==> exists f :: f in c.faulty && sequence > (f + 1) * STEP
  {
    if f :| f in c.faulty && sequence > (f + 1) * STEP {
      var steps, t, between := TwiceOnward(c, sequence, f);
      TwiceIsTwo([], between, sequence);
      NoneAdded([sequence]);
      assert RunsTwice(c, steps, i, sequence, true);
    } else {
      forall steps ensures !RunsTwice(c, steps, i, sequence, true) {
        if RunsTwice(c, steps, i, sequence, true) { RunOnceBeforeFaultyLeaders(c, Zero(c.n), steps, i, sequence); }
      }
    }
  }

  /** With synchronisation, any sequence, and without a fault. */
  lemma SyncRunsTwice(c: Config, i: NodeId, sequence: nat) returns (steps: seq<Action>)
    requires FewFaulty(c.n, c.faulty) && i in Correct(c) && sequence > 0
    ensures RunsTwice(c, steps, i, sequence, false)
  {
    var t, before, between;
    steps, t, before, between := TwiceBySync(c, sequence);
    TwiceIsTwo(before, between, sequence);
  }
}
