/** View and sequence of the nodes: rounds, view changes, state sync, and the water lines that
    keep the proposals of different views apart. */
module WaterLine {
  import opened Quorum
  import opened Wrappers
  import opened RisingLists

  // WATER_LINE_STEP_LENGTH
  const STEP: nat := 1111 + 926

  datatype Node = Node(view: nat, sequence: nat, syncing: bool) {
    function LowWaterLine(): nat { view * STEP }
    function HighWaterLine(): nat { LowWaterLine() + STEP }
  }

  /** A process-state response. */
  datatype Report = Report(sender: NodeId, view: nat, sequence: nat)

  /** A sequence that a leader has put in an amalgamate request. */
  datatype Proposal = Proposal(leader: NodeId, view: nat, sequence: nat)

  /** A signed view change: its sender wants to leave this view, at this sequence. */
  datatype Vote = Vote(sender: NodeId, view: nat, sequence: nat)

  /** The nodes, everything correct nodes have reported, proposed and voted for so far, and the
      amalgamate requests of correct leaders on their way to a node. */
  datatype System = System(
    nodes: map<NodeId, Node>,
    reports: set<Report>,
    proposals: set<Proposal>,
    votes: set<Vote>,
    requests: set<(NodeId, Proposal)>)

  datatype Config = Config(n: nat, faulty: set<NodeId>)

  datatype Action =
    | Lead(i: NodeId)                                     // amalgamate.run on the leader
    | Follow(i: NodeId, sequence: nat, asked: Option<nat>) // a request, sent in this view or by a faulty leader
    | AskView(i: NodeId, view: nat)                       // a vote to leave a view
    | ChangeView(i: NodeId, view: nat, sequence: nat, backers: set<NodeId>)
    | NewView(i: NodeId, view: nat, sequence: nat, backers: set<NodeId>)
    | StartSync(i: NodeId)                                // fetchProcessState.run
    | Respond(i: NodeId)                                  // an answer to a process-state request
    | Adopt(i: NodeId, view: nat, sequence: nat, backers: set<NodeId>)
    | GoAlone(i: NodeId)                                  // nobody else is there to answer

  predicate IsLeader(c: Config, i: NodeId, view: nat) {
    c.n > 0 && view % c.n == i
  }

  /** The leader of the node's view, told by its place in the list alone, has asked for the sequence. */
  predicate Requested(c: Config, s: System, i: NodeId, view: nat, sequence: nat, asked: Option<nat>)
    requires c.n > 0
  {
    match asked
    case None => view % c.n in c.faulty
    case Some(earlier) => (i, Proposal(view % c.n, earlier, sequence)) in s.requests
  }

  /** A quorum has voted to leave the view at this sequence; faulty nodes vote for anything. */
  predicate Agreed(c: Config, s: System, view: nat, sequence: nat, backers: set<NodeId>) {
    && backers <= Nodes(c.n) && |backers| >= Threshold(c.n)
    && forall b | b in backers && b !in c.faulty :: Vote(b, view, sequence) in s.votes
  }

  predicate Enabled(c: Config, s: System, a: Action) {
    a.i < c.n && a.i !in c.faulty && a.i in s.nodes &&
    var node := s.nodes[a.i];
    match a
    case Lead(i) => !node.syncing && IsLeader(c, i, node.view) && node.sequence < node.HighWaterLine()
    case Follow(i, sequence, asked) =>
      !node.syncing && node.sequence < node.HighWaterLine() && sequence > node.sequence
      && Requested(c, s, i, node.view, sequence, asked)
    case AskView(_, view) =>
      view == node.view || (node.view < view <= node.view + c.n && node.sequence >= node.HighWaterLine())
    case ChangeView(_, view, sequence, backers) => !node.syncing && Agreed(c, s, view, sequence, backers)
    case NewView(_, view, sequence, backers) =>
      !node.syncing && Agreed(c, s, view, sequence, backers) && view + 1 > node.view && sequence == node.sequence
    case StartSync(_) => true
    case Respond(_) => true
    case Adopt(_, view, sequence, backers) =>
      node.syncing && backers <= Nodes(c.n) && |backers| >= ThirdThreshold(c.n) &&
      forall b | b in backers && b !in c.faulty :: Report(b, view, sequence) in s.reports
    case GoAlone(_) => node.syncing && c.n <= 1
  }

  function RequestsOf(n: nat, p: Proposal): set<(NodeId, Proposal)> {
    set j | j in Nodes(n) && j != p.leader :: (j, p)
  }

  function Next(c: Config, s: System, a: Action): System
    requires Enabled(c, s, a)
  {
    var i, node := a.i, s.nodes[a.i];
    match a
    case Lead(_) =>
      var p := Proposal(i, node.view, node.sequence + 1);
      s.(nodes := s.nodes[i := node.(sequence := node.sequence + 1)],
         proposals := s.proposals + {p}, requests := s.requests + RequestsOf(c.n, p))
    case Follow(_, sequence, asked) =>
      s.(nodes := s.nodes[i := node.(sequence := sequence)],
         requests := if asked.Some? then s.requests - {(i, Proposal(node.view % c.n, asked.value, sequence))} else s.requests)
    case AskView(_, view) => s.(votes := s.votes + {Vote(i, view, node.sequence)})
    case ChangeView(_, view, _, _) => s.(nodes := s.nodes[i := Node(view + 1, (view + 1) * STEP, false)])
    case NewView(_, view, _, _) => s.(nodes := s.nodes[i := Node(view + 1, (view + 1) * STEP, false)])
    case StartSync(_) => s.(nodes := s.nodes[i := Node(0, 0, true)])
    case Respond(_) => s.(reports := s.reports + {Report(i, node.view, node.sequence)})
    case Adopt(_, view, sequence, _) => s.(nodes := s.nodes[i := Node(view, sequence, false)])
    case GoAlone(_) => s.(nodes := s.nodes[i := node.(syncing := false)])
  }

  predicate Start(s: System) {
    s.reports == {} && s.proposals == {} && s.votes == {} && s.requests == {} &&
    forall i | i in s.nodes :: s.nodes[i].view == 0 && s.nodes[i].sequence == 0
  }

  predicate CanRun(c: Config, s: System, actions: seq<Action>)
    decreases |actions|
  {
    actions == [] || (Enabled(c, s, actions[0]) && CanRun(c, Next(c, s, actions[0]), actions[1..]))
  }

  function Run(c: Config, s: System, actions: seq<Action>): System
    requires CanRun(c, s, actions)
    decreases |actions|
  {
    if actions == [] then s else Run(c, Next(c, s, actions[0]), actions[1..])
  }

  ghost predicate Invariant(c: Config, s: System) {
    && (forall i | i in s.nodes && i < c.n && i !in c.faulty :: s.nodes[i].sequence >= s.nodes[i].LowWaterLine())
    && (forall r | r in s.reports :: r.sequence >= r.view * STEP)
    && (forall p | p in s.proposals :: IsLeader(c, p.leader, p.view) && p.view * STEP < p.sequence <= (p.view + 1) * STEP)
    && (forall x | x in s.requests :: x.1 in s.proposals && x.0 != x.1.leader)
  }

  lemma StepKeeps(c: Config, s: System, a: Action)
    requires FewFaulty(c.n, c.faulty) && Invariant(c, s) && Enabled(c, s, a)
    ensures Invariant(c, Next(c, s, a))
  {
    if a.Adopt? {
      var b := ThirdHasCorrect(c.n, c.faulty, a.backers);
      assert Report(b, a.view, a.sequence) in s.reports;
    }
  }

  lemma {:induction false} RunKeeps(c: Config, s: System, actions: seq<Action>)
    requires FewFaulty(c.n, c.faulty) && Invariant(c, s) && CanRun(c, s, actions)
    ensures Invariant(c, Run(c, s, actions))
    decreases |actions|
  {
    if actions != [] {
      StepKeeps(c, s, actions[0]);
      RunKeeps(c, Next(c, s, actions[0]), actions[1..]);
    }
  }

  /** In every reachable state a correct node's sequence has reached the low water line of its
      view, so the check at the start of a round never ends the process. */
  lemma FatalCheckNeverFires(c: Config, s: System, actions: seq<Action>, i: NodeId)
    requires FewFaulty(c.n, c.faulty) && Start(s) && CanRun(c, s, actions)
    requires i in s.nodes && i < c.n && i !in c.faulty
    ensures i in Run(c, s, actions).nodes
    ensures Run(c, s, actions).nodes[i].sequence >= 2037 * Run(c, s, actions).nodes[i].view
  {
    RunKeeps(c, s, actions);
    NodesStay(c, s, actions, i);
  }

  lemma {:induction false} NodesStay(c: Config, s: System, actions: seq<Action>, i: NodeId)
    requires CanRun(c, s, actions) && i in s.nodes
    ensures i in Run(c, s, actions).nodes
    decreases |actions|
  {
    if actions != [] { NodesStay(c, Next(c, s, actions[0]), actions[1..], i); }
  }

  /** Correct leaders propose only inside the water lines of their view, and a sequence proposed
      twice was proposed in one view, by that view's one leader. */
  lemma ProposalsDoNotCollide(c: Config, s: System, actions: seq<Action>, p: Proposal, q: Proposal)
    requires FewFaulty(c.n, c.faulty) && Start(s) && CanRun(c, s, actions)
    requires p in Run(c, s, actions).proposals && q in Run(c, s, actions).proposals
    ensures p.view * STEP < p.sequence <= (p.view + 1) * STEP
    ensures p.sequence == q.sequence ==> p.view == q.view && p.leader == q.leader
  {
    RunKeeps(c, s, actions);
  }

  // ---------- when sequences are run once ----------

  /** The sequences of the rounds that a node takes part in, as leader or follower. */
  function RoundsOf(c: Config, s: System, actions: seq<Action>, i: NodeId): seq<nat>
    requires CanRun(c, s, actions)
    decreases |actions|
  {
    if actions == [] then []
    else
      var a, rest := actions[0], RoundsOf(c, Next(c, s, actions[0]), actions[1..], i);
      if a.Lead? && a.i == i then [s.nodes[i].sequence + 1] + rest
      else if a.Follow? && a.i == i then [a.sequence] + rest
      else rest
  }

  lemma ViewsAreApart(view: nat, later: nat)
    requires view < later
    ensures view * STEP + STEP <= later * STEP
  {}

  /** A node's sequence falls when a view change or a new view brings it to a low water line behind
      it, when synchronisation begins, and when it adopts a sequence that is behind. */
  lemma FallsExactly(c: Config, s: System, a: Action, i: NodeId)
    requires Enabled(c, s, a) && i in s.nodes
    ensures Next(c, s, a).nodes[i].sequence < s.nodes[i].sequence <==>
            var sequence := s.nodes[i].sequence;
            a.i == i &&
            match a
            case ChangeView(_, view, _, _) => (view + 1) * STEP < sequence
            case NewView(_, view, _, _) => (view + 1) * STEP < sequence
            case StartSync(_) => sequence > 0
            case Adopt(_, _, adopted, _) => adopted < sequence
            case _ => false
  {}

  predicate NeverFalls(c: Config, s: System, actions: seq<Action>, i: NodeId)
    requires CanRun(c, s, actions) && i in s.nodes
    decreases |actions|
  {
    actions == [] ||
    (Next(c, s, actions[0]).nodes[i].sequence >= s.nodes[i].sequence && NeverFalls(c, Next(c, s, actions[0]), actions[1..], i))
  }

  lemma RoundsFirst(c: Config, s: System, actions: seq<Action>, i: NodeId, from: nat)
    requires CanRun(c, s, actions) && actions != [] && i in s.nodes
    requires var rest, s' := RoundsOf(c, Next(c, s, actions[0]), actions[1..], i), Next(c, s, actions[0]);
             if actions[0].i == i && (actions[0].Lead? || actions[0].Follow?)
             then s'.nodes[i].sequence > from && Rising(s'.nodes[i].sequence, rest) else Rising(from, rest)
    ensures Rising(from, RoundsOf(c, s, actions, i))
  {
    var rest := RoundsOf(c, Next(c, s, actions[0]), actions[1..], i);
    assert forall x: nat :: ([x] + rest)[1..] == rest;
  }

  /** A node whose sequence never falls never runs a sequence twice, nor an earlier one after a later
      one. */
  lemma {:induction false} RoundsRiseWithoutFalls(c: Config, s: System, actions: seq<Action>, i: NodeId)
    requires CanRun(c, s, actions) && i in s.nodes && NeverFalls(c, s, actions, i)
    ensures Rising(s.nodes[i].sequence, RoundsOf(c, s, actions, i))
    decreases |actions|
  {
    if actions != [] {
      var s' := Next(c, s, actions[0]);
      RoundsRiseWithoutFalls(c, s', actions[1..], i);
      RisingFrom(s.nodes[i].sequence, s'.nodes[i].sequence, RoundsOf(c, s', actions[1..], i));
      RoundsFirst(c, s, actions, i, s.nodes[i].sequence);
    }
  }

  /** What a calm node does: it follows no sequence beyond its high water line; the views agreed on
      are not behind its own; and what it adopts in a synchronisation is not behind the highest
      sequence it has had, nor beyond the high water line. */
  predicate CalmStep(node: Node, a: Action, top: nat) {
    match a
    case Follow(_, sequence, _) => sequence <= node.HighWaterLine()
    case ChangeView(_, view, _, _) => view >= node.view
    case Adopt(_, view, sequence, _) => top <= sequence <= (view + 1) * STEP
    case GoAlone(_) => top <= node.sequence
    case _ => true
  }

  /** The other nodes do what they like. */
  predicate CalmFrom(c: Config, s: System, actions: seq<Action>, i: NodeId, top: nat)
    requires CanRun(c, s, actions) && i in s.nodes
    decreases |actions|
  {
    if actions == [] then true
    else
      var a, s' := actions[0], Next(c, s, actions[0]);
      if a.i != i then CalmFrom(c, s', actions[1..], i, top)
      else
        CalmStep(s.nodes[i], a, top) &&
        CalmFrom(c, s', actions[1..], i, if s'.nodes[i].sequence > top then s'.nodes[i].sequence else top)
  }

  predicate Calm(c: Config, s: System, actions: seq<Action>, i: NodeId)
    requires CanRun(c, s, actions) && i in s.nodes
  {
    CalmFrom(c, s, actions, i, s.nodes[i].sequence)
  }

  /** Not beyond the high water line; at its highest unless its state is lost. */
  predicate InLine(node: Node, top: nat) {
    node.sequence <= node.HighWaterLine() && node.sequence <= top && (!node.syncing ==> node.sequence == top)
  }

  lemma CalmStepRises(c: Config, s: System, a: Action, top: nat)
    requires Enabled(c, s, a) && CalmStep(s.nodes[a.i], a, top) && InLine(s.nodes[a.i], top)
    ensures var node' := Next(c, s, a).nodes[a.i];
            && InLine(node', if node'.sequence > top then node'.sequence else top)
            && (a.Lead? || a.Follow? ==> node'.sequence > top)
  {
    if a.ChangeView? || a.NewView? { ViewsAreApart(s.nodes[a.i].view, a.view + 1); }
  }

  lemma {:induction false} CalmRoundsRiseFrom(c: Config, s: System, actions: seq<Action>, i: NodeId, top: nat)
    requires CanRun(c, s, actions) && i in s.nodes && CalmFrom(c, s, actions, i, top) && InLine(s.nodes[i], top)
    ensures Rising(top, RoundsOf(c, s, actions, i))
    decreases |actions|
  {
    if actions != [] {
      var a, s' := actions[0], Next(c, s, actions[0]);
      if a.i != i {
        CalmRoundsRiseFrom(c, s', actions[1..], i, top);
      } else {
        CalmStepRises(c, s, a, top);
        var top' := if s'.nodes[i].sequence > top then s'.nodes[i].sequence else top;
        CalmRoundsRiseFrom(c, s', actions[1..], i, top');
        RisingFrom(top, top', RoundsOf(c, s', actions[1..], i));
      }
      RoundsFirst(c, s, actions, i, top);
    }
  }

  /** A calm node, whatever the others do, never runs a sequence twice, nor an earlier one after a
      later one. */
  lemma CalmRoundsRise(c: Config, s: System, actions: seq<Action>, i: NodeId)
    requires CanRun(c, s, actions) && i in s.nodes && Calm(c, s, actions, i)
    requires s.nodes[i].sequence <= s.nodes[i].HighWaterLine()
    ensures Rising(s.nodes[i].sequence, RoundsOf(c, s, actions, i))
  {
    CalmRoundsRiseFrom(c, s, actions, i, s.nodes[i].sequence);
  }

  // ---------- the object that holds view and sequence ----------

  datatype RoundStart = Fatal | TryNextView | Request(sequence: nat) | AwaitLeader

  class Ripple {
    const i: NodeId
    const n: nat
    var view: nat
    var sequence: nat
    var fetching: bool

    function Record(): Node
      reads this
    {
      Node(view, sequence, fetching)
    }

    /** The object is a correct node of the system. */
    ghost predicate StandsIn(c: Config, s: System)
      reads this
    {
      c.n == n && i < n && i !in c.faulty && i in s.nodes && s.nodes[i] == Record()
    }

    constructor (i: NodeId, n: nat)
      ensures this.i == i && this.n == n && Record() == Node(0, 0, false)
    {
      this.i, this.n, view, sequence, fetching := i, n, 0, 0, false;
    }

    method CheckLeader(address: NodeId) returns (leader: bool)
      requires n > 0
      ensures leader <==> view % n == address
    {
      leader := view % n == address;
    }

    /** The start of a round. Only a leader below the high water line takes a step: it advances its
        sequence and sends it to the others. */
    method AmalgamateRun(ghost c: Config, ghost s: System) returns (start: RoundStart)
      requires StandsIn(c, s) && !fetching
      modifies this`sequence
      ensures start == if old(sequence) < 2037 * view then Fatal
                       else if old(sequence) >= 2037 * (view + 1) then TryNextView
                       else if view % n == i then Request(old(sequence) + 1)
                       else AwaitLeader
      ensures start.Request? ==> Enabled(c, s, Lead(i)) && StandsIn(c, Next(c, s, Lead(i)))
                                 && Proposal(i, view, start.sequence) in Next(c, s, Lead(i)).proposals
      ensures !start.Request? ==> Record() == old(Record())
    {
      if sequence < Record().LowWaterLine() { return Fatal; }
      if sequence >= Record().HighWaterLine() { return TryNextView; }
      var leader := CheckLeader(i);
      if !leader { return AwaitLeader; }
      sequence := sequence + 1;
      start := Request(sequence);
    }

    /** An amalgamate request, in a round begun below the high water line. What a correct sender has
        asked for is on its way to the node, from whichever view the sender was in. */
    method AmalgamateRequested(sender: NodeId, newSequence: nat, ghost asked: Option<nat>, ghost c: Config, ghost s: System)
      returns (ok: bool)
      requires StandsIn(c, s) && !fetching && sequence < Record().HighWaterLine()
      requires if asked.Some? then (i, Proposal(sender, asked.value, newSequence)) in s.requests else sender in c.faulty
      modifies this`sequence
      ensures ok <==> view % n == sender && newSequence > old(sequence)
      ensures ok ==> Enabled(c, s, Follow(i, newSequence, asked)) && StandsIn(c, Next(c, s, Follow(i, newSequence, asked)))
      ensures !ok ==> Record() == old(Record())
    {
      var leader := CheckLeader(sender);
      if !leader || newSequence <= sequence { return false; }
      sequence := newSequence;
      ok := true;
    }

    /** A view change agreed on by a quorum. */
    method ViewChanged(agreed: nat, ghost at: nat, ghost backers: set<NodeId>, ghost c: Config, ghost s: System)
      requires StandsIn(c, s) && !fetching && Agreed(c, s, agreed, at, backers)
      modifies this
      ensures Enabled(c, s, ChangeView(i, agreed, at, backers)) && StandsIn(c, Next(c, s, ChangeView(i, agreed, at, backers)))
    {
      view := agreed + 1;
      sequence := Record().LowWaterLine();
    }

    /** A new-view message whose list of view changes has passed its checks. */
    method NewViewRequested(agreed: nat, agreedSequence: nat, ghost backers: set<NodeId>, ghost c: Config, ghost s: System)
      returns (ok: bool)
      requires StandsIn(c, s) && !fetching && Agreed(c, s, agreed, agreedSequence, backers)
      modifies this
      ensures ok <==> agreed + 1 > old(view) && agreedSequence == old(sequence)
      ensures ok ==> Enabled(c, s, NewView(i, agreed, agreedSequence, backers))
                     && StandsIn(c, Next(c, s, NewView(i, agreed, agreedSequence, backers)))
      ensures !ok ==> Record() == old(Record())
    {
      if agreed + 1 <= view || sequence != agreedSequence { return false; }
      view := agreed + 1;
      sequence := Record().LowWaterLine();
      ok := true;
    }

    /** Synchronisation starts by forgetting view and sequence. */
    method FetchProcessState(ghost c: Config, ghost s: System)
      requires StandsIn(c, s)
      modifies this
      ensures Enabled(c, s, StartSync(i)) && StandsIn(c, Next(c, s, StartSync(i)))
    {
      view, sequence, fetching := 0, 0, true;
    }

    /** Enough equal reports: take over their view and sequence. */
    method StateFetched(newView: nat, newSequence: nat, ghost backers: set<NodeId>, ghost c: Config, ghost s: System)
      requires StandsIn(c, s) && Enabled(c, s, Adopt(i, newView, newSequence, backers))
      modifies this
      ensures StandsIn(c, Next(c, s, Adopt(i, newView, newSequence, backers)))
    {
      view, sequence, fetching := newView, newSequence, false;
    }
  }
}
