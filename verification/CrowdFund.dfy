/** The crowd-funding contract: contributions until the end, then refunds if the target was
    missed, or one payout of everything if it was reached. */
module CrowdFund {
  import opened Bytes
  import opened Rlp
  import opened Sums
  import opened Wrappers

  datatype Terms = Terms(beginTime: nat, endTime: nat, receiver: Address, target: nat, limit: nat)

  datatype State = State(terms: Terms, destroyed: bool, funds: map<Address, nat>)

  datatype Command = Fund | Refund | Receive | Unknown

  /** `refund` goes back to the sender; `payout` is the whole balance, to the receiver. */
  datatype Result = Failed | Done(state: State, refund: nat, payout: bool)

  // ---------- the encoded contributions ----------

  const FUND_INFO_LENGTH := 6000

  /** A contribution: the address in hexadecimal digits, and the amount. */
  function EntrySize(a: Address, amount: nat): nat {
    var l := ByteLength(amount);
    ListSize(HeaderSize(2 * |a|) + 2 * |a| + if l == 1 && amount < 128 then 1 else HeaderSize(l) + l)
  }

  function Sizes(funds: map<Address, nat>): map<Address, nat> { map a | a in funds :: EntrySize(a, funds[a]) }

  /** The encoded list of contributions fits its field. */
  ghost predicate Fits(funds: map<Address, nat>) { ListSize(Sum(Sizes(funds))) <= FUND_INFO_LENGTH }

  lemma SizesWithout(funds: map<Address, nat>, a: Address)
    requires a in funds
    ensures Sum(Sizes(funds)) == EntrySize(a, funds[a]) + Sum(Sizes(funds - {a}))
  {
    SumWithout(Sizes(funds), a);
    assert Sizes(funds - {a}) == Sizes(funds) - {a};
  }

  method EncodeMap(funds: map<Address, nat>) returns (fits: bool)
    ensures fits <==> Fits(funds)
  {
    var payload, left := 0, funds;
    while left != map[]
      invariant payload + Sum(Sizes(left)) == Sum(Sizes(funds))
      decreases |left|
    {
      var a :| a in left;
      SizesWithout(left, a);
      payload := payload + EntrySize(a, left[a]);
      left := left - {a};
    }
    fits := ListSize(payload) <= FUND_INFO_LENGTH;
  }

  lemma FewerFit(funds: map<Address, nat>, a: Address)
    requires Fits(funds)
    ensures Fits(funds - {a})
  {
    if a in funds {
      SizesWithout(funds, a);
      ListSizeGrows(Sum(Sizes(funds - {a})), Sum(Sizes(funds)));
    } else {
      assert funds - {a} == funds;
    }
  }

  // ---------- what a command does ----------

  function At(m: map<Address, nat>, a: Address): nat { if a in m then m[a] else 0 }

  ghost function FundTo(c: State, sender: Address, value: nat): Result {
    var funds := c.funds[sender := value + At(c.funds, sender)];
    if c.terms.limit > value || !Fits(funds) then Failed else Done(c.(funds := funds), 0, false)
  }

  ghost function RefundTo(c: State, sender: Address, balance: nat): Result {
    if balance >= c.terms.target then Failed
    else if sender !in c.funds then Done(c, 0, false)
    else if Fits(c.funds - {sender}) then Done(c.(funds := c.funds - {sender}), c.funds[sender], false)
    else Failed
  }

  ghost function ReceiveAll(c: State, balance: nat): Result {
    if balance < c.terms.target then Failed else Done(c.(destroyed := true), 0, true)
  }

  /** A command that carries `value` coins, which `balance` already includes. */
  ghost function Handle(c: State, command: Command, sender: Address, value: nat, now: nat, balance: nat): Result {
    if c.destroyed then Failed
    else
      match command
      case Fund => if c.terms.beginTime > now || c.terms.endTime < now then Failed else FundTo(c, sender, value)
      case Refund => if c.terms.endTime > now then Failed else RefundTo(c, sender, balance)
      case Receive => if c.terms.endTime > now then Failed else ReceiveAll(c, balance)
      case Unknown => Failed
  }

  /** The contract object; an exception in the code is `ok == false`, and the object is dropped. */
  class Contract {
    const terms: Terms
    var destroyed: bool
    var funds: map<Address, nat>

    function Fields(): State
      reads this
    {
      State(terms, destroyed, funds)
    }

    constructor (c: State)
      ensures Fields() == c
    {
      terms, destroyed, funds := c.terms, c.destroyed, c.funds;
    }

    method AddToEntry(sender: Address, value: nat)
      modifies this`funds
      ensures funds == old(funds)[sender := value + At(old(funds), sender)]
    {
      if sender in funds {
        var originValue := funds[sender];
        funds := funds[sender := originValue + value];
      } else {
        funds := funds[sender := value];
      }
    }

    method Fund(sender: Address, value: nat) returns (ok: bool)
      modifies this`funds
      ensures FundTo(old(Fields()), sender, value) == if ok then Done(Fields(), 0, false) else Failed
    {
      if terms.limit > value { return false; }
      AddToEntry(sender, value);
      ok := EncodeMap(funds);
    }

    method Refund(sender: Address, balance: nat) returns (ok: bool, refund: nat)
      modifies this`funds
      ensures RefundTo(old(Fields()), sender, balance) == if ok then Done(Fields(), refund, false) else Failed
    {
      refund := 0;
      if balance >= terms.target { return false, 0; }
      ok := true;
      if sender in funds {
        refund := funds[sender];
        funds := funds - {sender};
        ok := EncodeMap(funds);
      }
    }

    /** Pays everything out: the contract is destroyed, its balance goes to the receiver. */
    method Receive(balance: nat) returns (ok: bool)
      modifies this`destroyed
      ensures ReceiveAll(old(Fields()), balance) == if ok then Done(Fields(), 0, true) else Failed
    {
      if balance < terms.target { return false; }
      destroyed, ok := true, true;
    }

    /** Dispatches a command, after the check that the contract still lives. */
    method Run(command: Command, sender: Address, value: nat, now: nat, balance: nat)
      returns (ok: bool, refund: nat, payout: bool)
      modifies this
      ensures Handle(old(Fields()), command, sender, value, now, balance) ==
              if ok then Done(Fields(), refund, payout) else Failed
    {
      ok, refund, payout := false, 0, false;
      if destroyed { return; }
      match command
      case Fund =>
        if terms.beginTime > now || terms.endTime < now { return; }
        ok := Fund(sender, value);
      case Refund =>
        if terms.endTime > now { return; }
        ok, refund := Refund(sender, balance);
      case Receive =>
        if terms.endTime > now { return; }
        ok := Receive(balance);
        payout := ok;
      case Unknown =>
    }
  }

  // ---------- whole lives of a contract ----------

  datatype Event =
    | Transaction(command: Command, sender: Address, value: nat, now: nat)
    | Deposit(amount: nat)

  /** The contract and its balance, what each address has been paid back so far, what was paid out at
      the end, and the coins received in all. */
  datatype Life = Life(state: State, balance: nat, refunded: map<Address, nat>, paidOut: Option<nat>, received: nat)

  function Start(terms: Terms, balance: nat): Life { Life(State(terms, false, map[]), balance, map[], None, balance) }

  ghost function Live(l: Life, e: Event): Life {
    match e
    case Deposit(amount) => l.(balance := l.balance + amount, received := l.received + amount)
    case Transaction(command, sender, value, now) =>
      Settle(l, command, sender, value, Handle(l.state, command, sender, value, now, l.balance + value))
  }

  function Settle(l: Life, command: Command, sender: Address, value: nat, r: Result): Life {
    match r
    case Failed => l
    case Done(c, refund, payout) =>
      var balance := l.balance + value;
      Life(c,
           if payout || refund > balance then 0 else balance - refund,
           if command.Refund? then l.refunded[sender := At(l.refunded, sender) + refund] else l.refunded,
           if payout then Some(balance) else l.paidOut,
           l.received + value)
  }

  ghost function Lives(l: Life, events: seq<Event>): Life {
    if events == [] then l else Live(Lives(l, events[..|events| - 1]), events[|events| - 1])
  }

  /** What one event adds to the contributions of an address. */
  ghost function Added(l: Life, e: Event, a: Address): nat {
    if e.Transaction? && e.command.Fund? && e.sender == a &&
       Handle(l.state, Fund, a, e.value, e.now, l.balance + e.value).Done? then e.value else 0
  }

  /** What an address has put in by accepted fund commands. */
  ghost function Contributed(l: Life, events: seq<Event>, a: Address): nat {
    if events == [] then 0
    else
      var prior := events[..|events| - 1];
      Contributed(l, prior, a) + Added(Lives(l, prior), events[|events| - 1], a)
  }

  /** While the contract lives, its balance covers all recorded contributions. */
  ghost predicate Solvent(c: State, balance: nat) {
    !c.destroyed ==> Sum(c.funds) <= balance
  }

  /** A refund of a solvent contract never asks for more than the contract holds, and leaves it solvent. */
  lemma HandleKeepsSolvent(c: State, command: Command, sender: Address, value: nat, now: nat, balance: nat)
    requires Solvent(c, balance)
    ensures var r := Handle(c, command, sender, value, now, balance + value);
            r.Done? ==> r.refund <= balance + value && Solvent(r.state, balance + value - r.refund)
  {
    if !c.destroyed {
      match command
      case Fund => SumUpdate(c.funds, sender, At(c.funds, sender) + value);
      case Refund => if sender in c.funds { SumWithout(c.funds, sender); }
      case Receive =>
      case Unknown =>
    }
  }

  /** The field of the contributions limits them, and nothing else: a refund always fits. */
  lemma OnlyFundsAreLimited(c: State, command: Command, sender: Address, value: nat, now: nat, balance: nat)
    requires Fits(c.funds)
    ensures var r := Handle(c, command, sender, value, now, balance);
            && (r.Done? ==> Fits(r.state.funds))
            && (command.Refund? ==> (r.Done? <==> !c.destroyed && c.terms.endTime <= now && balance < c.terms.target))
  {
    FewerFit(c.funds, sender);
  }

  /** What a command does to the entry of an address. */
  lemma HandleAddsUp(c: State, command: Command, sender: Address, value: nat, now: nat, balance: nat, a: Address)
    ensures var r := Handle(c, command, sender, value, now, balance);
            r.Done? ==>
              At(r.state.funds, a) + (if command.Refund? && sender == a then r.refund else 0)
              == At(c.funds, a) + if command.Fund? && sender == a then value else 0
  {}

  lemma LiveAddsUp(l: Life, e: Event, a: Address)
    requires Solvent(l.state, l.balance)
    ensures var l' := Live(l, e);
            Solvent(l'.state, l'.balance) &&
            At(l'.refunded, a) + At(l'.state.funds, a) == At(l.refunded, a) + At(l.state.funds, a) + Added(l, e, a)
  {
    if e.Transaction? {
      HandleKeepsSolvent(l.state, e.command, e.sender, e.value, e.now, l.balance);
      HandleAddsUp(l.state, e.command, e.sender, e.value, e.now, l.balance + e.value, a);
    }
  }

  /** In every life of a contract: it stays solvent until it is destroyed, and what an address has
      been paid back plus what is recorded for it is what it has contributed, so each refund pays
      what was contributed since the last. */
  lemma {:induction false} RefundsAreExact(terms: Terms, balance: nat, events: seq<Event>, a: Address)
    ensures var l := Lives(Start(terms, balance), events);
            Solvent(l.state, l.balance) &&
            At(l.refunded, a) + At(l.state.funds, a) == Contributed(Start(terms, balance), events, a)
  {
    if events != [] {
      var prior, e := events[..|events| - 1], events[|events| - 1];
      RefundsAreExact(terms, balance, prior, a);
      LiveAddsUp(Lives(Start(terms, balance), prior), e, a);
    }
  }

  /** After the payout no command runs any more, and no coin leaves. */
  lemma {:induction false} NothingAfterReceive(l: Life, events: seq<Event>)
    requires l.state.destroyed
    ensures var l' := Lives(l, events); l'.state == l.state && l'.refunded == l.refunded && l'.balance >= l.balance
  {
    if events != [] { NothingAfterReceive(l, events[..|events| - 1]); }
  }

  // ---------- when commands succeed ----------

  /** In every life: the terms stay, and the coins received are those held, paid back and paid out; there
      is at most one payout, of at least the target, and the contract is destroyed exactly by it. */
  ghost predicate AddsUp(terms: Terms, l: Life) {
    && l.state.terms == terms && Solvent(l.state, l.balance)
    && l.balance + Sum(l.refunded) + (if l.paidOut.Some? then l.paidOut.value else 0) == l.received
    && (l.paidOut.Some? <==> l.state.destroyed) && (l.paidOut.Some? ==> l.paidOut.value >= terms.target)
  }

  lemma SettleKeepsSum(terms: Terms, l: Life, command: Command, sender: Address, value: nat, r: Result)
    requires AddsUp(terms, l) && r.Done? && r.refund <= l.balance + value && !l.state.destroyed && r.state.terms == terms
    requires Solvent(r.state, l.balance + value - r.refund) && (!command.Refund? ==> r.refund == 0)
    requires (r.payout <==> r.state.destroyed) && (r.payout ==> r.refund == 0 && terms.target <= l.balance + value && !command.Refund?)
    ensures AddsUp(terms, Settle(l, command, sender, value, r))
  {
    if command.Refund? { SumUpdate(l.refunded, sender, At(l.refunded, sender) + r.refund); }
  }

  lemma LiveKeepsSum(terms: Terms, l: Life, e: Event)
    requires AddsUp(terms, l)
    ensures AddsUp(terms, Live(l, e))
  {
    if e.Transaction? {
      HandleKeepsSolvent(l.state, e.command, e.sender, e.value, e.now, l.balance);
      var r := Handle(l.state, e.command, e.sender, e.value, e.now, l.balance + e.value);
      if r.Done? { SettleKeepsSum(terms, l, e.command, e.sender, e.value, r); }
    }
  }

  lemma {:induction false} EveryLifeAddsUp(terms: Terms, balance: nat, events: seq<Event>)
    ensures AddsUp(terms, Lives(Start(terms, balance), events))
  {
    if events != [] {
      EveryLifeAddsUp(terms, balance, events[..|events| - 1]);
      LiveKeepsSum(terms, Lives(Start(terms, balance), events[..|events| - 1]), events[|events| - 1]);
    }
  }

  /** What a command asks for is due: a contribution between begin and end and at or above the limit, whose
      entry the field can hold; a refund from the end on with the target missed; the payout from the end
      on with the target reached. */
  ghost predicate Due(c: State, command: Command, sender: Address, value: nat, now: nat, balance: nat) {
    !c.destroyed &&
    match command
    case Fund =>
      c.terms.beginTime <= now <= c.terms.endTime && c.terms.limit <= value &&
      Fits(c.funds[sender := value + At(c.funds, sender)])
    case Refund => c.terms.endTime <= now && balance < c.terms.target
    case Receive => c.terms.endTime <= now && c.terms.target <= balance
    case Unknown => false
  }

  ghost predicate DueAfter(l: Life, e: Event)
    requires e.Transaction?
  {
    Due(l.state, e.command, e.sender, e.value, e.now, l.balance + e.value)
  }

  /** What a command that is due results in. */
  ghost function DueResult(c: State, command: Command, sender: Address, value: nat): Result {
    match command
    case Fund => Done(c.(funds := c.funds[sender := value + At(c.funds, sender)]), 0, false)
    case Refund => Done(c.(funds := c.funds - {sender}), At(c.funds, sender), false)
    case Receive => Done(c.(destroyed := true), 0, true)
    case Unknown => Failed
  }

  lemma FundExactly(c: State, sender: Address, value: nat, now: nat, balance: nat)
    ensures Handle(c, Fund, sender, value, now, balance) ==
            if Due(c, Fund, sender, value, now, balance) then DueResult(c, Fund, sender, value) else Failed
  {}

  lemma RefundExactly(c: State, sender: Address, value: nat, now: nat, balance: nat)
    requires Fits(c.funds)
    ensures Handle(c, Refund, sender, value, now, balance) ==
            if Due(c, Refund, sender, value, now, balance) then DueResult(c, Refund, sender, value) else Failed
  {
    FewerFit(c.funds, sender);
    if sender !in c.funds { assert c.funds - {sender} == c.funds; }
  }

  /** A command does what it asks for exactly when that is due. */
  lemma HandleExactly(c: State, command: Command, sender: Address, value: nat, now: nat, balance: nat)
    requires Fits(c.funds)
    ensures Handle(c, command, sender, value, now, balance) ==
            if Due(c, command, sender, value, now, balance) then DueResult(c, command, sender, value) else Failed
  {
    if command.Fund? {
      FundExactly(c, sender, value, now, balance);
    } else if command.Refund? {
      RefundExactly(c, sender, value, now, balance);
    }
  }

  lemma {:induction false} FundsFit(terms: Terms, balance: nat, events: seq<Event>)
    requires Fits(map[])
    ensures Fits(Lives(Start(terms, balance), events).state.funds)
  {
    if events != [] {
      var l, e := Lives(Start(terms, balance), events[..|events| - 1]), events[|events| - 1];
      FundsFit(terms, balance, events[..|events| - 1]);
      if e.Transaction? { OnlyFundsAreLimited(l.state, e.command, e.sender, e.value, e.now, l.balance + e.value); }
    }
  }

  /** What an event that is due does: a contribution is recorded, a refund pays what is recorded for the
      sender, and the payout is of all there is. */
  ghost predicate HasEffect(l: Life, e: Event, l': Life)
    requires e.Transaction?
  {
    var own := At(l.state.funds, e.sender);
    l'.received == l.received + e.value &&
    match e.command
    case Fund =>
      && l'.state == l.state.(funds := l.state.funds[e.sender := e.value + own]) && l'.balance == l.balance + e.value
      && l'.refunded == l.refunded && l'.paidOut == None
    case Refund =>
      && l'.state == l.state.(funds := l.state.funds - {e.sender}) && l'.balance == l.balance + e.value - own
      && l'.refunded == l.refunded[e.sender := At(l.refunded, e.sender) + own] && l'.paidOut == None
    case Receive =>
      && l'.state == l.state.(destroyed := true) && l'.balance == 0
      && l'.refunded == l.refunded && l'.paidOut == Some(l.balance + e.value)
    case Unknown => false
  }

  lemma SettleDue(l: Life, e: Event)
    requires e.Transaction? && !e.command.Unknown? && l.paidOut.None? && At(l.state.funds, e.sender) <= l.balance
    ensures HasEffect(l, e, Settle(l, e.command, e.sender, e.value, DueResult(l.state, e.command, e.sender, e.value)))
  {}

  lemma RecordedIsHeld(c: State, balance: nat, a: Address)
    requires !c.destroyed && Solvent(c, balance)
    ensures At(c.funds, a) <= balance
  {
    if a in c.funds { SumWithout(c.funds, a); }
  }

  lemma LiveExactly(l: Life, e: Event)
    requires Solvent(l.state, l.balance) && (l.paidOut.Some? <==> l.state.destroyed)
    requires Fits(l.state.funds) && e.Transaction?
    ensures if DueAfter(l, e) then HasEffect(l, e, Live(l, e)) else Live(l, e) == l
  {
    HandleExactly(l.state, e.command, e.sender, e.value, e.now, l.balance + e.value);
    if DueAfter(l, e) {
      RecordedIsHeld(l.state, l.balance, e.sender);
      SettleDue(l, e);
    }
  }

  /** In every life an event has its effect exactly when it is due, and none otherwise; coins that are just
      sent are added. */
  lemma EffectsExactly(terms: Terms, balance: nat, events: seq<Event>, e: Event)
    ensures var l := Lives(Start(terms, balance), events);
            var l' := Lives(Start(terms, balance), events + [e]);
            l.state.terms == terms &&
            if e.Deposit? then l' == l.(balance := l.balance + e.amount, received := l.received + e.amount)
            else if DueAfter(l, e) then HasEffect(l, e, l')
            else l' == l
  {
    assert (events + [e])[..|events|] == events;
    EveryLifeAddsUp(terms, balance, events);
    assert Fits(map[]) by { assert Sizes(map[]) == map[]; }
    FundsFit(terms, balance, events);
    if e.Transaction? { LiveExactly(Lives(Start(terms, balance), events), e); }
  }

  /** A request for the payout from the end on, with the target reached. */
  ghost predicate AsksAtTarget(terms: Terms, l: Life, e: Event) {
    e.Transaction? && e.command.Receive? && terms.endTime <= e.now && terms.target <= l.balance + e.value
  }

  ghost predicate AskedAt(terms: Terms, balance: nat, events: seq<Event>, i: nat) {
    i < |events| && AsksAtTarget(terms, Lives(Start(terms, balance), events[..i]), events[i])
  }

  lemma AskedBefore(terms: Terms, balance: nat, events: seq<Event>, e: Event, i: nat)
    ensures AskedAt(terms, balance, events + [e], i) <==>
            AskedAt(terms, balance, events, i) || (i == |events| && AsksAtTarget(terms, Lives(Start(terms, balance), events), e))
  {
    if i < |events| { assert (events + [e])[..i] == events[..i]; }
    assert (events + [e])[..|events|] == events;
  }

  /** In every life there has been a payout exactly when there has been such a request. */
  lemma {:induction false} PaidOutExactly(terms: Terms, balance: nat, events: seq<Event>)
    ensures Lives(Start(terms, balance), events).paidOut.Some? <==> exists i :: AskedAt(terms, balance, events, i)
  {
    if events != [] {
      var init, e := events[..|events| - 1], events[|events| - 1];
      PaidOutExactly(terms, balance, init);
      PaidOutOnce(terms, balance, init, e);
      assert events == init + [e];
      forall i: nat { AskedBefore(terms, balance, init, e, i); }
      assert AskedAt(terms, balance, events, |init|) <==> AsksAtTarget(terms, Lives(Start(terms, balance), init), e);
    }
  }

  lemma PaidOutOnce(terms: Terms, balance: nat, events: seq<Event>, e: Event)
    ensures var l := Lives(Start(terms, balance), events);
            Lives(Start(terms, balance), events + [e]).paidOut.Some? <==> l.paidOut.Some? || AsksAtTarget(terms, l, e)
  {
    EffectsExactly(terms, balance, events, e);
    EveryLifeAddsUp(terms, balance, events);
  }

  /** The target counts when a command comes, not at the end: after a refund there is still a payout, but
      only when as many coins come in as were missing. */
  lemma {:induction false} MissedUntilMade(l: Life, events: seq<Event>)
    requires !l.state.destroyed && l.paidOut.None? && Solvent(l.state, l.balance)
    ensures var l' := Lives(l, events);
            && l'.state.terms == l.state.terms && (l'.paidOut.Some? <==> l'.state.destroyed) && Solvent(l'.state, l'.balance)
            && (if l'.paidOut.Some? then l'.paidOut.value else l'.balance) + l.received <= l.balance + l'.received
            && (l'.paidOut.Some? ==> l.state.terms.target <= l.balance + (l'.received - l.received))
  {
    if events != [] {
      var prior, e := events[..|events| - 1], events[|events| - 1];
      MissedUntilMade(l, prior);
      var l1 := Lives(l, prior);
      if e.Transaction? { HandleKeepsSolvent(l1.state, e.command, e.sender, e.value, e.now, l1.balance); }
    }
  }

  /** Such a life: a contribution is paid back because the target is missed, and the payout follows all the
      same when new coins come with the request for it. */
  lemma RefundThenPayout(terms: Terms, a: Address, v: nat)
    requires terms.beginTime <= terms.endTime && terms.limit <= v && 0 < v && v + 1 < terms.target && Fits(map[a := v])
    ensures exists events :: var l := Lives(Start(terms, 0), events); At(l.refunded, a) == v && l.paidOut == Some(terms.target + 1)
  {
    var events := [Transaction(Fund, a, v, terms.endTime)];
    PutIn(terms, a, v, events[0]);
    events := events + [Transaction(Refund, a, 1, terms.endTime)];
    TakenBack(terms, a, v, events[..1], events[1]);
    assert events[..1] + [events[1]] == events;
    PaidAfterwards(terms, events, Transaction(Receive, a, terms.target, terms.endTime));
  }

  lemma PutIn(terms: Terms, a: Address, v: nat, e: Event)
    requires terms.beginTime <= terms.endTime && terms.limit <= v && Fits(map[a := v])
    requires e == Transaction(Fund, a, v, terms.endTime)
    ensures var l := Lives(Start(terms, 0), [e]);
            At(l.state.funds, a) == v && l.balance == v && l.paidOut.None? && At(l.refunded, a) == 0
  {
    var l0 := Lives(Start(terms, 0), []);
    assert l0.state.funds[a := v + At(l0.state.funds, a)] == map[a := v] && [] + [e] == [e];
    EffectsExactly(terms, 0, [], e);
  }

  lemma TakenBack(terms: Terms, a: Address, v: nat, events: seq<Event>, e: Event)
    requires e == Transaction(Refund, a, 1, terms.endTime) && v + 1 < terms.target
    requires var l := Lives(Start(terms, 0), events);
             At(l.state.funds, a) == v && l.balance == v && l.paidOut.None? && At(l.refunded, a) == 0
    ensures var l := Lives(Start(terms, 0), events + [e]); l.balance == 1 && l.paidOut.None? && At(l.refunded, a) == v
  {
    EveryLifeAddsUp(terms, 0, events);
    EffectsExactly(terms, 0, events, e);
  }

  lemma PaidAfterwards(terms: Terms, events: seq<Event>, e: Event)
    requires e.Transaction? && e.command.Receive? && e.value == terms.target && e.now == terms.endTime
    requires var l := Lives(Start(terms, 0), events); l.balance == 1 && l.paidOut.None?
    ensures var l, l' := Lives(Start(terms, 0), events), Lives(Start(terms, 0), events + [e]);
            l'.refunded == l.refunded && l'.paidOut == Some(terms.target + 1)
  {
    EveryLifeAddsUp(terms, 0, events);
    EffectsExactly(terms, 0, events, e);
  }
}
