/** The multi-signature contract: a request to pay is sent by a member, and agreed to or rejected
    by the others, within a time limit. */
module MultiSign {
  import opened Bytes
  import opened Rlp
  import opened Wrappers

  datatype Terms = Terms(expireInterval: nat, threshold: nat, authority: seq<Address>)

  /** The stored fields. Empty `to` and `value` mean that no request is pending. */
  datatype State = State(terms: Terms, timestamp: Buffer, to: Buffer, value: Buffer,
                         agrees: seq<Address>, rejects: seq<Address>)

  datatype Command = Send(to: Buffer, value: Buffer) | Agree(timestamp: Buffer) | Reject(timestamp: Buffer) | Unknown

  datatype Payment = Payment(to: Address, amount: nat)

  datatype Result = Failed | Done(state: State, paid: Option<Payment>)

  // Lengths the fields can hold.
  const ADDRESS_LENGTH := 20
  const WORD_LENGTH := 32
  const LIST_LENGTH := 200

  /** An encoded list of addresses that its field cannot hold. */
  predicate Oversized(list: seq<Address>) { ListSize(Payload(list)) > LIST_LENGTH }

  predicate Pending(m: State) { m.to != [] && m.value != [] }

  function Cleared(m: State): State {
    m.(timestamp := [], to := [], value := [], agrees := [], rejects := [])
  }

  /** Enough of the members, in per cent of the list; exact, not rounded. */
  predicate Reached(terms: Terms, votes: nat) { 100 * votes >= terms.threshold * |terms.authority| }

  predicate Expired(m: State, now: Buffer) { Number(m.timestamp) + m.terms.expireInterval < Number(now) }

  // ---------- what a command does ----------

  function AgreeTo(m: State, sender: Address, timestamp: Buffer): Result {
    if m.timestamp != timestamp || sender in m.agrees || sender in m.rejects then Failed
    else
      var m' := m.(agrees := m.agrees + [sender]);
      if Reached(m.terms, |m'.agrees|) then Done(Cleared(m'), Some(Payment(m.to, Number(m.value))))
      else if Oversized(m'.agrees) then Failed
      else Done(m', None)
  }

  function RejectTo(m: State, sender: Address, timestamp: Buffer): Result {
    if m.timestamp != timestamp || sender in m.agrees || sender in m.rejects then Failed
    else
      var m' := m.(rejects := m.rejects + [sender]);
      if 100 * |m'.rejects| > (100 - m.terms.threshold) * |m.terms.authority| then Done(Cleared(m'), None)
      else if Oversized(m'.rejects) then Failed
      else Done(m', None)
  }

  /** A command on a contract whose account holds `balance`, at block time `now`. */
  function Handle(m: State, command: Command, sender: Address, now: Buffer, balance: nat): Result {
    match command
    case Send(to, value) =>
      if sender !in m.terms.authority || Number(m.timestamp) + m.terms.expireInterval > Number(now) then Failed
      else if |to| > ADDRESS_LENGTH || |value| > WORD_LENGTH || balance < Number(value) then Failed
      else AgreeTo(State(m.terms, now, to, value, [], []), sender, now)
    case Agree(timestamp) =>
      if sender !in m.terms.authority || !Pending(m) || Expired(m, now) then Failed
      else AgreeTo(m, sender, timestamp)
    case Reject(timestamp) =>
      if sender !in m.terms.authority || !Pending(m) || Expired(m, now) then Failed
      else RejectTo(m, sender, timestamp)
    case Unknown => Done(m, None)
  }

  /** The contract object; an exception in the code is `ok == false`, and the object is dropped. */
  class Contract {
    const terms: Terms
    var timestamp: Buffer
    var to: Buffer
    var value: Buffer
    var agrees: seq<Address>
    var rejects: seq<Address>

    function Fields(): State
      reads this
    {
      State(terms, timestamp, to, value, agrees, rejects)
    }

    constructor (m: State)
      ensures Fields() == m
    {
      terms, timestamp, to, value, agrees, rejects := m.terms, m.timestamp, m.to, m.value, m.agrees, m.rejects;
    }

    method Reset()
      modifies this
      ensures Fields() == Cleared(old(Fields()))
    {
      to, value, timestamp, agrees, rejects := [], [], [], [], [];
    }

    method Agree(sender: Address, stamp: Buffer) returns (ok: bool, paid: Option<Payment>)
      modifies this
      ensures if ok then AgreeTo(old(Fields()), sender, stamp) == Done(Fields(), paid)
              else AgreeTo(old(Fields()), sender, stamp) == Failed
    {
      paid := None;
      if timestamp != stamp { return false, None; }
      if sender in agrees || sender in rejects { return false, None; }
      agrees := agrees + [sender];
      if Reached(terms, |agrees|) {
        paid := Some(Payment(to, Number(value)));
        Reset();
      } else if Oversized(agrees) {
        return false, None;
      }
      ok := true;
    }

    method Reject(sender: Address, stamp: Buffer) returns (ok: bool)
      modifies this
      ensures if ok then RejectTo(old(Fields()), sender, stamp) == Done(Fields(), None)
              else RejectTo(old(Fields()), sender, stamp) == Failed
    {
      if timestamp != stamp { return false; }
      if sender in agrees || sender in rejects { return false; }
      rejects := rejects + [sender];
      if 100 * |rejects| > (100 - terms.threshold) * |terms.authority| {
        Reset();
      } else if Oversized(rejects) {
        return false;
      }
      ok := true;
    }

    method CommandHandler(command: Command, sender: Address, now: Buffer, balance: nat)
      returns (ok: bool, paid: Option<Payment>)
      modifies this
      ensures Handle(old(Fields()), command, sender, now, balance) == if ok then Done(Fields(), paid) else Failed
    {
      ok, paid := false, None;
      match command
      case Send(newTo, newValue) =>
        if sender !in terms.authority { return; }
        if Number(timestamp) + terms.expireInterval > Number(now) { return; }
        if |newTo| > ADDRESS_LENGTH || |newValue| > WORD_LENGTH { return; }
        to, value := newTo, newValue;
        if balance < Number(value) { return; }
        timestamp, agrees, rejects := now, [], [];
        ok, paid := Agree(sender, now);
      case Agree(stamp) =>
        if sender !in terms.authority || to == [] || value == [] { return; }
        if Number(timestamp) + terms.expireInterval < Number(now) { return; }
        ok, paid := Agree(sender, stamp);
      case Reject(stamp) =>
        if sender !in terms.authority || to == [] || value == [] { return; }
        if Number(timestamp) + terms.expireInterval < Number(now) { return; }
        ok := Reject(sender, stamp);
      case Unknown => ok := true;
    }
  }

  // ---------- what every command keeps ----------

  predicate NoDuplicates(list: seq<Address>) {
    forall i, j | 0 <= i < j < |list| :: list[i] != list[j]
  }

  /** Votes are single, not contradictory, and cast by members; what is requested is covered. */
  ghost predicate Sound(m: State, balance: nat) {
    && NoDuplicates(m.agrees) && NoDuplicates(m.rejects)
    && (forall a | a in m.agrees :: a in m.terms.authority && a !in m.rejects)
    && (forall a | a in m.rejects :: a in m.terms.authority)
    && Number(m.value) <= balance
  }

  function Paid(r: Result): nat {
    if r.Done? && r.paid.Some? then r.paid.value.amount else 0
  }

  /** Money moves only when distinct members, enough of them, have agreed to the request that is
      pending or just sent, and the payment clears the request. */
  lemma PaidOnlyAtThreshold(m: State, command: Command, sender: Address, now: Buffer, balance: nat)
    requires Sound(m, balance)
    ensures var r := Handle(m, command, sender, now, balance);
            r.Done? && r.paid.Some? ==>
              var voters := if command.Send? then [sender] else m.agrees + [sender];
              && NoDuplicates(voters) && (forall a | a in voters :: a in m.terms.authority)
              && Reached(m.terms, |voters|)
              && r.paid.value == (if command.Send? then Payment(command.to, Number(command.value))
                                  else Payment(m.to, Number(m.value)))
              && !Pending(r.state)
  {}

  /** The member list fits its field, so the lists of votes always do. */
  lemma VotesAlwaysFit(m: State, sender: Address, balance: nat)
    requires Sound(m, balance) && !Oversized(m.terms.authority)
    requires sender in m.terms.authority && sender !in m.agrees && sender !in m.rejects
    ensures !Oversized(m.agrees + [sender]) && !Oversized(m.rejects + [sender])
  {
    SomeFit(m.agrees + [sender], m.terms.authority);
    SomeFit(m.rejects + [sender], m.terms.authority);
    ListSizeGrows(Payload(m.agrees + [sender]), Payload(m.terms.authority));
    ListSizeGrows(Payload(m.rejects + [sender]), Payload(m.terms.authority));
  }

  function Members(terms: Terms): set<Address> { set a | a in terms.authority }

  /** The members who have not rejected. */
  function Others(m: State, sender: Address): set<Address> {
    set a | a in m.terms.authority && a !in m.rejects && a != sender
  }

  lemma {:induction false} DistinctCount(list: seq<Address>)
    requires NoDuplicates(list)
    ensures |set a | a in list| == |list|
  {
    if list != [] {
      var init, last := list[..|list| - 1], list[|list| - 1];
      DistinctCount(init);
      assert (set a | a in list) == (set a | a in init) + {last};
    }
  }

  lemma {:induction false} CountAtMost(list: seq<Address>)
    ensures |set a | a in list| <= |list|
  {
    if list != [] {
      var init, last := list[..|list| - 1], list[|list| - 1];
      CountAtMost(init);
      assert (set a | a in list) == (set a | a in init) + {last};
    }
  }

  lemma OthersCount(m: State, sender: Address, balance: nat)
    requires Sound(m, balance) && sender in m.terms.authority && sender !in m.rejects
    ensures |Others(m, sender)| == |Members(m.terms)| - |m.rejects| - 1
  {
    var all, gone := Members(m.terms), (set a | a in m.rejects);
    DistinctCount(m.rejects);
    assert Others(m, sender) == all - (gone + {sender});
    assert gone + {sender} <= all && |gone + {sender}| == |gone| + 1;
  }

  /** Whether a reject drops the request. */
  predicate Drops(m: State, sender: Address, now: Buffer, balance: nat)
    requires Handle(m, Reject(m.timestamp), sender, now, balance).Done?
  {
    !Pending(Handle(m, Reject(m.timestamp), sender, now, balance).state)
  }

  /** A repeated member hides that the request is out of reach: the list is long enough for the
      threshold, the members in it, without those who rejected, are not. */
  predicate Hidden(m: State) {
    var r := |m.rejects| + 1;
    100 * (|Members(m.terms)| - r) < m.terms.threshold * |m.terms.authority| <= 100 * (|m.terms.authority| - r)
  }

  /** A reject drops the request when, and unless a repetition hides it only when, the members who
      have not rejected, even if all of them agreed, could no longer reach the threshold. */
  lemma RejectDropsExactly(m: State, sender: Address, now: Buffer, balance: nat)
    requires Sound(m, balance) && Pending(m)
    requires Handle(m, Reject(m.timestamp), sender, now, balance).Done?
    ensures (Drops(m, sender, now, balance) <==> !Reached(m.terms, |Others(m, sender)|)) <==> !Hidden(m)
    ensures Drops(m, sender, now, balance) ==> !Reached(m.terms, |Others(m, sender)|)
  {
    OthersCount(m, sender, balance);
    CountAtMost(m.terms.authority);
  }

  /** Nothing is hidden when no member is listed twice. */
  lemma DistinctMembersHideNothing(m: State, sender: Address, now: Buffer, balance: nat)
    requires Sound(m, balance) && Pending(m) && NoDuplicates(m.terms.authority)
    requires Handle(m, Reject(m.timestamp), sender, now, balance).Done?
    ensures Drops(m, sender, now, balance) <==> !Reached(m.terms, |Others(m, sender)|)
  {
    DistinctCount(m.terms.authority);
    RejectDropsExactly(m, sender, now, balance);
  }

  /** With a member listed twice a request can stay pending that nobody can bring to the threshold. */
  lemma RepeatedMemberLingers()
    ensures exists m: State, sender, now, balance ::
      && Sound(m, balance) && Pending(m) && Handle(m, Reject(m.timestamp), sender, now, balance).Done?
      && !Drops(m, sender, now, balance) && !Reached(m.terms, |Others(m, sender)|)
  {
    var m := State(Terms(10, 60, [[1], [1], [2]]), [5], [9], [1], [], []);
    assert Number([1]) == 1 && Number([5]) == 5 && Number([6]) == 6;
    assert Members(m.terms) == {[1], [2]};
    assert Hidden(m) && Sound(m, 1);
    assert Payload([[2]]) == 1 by { assert [[2]][1..] == []; }
    assert [] + [[2]] == [[2]] && !Oversized([[2]]);
    assert Handle(m, Reject(m.timestamp), [2], [6], 1).Done?;
    RejectDropsExactly(m, [2], [6], 1);
  }

  // ---------- whole lives of a contract ----------

  datatype Event =
    | Transaction(command: Command, sender: Address, now: Buffer, deposit: nat)   // a command, with the coins it carries
    | Deposit(amount: nat)                                                       // a plain transfer to the contract

  /** The contract, its balance, the requests accepted so far and, by their position in that list,
      those paid so far, and the coins received in all. */
  datatype Life = Life(state: State, balance: nat, requests: seq<Payment>, payments: seq<nat>, received: nat)

  function Start(terms: Terms, balance: nat): Life {
    Life(State(terms, [], [], [], [], []), balance, [], [], balance)
  }

  /** A failed command changes nothing, not even the balance. */
  function Live(l: Life, e: Event): Life {
    match e
    case Deposit(amount) => l.(balance := l.balance + amount, received := l.received + amount)
    case Transaction(command, sender, now, deposit) =>
      Settle(l, command, deposit, Handle(l.state, command, sender, now, l.balance + deposit))
  }

  function Settle(l: Life, command: Command, deposit: nat, r: Result): Life {
    match r
    case Failed => l
    case Done(m, paid) =>
      var l' := if command.Send? then l.(requests := l.requests + [Payment(command.to, Number(command.value))]) else l;
      Record(l'.(balance := l.balance + deposit, received := l.received + deposit), m, paid)
  }

  /** The new state, and the payment of the latest request if there is one. */
  function Record(l: Life, m: State, paid: Option<Payment>): Life {
    if paid.Some? && l.requests != [] && paid.value.amount <= l.balance then
      Life(m, l.balance - paid.value.amount, l.requests, l.payments + [|l.requests| - 1], l.received)
    else l.(state := m)
  }

  function Lives(l: Life, events: seq<Event>): Life {
    if events == [] then l else Live(Lives(l, events[..|events| - 1]), events[|events| - 1])
  }

  function Amount(requests: seq<Payment>, i: nat): nat {
    if i < |requests| then requests[i].amount else 0
  }

  function TotalPaid(requests: seq<Payment>, payments: seq<nat>): nat {
    if payments == [] then 0
    else TotalPaid(requests, payments[..|payments| - 1]) + Amount(requests, payments[|payments| - 1])
  }

  predicate Below(payments: seq<nat>, n: int) {
    forall i | 0 <= i < |payments| :: payments[i] < n
  }

  lemma {:induction false} TotalPaidGrows(requests: seq<Payment>, more: seq<Payment>, payments: seq<nat>)
    requires Below(payments, |requests|)
    ensures TotalPaid(requests + more, payments) == TotalPaid(requests, payments)
  {
    if payments != [] { TotalPaidGrows(requests, more, payments[..|payments| - 1]); }
  }

  /** Payments are of accepted requests, none twice and none pending, and the coins add up. */
  ghost predicate InOrder(l: Life) {
    && Below(l.payments, |l.requests|)
    && (forall i, j | 0 <= i < j < |l.payments| :: l.payments[i] < l.payments[j])
    && (Pending(l.state) ==> LatestUnpaid(l, Payment(l.state.to, Number(l.state.value))))
    && l.balance + TotalPaid(l.requests, l.payments) == l.received
  }

  ghost predicate LatestUnpaid(l: Life, request: Payment) {
    l.requests != [] && l.requests[|l.requests| - 1] == request && Below(l.payments, |l.requests| - 1)
  }

  ghost predicate LifeOk(l: Life) {
    Sound(l.state, l.balance) && InOrder(l)
  }

  /** A result is sound, pays no more than the contract holds, keeps a request as it was sent until
      it clears it, and pays only that request. */
  ghost predicate Proper(m: State, command: Command, balance: nat, r: Result) {
    r.Done? ==>
      var request := if command.Send? then Payment(command.to, Number(command.value)) else Payment(m.to, Number(m.value));
      && Paid(r) <= balance && Sound(r.state, balance - Paid(r)) && r.state.terms == m.terms
      && (r.paid.Some? ==> r.paid.value == request && !Pending(r.state))
      && (Pending(r.state) ==> Payment(r.state.to, Number(r.state.value)) == request)
      && ((Pending(r.state) || r.paid.Some?) && !command.Send? ==> Pending(m))
  }

  lemma HandleIsProper(m: State, command: Command, sender: Address, now: Buffer, balance: nat)
    requires Sound(m, balance)
    ensures Proper(m, command, balance, Handle(m, command, sender, now, balance))
  {}

  /** The history stays in order when the latest request, not paid yet, is kept, dropped or paid. */
  lemma RecordInOrder(l: Life, m: State, paid: Option<Payment>, request: Payment)
    requires Below(l.payments, |l.requests|)
    requires forall i, j | 0 <= i < j < |l.payments| :: l.payments[i] < l.payments[j]
    requires l.balance + TotalPaid(l.requests, l.payments) == l.received
    requires paid.Some? || Pending(m) ==> LatestUnpaid(l, request)
    requires paid.Some? ==> paid.value == request && request.amount <= l.balance && !Pending(m)
    requires Pending(m) ==> Payment(m.to, Number(m.value)) == request
    ensures InOrder(Record(l, m, paid)) && Record(l, m, paid).state == m
    ensures Record(l, m, paid).balance == l.balance - if paid.Some? then paid.value.amount else 0
  {
    var l' := Record(l, m, paid);
    if paid.Some? { assert l'.payments[..|l'.payments| - 1] == l.payments; }
  }

  /** A request that has just been sent is the latest, and not paid. */
  lemma SentInOrder(l: Life, to: Address, amount: nat)
    requires InOrder(l)
    ensures var request := Payment(to, amount);
            var requests := l.requests + [request];
            && TotalPaid(requests, l.payments) == TotalPaid(l.requests, l.payments)
            && LatestUnpaid(l.(requests := requests), request)
  {
    TotalPaidGrows(l.requests, [Payment(to, amount)], l.payments);
  }

  lemma SettleInOrder(l: Life, command: Command, deposit: nat, r: Result)
    requires InOrder(l) && Proper(l.state, command, l.balance + deposit, r) && r.Done?
    ensures InOrder(Settle(l, command, deposit, r)) && Settle(l, command, deposit, r).state == r.state
    ensures Settle(l, command, deposit, r).balance == l.balance + deposit - Paid(r)
  {
    if command.Send? { SettleSent(l, command, deposit, r); } else { SettleVote(l, command, deposit, r); }
  }

  lemma SettleSent(l: Life, command: Command, deposit: nat, r: Result)
    requires InOrder(l) && Proper(l.state, command, l.balance + deposit, r) && r.Done? && command.Send?
    ensures InOrder(Settle(l, command, deposit, r)) && Settle(l, command, deposit, r).state == r.state
    ensures Settle(l, command, deposit, r).balance == l.balance + deposit - Paid(r)
  {
    var request := Payment(command.to, Number(command.value));
    var l1 := Life(l.state, l.balance + deposit, l.requests + [request], l.payments, l.received + deposit);
    SentInOrder(l, command.to, Number(command.value));
    assert Settle(l, command, deposit, r) == Record(l1, r.state, r.paid);
    assert LatestUnpaid(l1, request) && Below(l1.payments, |l1.requests|);
    RecordInOrder(l1, r.state, r.paid, request);
  }

  lemma SettleVote(l: Life, command: Command, deposit: nat, r: Result)
    requires InOrder(l) && Proper(l.state, command, l.balance + deposit, r) && r.Done? && !command.Send?
    ensures InOrder(Settle(l, command, deposit, r)) && Settle(l, command, deposit, r).state == r.state
    ensures Settle(l, command, deposit, r).balance == l.balance + deposit - Paid(r)
  {
    var l1 := Life(l.state, l.balance + deposit, l.requests, l.payments, l.received + deposit);
    var request := Payment(l.state.to, Number(l.state.value));
    assert Settle(l, command, deposit, r) == Record(l1, r.state, r.paid);
    assert Pending(l.state) ==> LatestUnpaid(l1, request) by { if Pending(l.state) { assert LatestUnpaid(l, request); } }
    assert r.paid.Some? || Pending(r.state) ==> Pending(l.state);
    RecordInOrder(l1, r.state, r.paid, request);
  }

  lemma LiveKeepsOk(l: Life, e: Event)
    requires LifeOk(l)
    ensures LifeOk(Live(l, e))
  {
    match e
    case Deposit(_) =>
    case Transaction(command, sender, now, deposit) =>
      var r := Handle(l.state, command, sender, now, l.balance + deposit);
      HandleIsProper(l.state, command, sender, now, l.balance + deposit);
      if r.Done? { SettleInOrder(l, command, deposit, r); }
  }

  /** In every life of a contract: a pending request is covered by the balance, no request is paid
      twice, and what was received is what is held plus what the paid requests asked for. */
  lemma {:induction false} EveryLifeIsOk(terms: Terms, balance: nat, events: seq<Event>)
    ensures LifeOk(Lives(Start(terms, balance), events))
  {
    if events != [] {
      EveryLifeIsOk(terms, balance, events[..|events| - 1]);
      LiveKeepsOk(Lives(Start(terms, balance), events[..|events| - 1]), events[|events| - 1]);
    }
  }

  // ---------- when commands succeed ----------

  /** A vote that counts: by a member who has not voted, on the pending request by its time stamp, before
      that has run out. */
  predicate MayVote(m: State, stamp: Buffer, sender: Address, now: Buffer) {
    && sender in m.terms.authority && sender !in m.agrees && sender !in m.rejects
    && m.to != [] && m.value != [] && stamp == m.timestamp
    && Number(now) <= Number(m.timestamp) + m.terms.expireInterval
  }

  /** A member's agreement is taken exactly when the member may vote. It is recorded, or with it the
      request is paid and cleared, exactly when with it enough of the members have agreed. */
  lemma AgreeExactly(m: State, stamp: Buffer, sender: Address, now: Buffer, balance: nat)
    requires Sound(m, balance) && !Oversized(m.terms.authority)
    ensures Handle(m, Agree(stamp), sender, now, balance) ==
            if !MayVote(m, stamp, sender, now) then Failed
            else if 100 * (|m.agrees| + 1) >= m.terms.threshold * |m.terms.authority|
            then Done(State(m.terms, [], [], [], [], []), Some(Payment(m.to, Number(m.value))))
            else Done(m.(agrees := m.agrees + [sender]), None)
  {
    if MayVote(m, stamp, sender, now) { VotesAlwaysFit(m, sender, balance); }
  }

  /** A rejection likewise: it is recorded, or the request dropped when with it more have rejected than
      the threshold leaves. */
  lemma RejectExactly(m: State, stamp: Buffer, sender: Address, now: Buffer, balance: nat)
    requires Sound(m, balance) && !Oversized(m.terms.authority)
    ensures Handle(m, Reject(stamp), sender, now, balance) ==
            if !MayVote(m, stamp, sender, now) then Failed
            else if 100 * (|m.rejects| + 1) + m.terms.threshold * |m.terms.authority| > 100 * |m.terms.authority|
            then Done(State(m.terms, [], [], [], [], []), None)
            else Done(m.(rejects := m.rejects + [sender]), None)
  {
    if MayVote(m, stamp, sender, now) { VotesAlwaysFit(m, sender, balance); }
    assert (100 - m.terms.threshold) * |m.terms.authority| == 100 * |m.terms.authority| - m.terms.threshold * |m.terms.authority|;
  }

  /** A request is taken exactly from a member, when an earlier one has run out or was cleared, in fields
      that hold it and with coins that cover it. It takes the place of the earlier one and has its
      sender's vote, which may be enough to pay it. */
  lemma SendExactly(m: State, to: Buffer, value: Buffer, sender: Address, now: Buffer, balance: nat)
    requires !Oversized(m.terms.authority)
    ensures Handle(m, Send(to, value), sender, now, balance) ==
            if !(sender in m.terms.authority && Number(m.timestamp) + m.terms.expireInterval <= Number(now) &&
                 |to| <= ADDRESS_LENGTH && |value| <= WORD_LENGTH && Number(value) <= balance) then Failed
            else if 100 >= m.terms.threshold * |m.terms.authority|
            then Done(State(m.terms, [], [], [], [], []), Some(Payment(to, Number(value))))
            else Done(State(m.terms, now, to, value, [sender], []), None)
  {
    if sender in m.terms.authority {
      var none := State(m.terms, [], [], [], [], []);
      assert Sound(none, 0) by { assert Number([]) == 0; }
      VotesAlwaysFit(none, sender, 0);
      assert [] + [sender] == [sender];
    }
  }

  /** The time of the latest request that was taken. */
  function LatestSend(l: Life, events: seq<Event>): Option<nat> {
    if events == [] then None
    else
      var prior, e := events[..|events| - 1], events[|events| - 1];
      if e.Transaction? && e.command.Send? && Lives(l, events).requests != Lives(l, prior).requests
      then Some(Number(e.now)) else LatestSend(l, prior)
  }

  ghost predicate Timed(terms: Terms, l: Life, latest: Option<nat>) {
    l.state.terms == terms && (Pending(l.state) ==> latest == Some(Number(l.state.timestamp)))
  }

  lemma LiveKeepsTime(terms: Terms, l: Life, e: Event, latest: Option<nat>)
    requires Timed(terms, l, latest)
    ensures var sent := e.Transaction? && e.command.Send? && Live(l, e).requests != l.requests;
            Timed(terms, Live(l, e), if sent then Some(Number(e.now)) else latest)
  {
    if e.Transaction? && e.command.Send? {
      var r := Handle(l.state, e.command, e.sender, e.now, l.balance + e.deposit);
      if r.Done? { assert |Live(l, e).requests| == |l.requests| + 1; }
    }
  }

  lemma {:induction false} EveryLifeIsTimed(terms: Terms, balance: nat, events: seq<Event>)
    ensures Timed(terms, Lives(Start(terms, balance), events), LatestSend(Start(terms, balance), events))
  {
    if events != [] {
      var prior := events[..|events| - 1];
      EveryLifeIsTimed(terms, balance, prior);
      LiveKeepsTime(terms, Lives(Start(terms, balance), prior), events[|events| - 1], LatestSend(Start(terms, balance), prior));
    }
  }

  /** In every life a vote changes nothing, and above all pays nothing, when the time of the latest request
      has run out; and no new request is taken while it runs and the request is pending. */
  lemma NothingOutOfTime(terms: Terms, balance: nat, events: seq<Event>, e: Event)
    requires e.Transaction?
    ensures var l, latest := Lives(Start(terms, balance), events), LatestSend(Start(terms, balance), events);
            var l' := Lives(Start(terms, balance), events + [e]);
            && (e.command.Agree? || e.command.Reject? ==>
                  l' == l || (latest.Some? && Number(e.now) <= latest.value + terms.expireInterval))
            && (e.command.Send? && Pending(l.state) ==>
                  l' == l || (latest.Some? && latest.value + terms.expireInterval <= Number(e.now)))
  {
    assert (events + [e])[..|events|] == events;
    EveryLifeIsTimed(terms, balance, events);
  }
}
