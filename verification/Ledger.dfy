/** Accounts and transactions: what one transaction and one block do to a world of accounts. */
module Ledger {
  import opened Bytes
  import opened Wrappers
  import opened Sums
  import MultiSign
  import CrowdFund

  datatype Contract = NoContract | Multi(m: MultiSign.State) | Crowd(c: CrowdFund.State)

  datatype Account = Account(nonce: nat, balance: nat, contract: Contract)

  const EMPTY := Account(0, 0, NoContract)

  // The fields of an account hold 32 bytes.
  const LIMIT: nat := 0x1_0000000000000000_0000000000000000_0000000000000000_0000000000000000

  type World = map<Address, Account>

  function Acc(w: World, a: Address): Account {
    if a in w then w[a] else EMPTY
  }

  /** What follows the command id in a transaction's data, or none for a transfer. */
  datatype Data = Plain | Create(contract: Contract) | Call(id: nat, args: seq<Buffer>)

  datatype Tx = Tx(hash: nat, sender: Address, to: Address, value: nat, nonce: nat, data: Data)

  /** The checks of `validate` that matter here. */
  predicate ValidTx(tx: Tx) {
    tx.nonce != 0 && tx.value != 0 && tx.sender != tx.to
  }

  /** The state a new contract starts in. */
  predicate FreshContract(c: Contract) {
    match c
    case NoContract => false
    case Multi(m) => m.timestamp == [] && m.to == [] && m.value == [] && m.agrees == [] && m.rejects == []
    case Crowd(f) => !f.destroyed && f.funds == map[]
  }

  function MultiCommand(id: nat, args: seq<Buffer>): Option<MultiSign.Command> {
    if id == 100 then if |args| >= 2 then Some(MultiSign.Send(args[0], args[1])) else None
    else if id == 101 then if |args| >= 1 then Some(MultiSign.Agree(args[0])) else None
    else if id == 102 then if |args| >= 1 then Some(MultiSign.Reject(args[0])) else None
    else Some(MultiSign.Unknown)
  }

  function CrowdCommand(id: nat): CrowdFund.Command {
    if id == 100 then CrowdFund.Fund
    else if id == 101 then CrowdFund.Refund
    else if id == 102 then CrowdFund.Receive
    else CrowdFund.Unknown
  }

  // ---------- one transaction ----------

  /** The accounts of sender and receiver afterwards, and a payment to a third address if any. */
  datatype Effect = Effect(sender: Account, receiver: Account, payee: Option<(Address, nat)>)

  /** A contract call, with the coins already moved. None stands for an exception. */
  ghost function CallContract(from: Account, to: Account, tx: Tx, env: Env): Option<Effect>
    requires tx.data.Call?
  {
    match to.contract
    case NoContract => None
    case Multi(m) =>
      var command := MultiCommand(tx.data.id, tx.data.args);
      if command.None? then None
      else
        (match MultiSign.Handle(m, command.value, tx.sender, env.now, to.balance)
         case Failed => None
         case Done(m', None) => Some(Effect(from, to.(contract := Multi(m')), None))
         case Done(m', Some(p)) =>
           // a sound contract always holds what it pays
           if p.amount > to.balance then None
           else Some(Effect(from, to.(contract := Multi(m'), balance := to.balance - p.amount), Some((p.to, p.amount)))))
    case Crowd(c) =>
      (match CrowdFund.Handle(c, CrowdCommand(tx.data.id), tx.sender, tx.value, Number(env.now), to.balance)
       case Failed => None
       case Done(c', refund, payout) =>
         // a solvent contract always holds what it refunds
         if refund > to.balance || from.balance + refund >= LIMIT then None
         else if payout then
           Some(Effect(from, to.(contract := Crowd(c'), balance := 0), Some((c.terms.receiver, to.balance))))
         else
           Some(Effect(from.(balance := from.balance + refund), to.(contract := Crowd(c'), balance := to.balance - refund), None)))
  }

  /** The time of the block, and the checks that synchronisation of known blocks leaves out. */
  datatype Env = Env(now: Buffer, skipNonce: bool, skipBalance: bool)

  predicate CanMove(from: Account, to: Account, tx: Tx, env: Env) {
    && from.contract == NoContract && (env.skipBalance || from.balance >= tx.value)
    && (env.skipNonce || from.nonce + 1 == tx.nonce) && from.nonce + 1 < LIMIT && to.balance + tx.value < LIMIT
  }

  /** The sender without the coins; what it does not have is not missed. */
  function Debited(from: Account, tx: Tx): Account {
    from.(nonce := from.nonce + 1, balance := if from.balance < tx.value then 0 else from.balance - tx.value)
  }

  /** Checks, nonce, debit, credit, and the contract call. None stands for a rejected transaction. */
  ghost function Execute(from: Account, to: Account, tx: Tx, env: Env): Option<Effect> {
    if !CanMove(from, to, tx, env) then None
    else
      match tx.data
      case Plain => Some(Effect(Debited(from, tx), Credit(to, tx.value), None))
      case Create(c) =>
        if to != EMPTY || !FreshContract(c) then None
        else Some(Effect(Debited(from, tx), Credit(to, tx.value).(contract := c), None))
      case Call(_, _) => CallContract(Debited(from, tx), Credit(to, tx.value), tx, env)
  }

  function Credit(account: Account, amount: nat): Account { account.(balance := account.balance + amount) }

  predicate PaymentOverflows(w: World, e: Effect) {
    e.payee.Some? && Acc(w, e.payee.value.0).balance + e.payee.value.1 >= LIMIT
  }

  function Paid(w: World, e: Effect): World {
    if e.payee.Some? then w[e.payee.value.0 := Credit(Acc(w, e.payee.value.0), e.payee.value.1)] else w
  }

  /** The world after a transaction. The payee is written first, then sender and receiver, each over
      what was there. */
  ghost function ApplyTx(w: World, tx: Tx, env: Env): Option<World> {
    match Execute(Acc(w, tx.sender), Acc(w, tx.to), tx, env)
    case None => None
    case Some(e) => if PaymentOverflows(w, e) then None else Some(Paid(w, e)[tx.sender := e.sender][tx.to := e.receiver])
  }

  ghost function After(w: World, tx: Tx, env: Env): World {
    if ApplyTx(w, tx, env).Some? then ApplyTx(w, tx, env).value else w
  }

  // ---------- a list of transactions ----------

  /** The transactions that succeed, each on what the ones before it left. */
  ghost function Accepted(w: World, txs: seq<Tx>, env: Env): seq<Tx>
    decreases |txs|
  {
    if txs == [] then []
    else
      match ApplyTx(w, txs[0], env)
      case None => Accepted(w, txs[1..], env)
      case Some(w') => [txs[0]] + Accepted(w', txs[1..], env)
  }

  ghost function Rejected(w: World, txs: seq<Tx>, env: Env): seq<Tx>
    decreases |txs|
  {
    if txs == [] then []
    else
      match ApplyTx(w, txs[0], env)
      case None => [txs[0]] + Rejected(w, txs[1..], env)
      case Some(w') => Rejected(w', txs[1..], env)
  }

  ghost function Final(w: World, txs: seq<Tx>, env: Env): World
    decreases |txs|
  {
    if txs == [] then w
    else
      match ApplyTx(w, txs[0], env)
      case None => Final(w, txs[1..], env)
      case Some(w') => Final(w', txs[1..], env)
  }

  /** One more transaction at the end of a list. */
  lemma {:induction false} OneMore(w: World, txs: seq<Tx>, tx: Tx, env: Env)
    ensures var ok := ApplyTx(Final(w, txs, env), tx, env).Some?;
            && Final(w, txs + [tx], env) == After(Final(w, txs, env), tx, env)
            && Accepted(w, txs + [tx], env) == Accepted(w, txs, env) + (if ok then [tx] else [])
            && Rejected(w, txs + [tx], env) == Rejected(w, txs, env) + (if ok then [] else [tx])
    decreases |txs|
  {
    if txs == [] {
      assert txs + [tx] == [tx];
    } else {
      assert (txs + [tx])[1..] == txs[1..] + [tx];
      OneMore(After(w, txs[0], env), txs[1..], tx, env);
    }
  }

  /** Run again without the rejected ones, nothing is rejected and the result is the same. */
  lemma {:induction false} AcceptedAgain(w: World, txs: seq<Tx>, env: Env)
    ensures Rejected(w, Accepted(w, txs, env), env) == []
    ensures Accepted(w, Accepted(w, txs, env), env) == Accepted(w, txs, env)
    ensures Final(w, Accepted(w, txs, env), env) == Final(w, txs, env)
    decreases |txs|
  {
    if txs != [] {
      match ApplyTx(w, txs[0], env)
      case None => AcceptedAgain(w, txs[1..], env);
      case Some(w') =>
        AcceptedAgain(w', txs[1..], env);
        assert Accepted(w, txs, env)[1..] == Accepted(w', txs[1..], env);
    }
  }

  // ---------- conservation ----------

  function Balances(w: World): map<Address, nat> { map a | a in w :: w[a].balance }

  ghost function Total(w: World): nat { Sum(Balances(w)) }

  lemma TotalPut(w: World, a: Address, account: Account)
    ensures Total(w[a := account]) + Acc(w, a).balance == Total(w) + account.balance
  {
    assert Balances(w[a := account]) == Balances(w)[a := account.balance];
    SumUpdate(Balances(w), a, account.balance);
  }

  /** The payment a transaction makes to a third address. */
  ghost function PaymentOf(w: World, tx: Tx, env: Env): Option<(Address, nat)> {
    match Execute(Acc(w, tx.sender), Acc(w, tx.to), tx, env)
    case None => None
    case Some(e) => e.payee
  }

  /** Coins that a sender spends without having them. */
  function Unbacked(from: Account, tx: Tx): nat {
    if from.balance < tx.value then tx.value - from.balance else 0
  }

  lemma ExecuteBalances(from: Account, to: Account, tx: Tx, env: Env)
    ensures match Execute(from, to, tx, env)
            case None => true
            case Some(e) =>
              e.sender.balance + e.receiver.balance + (if e.payee.Some? then e.payee.value.1 else 0)
              == from.balance + to.balance + Unbacked(from, tx)
              && (Unbacked(from, tx) > 0 ==> env.skipBalance)
              && e.sender.nonce == from.nonce + 1 && e.receiver.nonce == to.nonce && e.sender.contract == NoContract
  {}

  /** A transaction between two addresses keeps the sum of all balances, except that a payment to
      the sender or to the contract itself is lost, and that without the balance check coins the
      sender does not have are created. */
  lemma ConservationExactly(w: World, tx: Tx, env: Env)
    requires ApplyTx(w, tx, env).Some? && tx.sender != tx.to
    ensures var p := PaymentOf(w, tx, env);
            var lost := if p.Some? && (p.value.0 == tx.sender || p.value.0 == tx.to) then p.value.1 else 0;
            Total(ApplyTx(w, tx, env).value) + lost == Total(w) + Unbacked(Acc(w, tx.sender), tx)
    ensures Unbacked(Acc(w, tx.sender), tx) > 0 ==> env.skipBalance
  {
    var from, to := Acc(w, tx.sender), Acc(w, tx.to);
    ExecuteBalances(from, to, tx, env);
    var e := Execute(from, to, tx, env).value;
    var w1 := Paid(w, e);
    if e.payee.Some? {
      var (payee, amount) := e.payee.value;
      TotalPut(w, payee, Credit(Acc(w, payee), amount));
    }
    TotalPut(w1, tx.sender, e.sender);
    TotalPut(w1[tx.sender := e.sender], tx.to, e.receiver);
  }

  /** Why `validate` refuses it: a transfer to oneself creates its value out of nothing. */
  lemma SelfTransferMints(w: World, tx: Tx, env: Env)
    requires ApplyTx(w, tx, env).Some? && tx.sender == tx.to && tx.data.Plain?
    ensures Total(ApplyTx(w, tx, env).value) == Total(w) + tx.value
  {
    var from := Acc(w, tx.sender);
    var e := Execute(from, from, tx, env).value;
    assert w[tx.sender := e.sender][tx.to := e.receiver] == w[tx.to := e.receiver];
    TotalPut(w, tx.to, e.receiver);
  }

  predicate AllValid(txs: seq<Tx>) { forall i | 0 <= i < |txs| :: ValidTx(txs[i]) }

  predicate AllPlain(txs: seq<Tx>) { forall i | 0 <= i < |txs| :: txs[i].data.Plain? }

  /** How many of the transactions are from an address. */
  function SentBy(txs: seq<Tx>, a: Address): nat {
    if txs == [] then 0 else (if txs[0].sender == a then 1 else 0) + SentBy(txs[1..], a)
  }

  lemma NonceAfter(w: World, tx: Tx, env: Env, a: Address)
    requires ApplyTx(w, tx, env).Some? && tx.sender != tx.to
    ensures Acc(ApplyTx(w, tx, env).value, a).nonce == Acc(w, a).nonce + if a == tx.sender then 1 else 0
  {
    ExecuteBalances(Acc(w, tx.sender), Acc(w, tx.to), tx, env);
  }

  /** A block of validated transfers keeps the sum of all balances, and raises each nonce by the
      number of accepted transactions of its account. */
  lemma {:induction false} BlockConserves(w: World, txs: seq<Tx>, env: Env, a: Address)
    requires AllValid(txs)
    ensures AllPlain(txs) && !env.skipBalance ==> Total(Final(w, txs, env)) == Total(w)
    ensures Acc(Final(w, txs, env), a).nonce == Acc(w, a).nonce + SentBy(Accepted(w, txs, env), a)
    decreases |txs|
  {
    if txs != [] {
      assert ValidTx(txs[0]);
      match ApplyTx(w, txs[0], env)
      case None => BlockConserves(w, txs[1..], env, a);
      case Some(w') =>
        NonceAfter(w, txs[0], env, a);
        ConservationExactly(w, txs[0], env);
        BlockConserves(w', txs[1..], env, a);
        assert Accepted(w, txs, env)[1..] == Accepted(w', txs[1..], env);
    }
  }

  // ---------- the contracts of a world ----------

  ghost predicate ContractOk(account: Account) {
    match account.contract
    case NoContract => true
    case Multi(m) => MultiSign.Sound(m, account.balance)
    case Crowd(c) => CrowdFund.Solvent(c, account.balance)
  }

  ghost predicate WorldOk(w: World) {
    forall a | a in w :: ContractOk(w[a])
  }

  lemma CallKeepsContract(from: Account, to: Account, tx: Tx, env: Env)
    requires tx.data.Call? && ContractOk(to) && to.balance + tx.value < LIMIT
    requires CallContract(from, Credit(to, tx.value), tx, env).Some?
    ensures ContractOk(CallContract(from, Credit(to, tx.value), tx, env).value.receiver)
  {
    var balance := to.balance + tx.value;
    match to.contract
    case NoContract =>
    case Multi(m) => MultiSign.HandleIsProper(m, MultiCommand(tx.data.id, tx.data.args).value, tx.sender, env.now, balance);
    case Crowd(c) => CrowdFund.HandleKeepsSolvent(c, CrowdCommand(tx.data.id), tx.sender, tx.value, Number(env.now), to.balance);
  }

  lemma ExecuteKeepsContracts(from: Account, to: Account, tx: Tx, env: Env)
    requires ContractOk(to) && Execute(from, to, tx, env).Some?
    ensures ContractOk(Execute(from, to, tx, env).value.receiver)
  {
    match tx.data
    case Plain =>
    case Create(c) => assert c.Crowd? ==> Sum(c.c.funds) == 0;
    case Call(_, _) => CallKeepsContract(Debited(from, tx), to, tx, env);
  }

  /** In every world reachable by transactions each multi-signature contract covers its pending
      request and each living crowd fund its contributions. */
  lemma {:induction false} WorldStaysOk(w: World, txs: seq<Tx>, env: Env)
    requires WorldOk(w)
    ensures WorldOk(Final(w, txs, env))
    decreases |txs|
  {
    if txs != [] {
      match ApplyTx(w, txs[0], env)
      case None => WorldStaysOk(w, txs[1..], env);
      case Some(w') =>
        ApplyTxKeepsOk(w, txs[0], env);
        WorldStaysOk(w', txs[1..], env);
    }
  }

  lemma ApplyTxKeepsOk(w: World, tx: Tx, env: Env)
    requires WorldOk(w) && ApplyTx(w, tx, env).Some?
    ensures WorldOk(ApplyTx(w, tx, env).value)
  {
    ExecuteBalances(Acc(w, tx.sender), Acc(w, tx.to), tx, env);
    ExecuteKeepsContracts(Acc(w, tx.sender), Acc(w, tx.to), tx, env);
    var e := Execute(Acc(w, tx.sender), Acc(w, tx.to), tx, env).value;
    if e.payee.Some? {
      var (payee, amount) := e.payee.value;
      assert ContractOk(Credit(Acc(w, payee), amount)) by { assert ContractOk(Acc(w, payee)); }
    }
  }
}
