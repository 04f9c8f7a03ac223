/** Which transactions succeed, in numbers known before the call, and what the accounts hold then. */
module Transfers {
  import opened Bytes
  import opened Wrappers
  import opened Ledger
  import MultiSign
  import CrowdFund

  // ---------- one transaction ----------

  /** What the sender and the fields of the accounts demand of any transaction. */
  predicate Backed(from: Account, to: Account, tx: Tx, env: Env) {
    && from.contract.NoContract?
    && (!env.skipNonce ==> tx.nonce == from.nonce + 1)
    && (!env.skipBalance ==> tx.value <= from.balance)
    && from.nonce < LIMIT - 1 && to.balance < LIMIT - tx.value
  }

  /** The sender after a transaction that succeeds and refunds nothing. */
  function Spent(from: Account, tx: Tx): Account {
    Account(from.nonce + 1, if tx.value <= from.balance then from.balance - tx.value else 0, NoContract)
  }

  /** A validated transfer succeeds exactly when it is backed, the creation of a contract when the
      address is unused and the contract a new one besides. Both accounts then hold what they should,
      and no other account changes. */
  lemma TransferSucceedsExactly(w: World, tx: Tx, env: Env)
    requires ValidTx(tx) && !tx.data.Call?
    ensures var from, to := Acc(w, tx.sender), Acc(w, tx.to);
            ApplyTx(w, tx, env).Some? <==>
              Backed(from, to, tx, env) && (tx.data.Create? ==> to == Account(0, 0, NoContract) && FreshContract(tx.data.contract))
    ensures ApplyTx(w, tx, env).Some? ==>
              var w' := ApplyTx(w, tx, env).value;
              var from, to := Acc(w, tx.sender), Acc(w, tx.to);
              && w'.Keys == w.Keys + {tx.sender, tx.to}
              && w'[tx.sender] == Spent(from, tx)
              && w'[tx.to] == Account(to.nonce, to.balance + tx.value, if tx.data.Create? then tx.data.contract else to.contract)
              && forall a | a in w && a != tx.sender && a != tx.to :: w'[a] == w[a]
  {
    if ApplyTx(w, tx, env).Some? {
      var e := Execute(Acc(w, tx.sender), Acc(w, tx.to), tx, env).value;
      assert e.payee.None? && ApplyTx(w, tx, env).value == w[tx.sender := e.sender][tx.to := e.receiver];
    }
  }

  /** The largest transfer that is accepted is the whole balance. */
  lemma WholeBalanceCanBeSpent(w: World, tx: Tx, env: Env)
    requires ValidTx(tx) && tx.data.Plain? && !env.skipBalance
    requires Acc(w, tx.sender).contract.NoContract? && tx.nonce == Acc(w, tx.sender).nonce + 1 < LIMIT
    requires Acc(w, tx.to).balance + tx.value < LIMIT
    ensures ApplyTx(w, tx, env).Some? <==> tx.value <= Acc(w, tx.sender).balance
    ensures tx.value == Acc(w, tx.sender).balance ==> Acc(ApplyTx(w, tx, env).value, tx.sender).balance == 0
  {
    TransferSucceedsExactly(w, tx, env);
  }

  // ---------- a block of transfers ----------

  function SpentBy(txs: seq<Tx>, a: Address): nat {
    if txs == [] then 0
    else SpentBy(txs[..|txs| - 1], a) + if txs[|txs| - 1].sender == a then txs[|txs| - 1].value else 0
  }

  function PaidTo(txs: seq<Tx>, a: Address): nat {
    if txs == [] then 0
    else PaidTo(txs[..|txs| - 1], a) + if txs[|txs| - 1].to == a then txs[|txs| - 1].value else 0
  }

  lemma {:induction false} SentByMore(txs: seq<Tx>, tx: Tx, a: Address)
    ensures SentBy(txs + [tx], a) == SentBy(txs, a) + if tx.sender == a then 1 else 0
  {
    if txs == [] {
      assert txs + [tx] == [tx];
    } else {
      assert (txs + [tx])[1..] == txs[1..] + [tx];
      SentByMore(txs[1..], tx, a);
    }
  }

  /** A transfer of a list is due after the earlier ones: its nonce is the next of its sender, who can
      pay it from what was there, what has come and what has gone. */
  ghost predicate DueAfter(w: World, before: seq<Tx>, tx: Tx) {
    var from, to := Acc(w, tx.sender), Acc(w, tx.to);
    && from.contract.NoContract? && tx.nonce == from.nonce + SentBy(before, tx.sender) + 1 && tx.nonce < LIMIT
    && SpentBy(before, tx.sender) + tx.value <= from.balance + PaidTo(before, tx.sender)
    && to.balance + PaidTo(before, tx.to) + tx.value < LIMIT + SpentBy(before, tx.to)
  }

  /** What a list of transfers that all succeed leaves in an account. */
  ghost predicate LeavesSums(w: World, txs: seq<Tx>, w': World, a: Address) {
    && Acc(w', a).contract == Acc(w, a).contract && Acc(w', a).nonce == Acc(w, a).nonce + SentBy(txs, a)
    && Acc(w', a).balance + SpentBy(txs, a) == Acc(w, a).balance + PaidTo(txs, a)
  }

  lemma {:induction false} SumsAfter(w: World, txs: seq<Tx>, env: Env, a: Address)
    requires AllValid(txs) && AllPlain(txs) && !env.skipBalance && Rejected(w, txs, env) == []
    ensures LeavesSums(w, txs, Final(w, txs, env), a)
  {
    if txs != [] {
      var before, tx := txs[..|txs| - 1], txs[|txs| - 1];
      assert txs == before + [tx] && ValidTx(tx) && tx.data.Plain?;
      SentByMore(before, tx, a);
      OneMore(w, before, tx, env);
      SumsAfter(w, before, env, a);
      TransferSucceedsExactly(Final(w, before, env), tx, env);
    }
  }

  /** All transfers of a list succeed exactly when each is due after the ones before it, and then every
      account holds what it had and received less what it spent. */
  lemma {:induction false} AllSucceedExactly(w: World, txs: seq<Tx>, env: Env)
    requires AllValid(txs) && AllPlain(txs) && !env.skipBalance && !env.skipNonce
    ensures Rejected(w, txs, env) == [] <==> forall i | 0 <= i < |txs| :: DueAfter(w, txs[..i], txs[i])
    ensures Rejected(w, txs, env) == [] ==> forall a :: LeavesSums(w, txs, Final(w, txs, env), a)
  {
    if Rejected(w, txs, env) == [] {
      forall a ensures LeavesSums(w, txs, Final(w, txs, env), a) { SumsAfter(w, txs, env, a); }
    }
    if txs != [] {
      var n := |txs| - 1;
      var before, tx := txs[..n], txs[n];
      assert txs == before + [tx];
      AllSucceedExactly(w, before, env);
      OneMore(w, before, tx, env);
      assert forall i | 0 <= i < n :: txs[..i] == before[..i] && txs[i] == before[i];
      if Rejected(w, before, env) == [] { LastSucceedsExactly(w, before, tx, env); }
    }
  }

  lemma LastSucceedsExactly(w: World, before: seq<Tx>, tx: Tx, env: Env)
    requires ValidTx(tx) && tx.data.Plain? && !env.skipBalance && !env.skipNonce
    requires LeavesSums(w, before, Final(w, before, env), tx.sender) && LeavesSums(w, before, Final(w, before, env), tx.to)
    ensures ApplyTx(Final(w, before, env), tx, env).Some? <==> DueAfter(w, before, tx)
  {
    TransferSucceedsExactly(Final(w, before, env), tx, env);
  }

  // ---------- contract calls ----------

  /** Which data make which command of a multi-signature contract: the ids 100, 101 and 102 with their
      arguments, of which more are ignored and fewer an error, and any other id, which is passed over. */
  lemma MultiCommandExactly(id: nat, args: seq<Buffer>, c: MultiSign.Command)
    ensures MultiCommand(id, args) == Some(c) <==>
            match c
            case Send(to, value) => id == 100 && [to, value] <= args
            case Agree(stamp) => id == 101 && [stamp] <= args
            case Reject(stamp) => id == 102 && [stamp] <= args
            case Unknown => id !in {100, 101, 102}
    ensures MultiCommand(id, args).None? <==> id in {100, 101, 102} && |args| < if id == 100 then 2 else 1
  {}

  lemma CrowdCommandExactly(id: nat)
    ensures CrowdCommand(id).Fund? <==> id == 100
    ensures CrowdCommand(id).Refund? <==> id == 101
    ensures CrowdCommand(id).Receive? <==> id == 102
    ensures CrowdCommand(id).Unknown? <==> id !in {100, 101, 102}
  {}

  /** No account but these is changed. */
  ghost predicate OthersKept(w: World, w': World, changed: set<Address>) {
    forall a | a !in changed :: Acc(w', a) == Acc(w, a)
  }

  /** A call of a multi-signature contract of a sound world succeeds exactly when it is backed, the
      contract takes the command and the payee's balance can hold the payment; what the contract pays
      it always has. The payee then holds the payment, unless it is an end of the call. */
  lemma MultiCallExactly(w: World, tx: Tx, env: Env)
    requires WorldOk(w) && ValidTx(tx) && tx.data.Call? && Acc(w, tx.to).contract.Multi?
    ensures var from, to, command := Acc(w, tx.sender), Acc(w, tx.to), MultiCommand(tx.data.id, tx.data.args);
            if !Backed(from, to, tx, env) || command.None? then ApplyTx(w, tx, env).None?
            else
              match MultiSign.Handle(to.contract.m, command.value, tx.sender, env.now, to.balance + tx.value)
              case Failed => ApplyTx(w, tx, env).None?
              case Done(m, None) =>
                && ApplyTx(w, tx, env).Some?
                && var w' := ApplyTx(w, tx, env).value;
                && Acc(w', tx.sender) == Spent(from, tx) && Acc(w', tx.to) == Account(to.nonce, to.balance + tx.value, Multi(m))
                && OthersKept(w, w', {tx.sender, tx.to})
              case Done(m, Some(p)) =>
                && p.amount <= to.balance + tx.value
                && (ApplyTx(w, tx, env).Some? <==> Acc(w, p.to).balance + p.amount < LIMIT)
                && (ApplyTx(w, tx, env).Some? ==>
                      var w' := ApplyTx(w, tx, env).value;
                      && Acc(w', tx.sender) == Spent(from, tx)
                      && Acc(w', tx.to) == Account(to.nonce, to.balance + tx.value - p.amount, Multi(m))
                      && (p.to != tx.sender && p.to != tx.to ==> Acc(w', p.to) == Credit(Acc(w, p.to), p.amount))
                      && OthersKept(w, w', {tx.sender, tx.to, p.to}))
  {
    var from, to, command := Acc(w, tx.sender), Acc(w, tx.to), MultiCommand(tx.data.id, tx.data.args);
    assert ContractOk(to);
    if command.Some? {
      MultiSign.HandleIsProper(to.contract.m, command.value, tx.sender, env.now, to.balance + tx.value);
    }
  }

  /** A call of a crowd fund of a sound world likewise: a refund goes back to the sender, a payout empties
      the contract and goes to its receiver, and what the contract refunds it always has. */
  lemma CrowdCallExactly(w: World, tx: Tx, env: Env)
    requires WorldOk(w) && ValidTx(tx) && tx.data.Call? && Acc(w, tx.to).contract.Crowd?
    ensures var from, to, command := Acc(w, tx.sender), Acc(w, tx.to), CrowdCommand(tx.data.id);
            if !Backed(from, to, tx, env) then ApplyTx(w, tx, env).None?
            else
              match CrowdFund.Handle(to.contract.c, command, tx.sender, tx.value, Number(env.now), to.balance + tx.value)
              case Failed => ApplyTx(w, tx, env).None?
              case Done(c, refund, false) =>
                && refund <= to.balance + tx.value
                && (ApplyTx(w, tx, env).Some? <==> Spent(from, tx).balance + refund < LIMIT)
                && (ApplyTx(w, tx, env).Some? ==>
                      var w' := ApplyTx(w, tx, env).value;
                      && Acc(w', tx.sender) == Credit(Spent(from, tx), refund)
                      && Acc(w', tx.to) == Account(to.nonce, to.balance + tx.value - refund, Crowd(c))
                      && OthersKept(w, w', {tx.sender, tx.to}))
              case Done(c, _, true) =>
                var p := to.contract.c.terms.receiver;
                && (ApplyTx(w, tx, env).Some? <==>
                      Spent(from, tx).balance < LIMIT && Acc(w, p).balance + to.balance + tx.value < LIMIT)
                && (ApplyTx(w, tx, env).Some? ==>
                      var w' := ApplyTx(w, tx, env).value;
                      && Acc(w', tx.sender) == Spent(from, tx) && Acc(w', tx.to) == Account(to.nonce, 0, Crowd(c))
                      && (p != tx.sender && p != tx.to ==> Acc(w', p) == Credit(Acc(w, p), to.balance + tx.value))
                      && OthersKept(w, w', {tx.sender, tx.to, p}))
  {
    var from, to := Acc(w, tx.sender), Acc(w, tx.to);
    assert ContractOk(to);
    CrowdFund.HandleKeepsSolvent(to.contract.c, CrowdCommand(tx.data.id), tx.sender, tx.value, Number(env.now), to.balance);
  }
}
