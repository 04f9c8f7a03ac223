/** Blocks whose retry does not end in the state it should: an account that a failed run has written is
    not loaded again, because no transaction of the next run has it at an end. */
module Losses {
  import opened Bytes
  import opened Wrappers
  import opened Ledger
  import opened Leftovers
  import opened Removal
  import opened Repeats
  import opened Settlement

  lemma EndsOfOne(tx: Tx)
    ensures Elements(Addresses([tx])) == {tx.sender, tx.to} && Elements(Addresses([])) == {}
  {
    assert Addresses([tx]) == Addresses([]) + [tx.sender, tx.to];
  }

  /** A list of one transaction, and one with more after it. */
  lemma OneRun(w: World, tx: Tx, env: Env)
    ensures var ok := ApplyTx(w, tx, env).Some?;
            && Rejected(w, [tx], env) == (if ok then [] else [tx]) && Final(w, [tx], env) == After(w, tx, env)
            && Touched(w, [tx], env) == if ok then TouchedBy(w, tx, env) else {}
  {
    assert [tx][1..] == [];
  }

  lemma FirstRun(w: World, tx: Tx, rest: seq<Tx>, env: Env)
    ensures Final(w, [tx] + rest, env) == Final(After(w, tx, env), rest, env)
    ensures Touched(w, [tx] + rest, env) ==
            (if ApplyTx(w, tx, env).Some? then TouchedBy(w, tx, env) else {}) + Touched(After(w, tx, env), rest, env)
  {
    assert ([tx] + rest)[1..] == rest;
  }

  // ---------- a payment of a lost transaction ----------

  /** The premises of `ThreeRun`: of the block [a, b, a] the last fails, and `b` needs `a`. */
  ghost predicate SecondNeedsFirst(w: World, a: Tx, b: Tx, env: Env) {
    && ValidTx(a) && ValidTx(b) && a.data.Plain? && b.data.Plain? && a.hash != b.hash
    && ApplyTx(w, a, env).Some? && ApplyTx(After(w, a, env), b, env).Some?
    && ApplyTx(After(After(w, a, env), b, env), a, env).None? && ApplyTx(w, b, env).None?
  }

  lemma ThreeTouched(w: World, a: Tx, b: Tx, env: Env)
    requires SecondNeedsFirst(w, a, b, env)
    ensures Final(w, [a, b, a], env) == After(After(w, a, env), b, env)
    ensures Touched(w, [a, b, a], env) == {a.sender, a.to, b.sender, b.to}
  {
    var w1 := After(w, a, env);
    FirstRun(w, a, [b, a], env);
    FirstRun(w1, b, [a], env);
    OneRun(After(w1, b, env), a, env);
    assert [a] + [b, a] == [a, b, a] && [b] + [a] == [b, a];
  }

  /** The two failed runs of [a, b, a]: the first leaves what `a` and `b` have written, the second
      loads the ends of `b` again. */
  lemma FirstRunLeaves(w: World, a: Tx, b: Tx, env: Env) returns (left: World)
    requires SecondNeedsFirst(w, a, b, env) && a.sender == b.sender && a.to !in {b.sender, b.to}
    ensures left == LeftAfter(w, map[], [a, b, a], env)
    ensures Outside(left, [b]) == map[a.to := Credit(Acc(w, a.to), a.value)]
  {
    left := LeftAfter(w, map[], [a, b, a], env);
    assert Start(w, map[], [a, b, a]) == w;
    ThreeTouched(w, a, b, env);
    EndsOfOne(b);
    assert Acc(After(After(w, a, env), b, env), a.to) == Credit(Acc(w, a.to), a.value);
  }

  lemma SecondRunLeaves(w: World, b: Tx, left: World, env: Env)
    requires b.data.Plain? && ApplyTx(w, b, env).None?
    ensures Rejected(Start(w, left, [b]), [b], env) == [b] && LeftAfter(w, left, [b], env) == Outside(left, [b])
    ensures AllRemoved([b], [b]) == []
  {
    assert AllPlain([b]);
    TransfersIgnoreOutside(w, left, [b], env);
    OneRun(w, b, env);
    OneRun(Start(w, left, [b]), b, env);
    assert Removed([b], b.hash) == [] && [b][1..] == [];
  }

  lemma LostPaymentIsLeft(w: World, a: Tx, b: Tx, env: Env)
    requires SecondNeedsFirst(w, a, b, env) && a.sender == b.sender && a.to !in {b.sender, b.to}
    ensures var r := Settle(w, map[], [a, b, a], env);
            r.kept == [] && r.left == map[a.to := Credit(Acc(w, a.to), a.value)]
  {
    ThreeRun(w, a, b, env);
    ThreeRemoved(a, b);
    assert Start(w, map[], [a, b, a]) == w;
    var left := FirstRunLeaves(w, a, b, env);
    SettleStep(w, map[], [a, b, a], env, [b], left);
    SecondRunLeaves(w, b, left, env);
    SettleStep(w, left, [b], env, [], Outside(left, [b]));
  }

  lemma StartWithOne(w: World, a: Address, account: Account, txs: seq<Tx>)
    requires a !in Elements(Addresses(txs))
    ensures Start(w, map[a := account], txs) == w[a := account]
  {
    assert Outside(map[a := account], txs) == map[a := account];
  }

  lemma OneMoreAccount(w: World, m: World, a: Address, account: Account, txs: seq<Tx>, env: Env)
    requires m == map[a := account] && a !in Elements(Addresses(txs)) && AllPlain(txs) && AllValid(txs) && !env.skipBalance
    ensures Total(Final(Start(w, m, txs), txs, env)) + Acc(w, a).balance == Total(Final(w, txs, env)) + account.balance
  {
    BlockConserves(w, txs, env, a);
    BlockConserves(Start(w, m, txs), txs, env, a);
    StartWithOne(w, a, account, txs);
    TotalPut(w, a, account);
  }

  /** Nothing is kept of the block, and the next block, a single transfer, ends in a state with this
      many coins too many. */
  ghost predicate Mints(w: World, block: seq<Tx>, c: Tx, env: Env, amount: nat) {
    var r := Settle(w, map[], block, env);
    var q := Settle(w, r.left, [c], env);
    r.kept == [] && q.kept == [c] && Total(SettledState(w, q, env)) == Total(Final(w, [c], env)) + amount
  }

  /** A payment that only a lost transaction has made stays in the cache and is written with the next
      good block: after [a, b, a] a transfer `c` that has nothing to do with it ends in a state with as
      many coins more as `a` has paid. */
  lemma LostPaymentIsMinted(w: World, a: Tx, b: Tx, c: Tx, env: Env)
    requires SecondNeedsFirst(w, a, b, env) && a.sender == b.sender && !env.skipBalance
    requires ValidTx(c) && c.data.Plain? && ApplyTx(w, c, env).Some? && a.to !in {b.sender, b.to, c.sender, c.to}
    ensures Mints(w, [a, b, a], c, env, a.value)
  {
    LostPaymentIsLeft(w, a, b, env);
    var left: World := map[a.to := Credit(Acc(w, a.to), a.value)];
    EndsOfOne(c);
    assert AllPlain([c]) && AllValid([c]);
    TransfersIgnoreOutside(w, left, [c], env);
    OneRun(w, c, env);
    OneMoreAccount(w, left, a.to, left[a.to], [c], env);
  }

  /** Of ten coins three are paid, and lost. */
  lemma Example(env: Env) returns (w: World, a: Tx, b: Tx, c: Tx)
    requires !env.skipNonce && !env.skipBalance
    ensures SecondNeedsFirst(w, a, b, env) && a.sender == b.sender && a.to !in {b.sender, b.to, c.sender, c.to}
    ensures ValidTx(c) && c.data.Plain? && ApplyTx(w, c, env).Some? && a.value == 3
    ensures AllValid([a, b, a]) && AllPlain([a, b, a]) && Consistent([a, b, a])
  {
    w := map[[1] := Account(0, 10, NoContract)];
    a, b, c := Tx(1, [1], [2], 3, 1, Plain), Tx(2, [1], [3], 3, 2, Plain), Tx(3, [1], [3], 1, 1, Plain);
  }

  /** It happens, in a block of valid transfers. */
  lemma MintingHappens(env: Env)
    requires !env.skipNonce && !env.skipBalance
    ensures exists w: World, block: seq<Tx>, c: Tx ::
              AllValid(block) && AllPlain(block) && Consistent(block) && Mints(w, block, c, env, 3)
  {
    var w, a, b, c := Example(env);
    LostPaymentIsMinted(w, a, b, c, env);
  }

  // ---------- a contract's payment, twice ----------

  lemma TwoRun(w: World, call: Tx, bad: Tx, env: Env)
    requires ApplyTx(w, call, env).Some? && ApplyTx(After(w, call, env), bad, env).None?
    ensures Accepted(w, [call, bad], env) == [call] && Rejected(w, [call, bad], env) == [bad]
    ensures Final(w, [call, bad], env) == After(w, call, env) && Touched(w, [call, bad], env) == TouchedBy(w, call, env)
  {
    FirstOf(w, call, [bad], env);
    FirstRun(w, call, [bad], env);
    FirstOf(After(w, call, env), bad, [], env);
    OneRun(After(w, call, env), bad, env);
    assert [call] + [bad] == [call, bad] && [bad] + [] == [bad];
  }

  lemma LastRemoved(call: Tx, bad: Tx)
    requires call.hash != bad.hash
    ensures AllRemoved([call, bad], [bad]) == [call]
  {
    assert [call, bad][1..] == [bad] && Removed([bad], bad.hash) == [] && [call] + [] == [call] && [bad][1..] == [];
  }

  /** The call on a world in which its payee has been paid already. */
  lemma PaidOnTop(w: World, call: Tx, env: Env, payee: Address, amount: nat)
    requires ApplyTx(w, call, env).Some? && PaymentOf(w, call, env) == Some((payee, amount))
    requires payee !in {call.sender, call.to} && Acc(w, payee).balance + 2 * amount < LIMIT
    ensures ApplyTx(w[payee := Credit(Acc(w, payee), amount)], call, env)
            == Some(After(w, call, env)[payee := Credit(Acc(w, payee), 2 * amount)])
  {
    var v, e := w[payee := Credit(Acc(w, payee), amount)], Execute(Acc(w, call.sender), Acc(w, call.to), call, env).value;
    assert e.payee == Some((payee, amount)) && Paid(v, e) == w[payee := Credit(Acc(w, payee), 2 * amount)];
    assert Acc(v, call.sender) == Acc(w, call.sender) && Acc(v, call.to) == Acc(w, call.to);
    assert ApplyTx(v, call, env) == Some(Paid(v, e)[call.sender := e.sender][call.to := e.receiver]);
    var w1 := Paid(w, e);
    assert Paid(v, e) == w1[payee := Credit(Acc(w, payee), 2 * amount)];
    assert Paid(v, e)[call.sender := e.sender][call.to := e.receiver]
        == w1[call.sender := e.sender][call.to := e.receiver][payee := Credit(Acc(w, payee), 2 * amount)];
  }

  lemma PaymentIsLeft(w: World, call: Tx, bad: Tx, env: Env, payee: Address, amount: nat)
    requires ApplyTx(w, call, env).Some? && ApplyTx(After(w, call, env), bad, env).None?
    requires PaymentOf(w, call, env) == Some((payee, amount)) && payee !in {call.sender, call.to}
    ensures Start(w, LeftAfter(w, map[], [call, bad], env), [call]) == w[payee := Credit(Acc(w, payee), amount)]
  {
    assert Start(w, map[], [call, bad]) == w;
    TwoRun(w, call, bad, env);
    EndsOfOne(call);
    var left := LeftAfter(w, map[], [call, bad], env);
    assert Outside(left, [call]) == map[payee := Credit(Acc(w, payee), amount)];
  }

  /** A contract's payment to an account that is no end of a transaction is made twice when another
      transaction of the block fails: the payee is not loaded again, and the second run pays on top
      of what the first has left. */
  lemma RetryPaysTwice(w: World, call: Tx, bad: Tx, env: Env, payee: Address, amount: nat)
    requires call.hash != bad.hash && ApplyTx(w, call, env).Some? && ApplyTx(After(w, call, env), bad, env).None?
    requires PaymentOf(w, call, env) == Some((payee, amount))
    requires payee !in {call.sender, call.to} && Acc(w, payee).balance + 2 * amount < LIMIT
    ensures var r := Settle(w, map[], [call, bad], env);
            && r.kept == Accepted(w, [call, bad], env) == [call]
            && Acc(Final(w, [call, bad], env), payee) == Credit(Acc(w, payee), amount)
            && SettledState(w, r, env) == Final(w, [call, bad], env)[payee := Credit(Acc(w, payee), 2 * amount)]
  {
    assert Start(w, map[], [call, bad]) == w;
    TwoRun(w, call, bad, env);
    LastRemoved(call, bad);
    var left := LeftAfter(w, map[], [call, bad], env);
    SettleStep(w, map[], [call, bad], env, [call], left);
    PaymentIsLeft(w, call, bad, env, payee, amount);
    PaidOnTop(w, call, env, payee, amount);
    OneRun(Start(w, left, [call]), call, env);
  }

  /** A call and a failing transaction of a block that ends, by its retry, with a payment made twice. */
  ghost predicate PaysTwice(w: World, call: Tx, bad: Tx, env: Env, payee: Address, amount: nat) {
    && call.hash != bad.hash && ApplyTx(w, call, env).Some? && ApplyTx(After(w, call, env), bad, env).None?
    && PaymentOf(w, call, env) == Some((payee, amount)) && amount > 0
    && payee !in {call.sender, call.to} && Acc(w, payee).balance + 2 * amount < LIMIT
  }

  /** A crowd fund of five coins that has reached its target, the call that pays it out, with one coin
      more, and a transfer whose nonce has been used. */
  lemma PayoutExample(env: Env) returns (w: World, call: Tx, bad: Tx)
    requires !env.skipNonce
    ensures AllValid([call, bad]) && Consistent([call, bad]) && WorldOk(w) && PaysTwice(w, call, bad, env, [3], 6)
  {
    var fund := CrowdFund.State(CrowdFund.Terms(0, 0, [3], 5, 0), false, map[]);
    w := map[[1] := Account(0, 10, NoContract), [9] := Account(0, 5, Crowd(fund))];
    call, bad := Tx(1, [1], [9], 1, 1, Call(102, [])), Tx(2, [1], [2], 1, 1, Plain);
    PayoutGoes(w, fund, call, env);
    assert Acc(After(w, call, env), [1]) == Account(1, 9, NoContract);
  }

  lemma PayoutGoes(w: World, fund: CrowdFund.State, call: Tx, env: Env)
    requires fund == CrowdFund.State(CrowdFund.Terms(0, 0, [3], 5, 0), false, map[])
    requires w == map[[1] := Account(0, 10, NoContract), [9] := Account(0, 5, Crowd(fund))]
    requires call == Tx(1, [1], [9], 1, 1, Call(102, []))
    ensures WorldOk(w) && PaymentOf(w, call, env) == Some(([3], 6))
    ensures ApplyTx(w, call, env) == Some(w[[3] := Account(0, 6, NoContract)][[1] := Account(1, 9, NoContract)]
                                           [[9] := Account(0, 0, Crowd(fund.(destroyed := true)))])
  {
    assert CrowdFund.Handle(fund, CrowdFund.Receive, [1], 1, Number(env.now), 6) == CrowdFund.Done(fund.(destroyed := true), 0, true);
  }

  /** It happens, in a world of sound contracts and a block of valid transactions. */
  lemma PayingTwiceHappens(env: Env)
    requires !env.skipNonce
    ensures exists w: World, block: seq<Tx>, payee: Address, amount: nat ::
              AllValid(block) && Consistent(block) && WorldOk(w) && EndsTwicePaid(w, block, env, payee, amount)
  {
    var w, call, bad := PayoutExample(env);
    RetryPaysTwice(w, call, bad, env, [3], 6);
    assert EndsTwicePaid(w, [call, bad], env, [3], 6);
  }

  /** What succeeds is kept, and the state is the right one but for coins paid to the payee again. */
  ghost predicate EndsTwicePaid(w: World, block: seq<Tx>, env: Env, payee: Address, amount: nat) {
    var r, right := Settle(w, map[], block, env), Final(w, block, env);
    && r.kept == Accepted(w, block, env) && amount > 0
    && Acc(right, payee) == Credit(Acc(w, payee), amount)
    && SettledState(w, r, env) == right[payee := Credit(Acc(w, payee), 2 * amount)]
  }
}
