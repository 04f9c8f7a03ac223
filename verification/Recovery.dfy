/** Blocks that can be recovered from, of whatever transactions: exactly when all runs together end in
    the state of the sequential run. */
module Recovery {
  import opened Bytes
  import opened Ledger
  import opened Leftovers
  import opened Removal
  import opened Repeats
  import opened Settlement

  lemma SameAccountsSameStep(v: World, w: World, tx: Tx, env: Env)
    requires forall a :: Acc(v, a) == Acc(w, a)
    ensures ApplyTx(v, tx, env).Some? <==> ApplyTx(w, tx, env).Some?
    ensures TouchedBy(v, tx, env) == TouchedBy(w, tx, env)
    ensures forall a :: Acc(After(v, tx, env), a) == Acc(After(w, tx, env), a)
  {
    if ApplyTx(w, tx, env).Some? {
      var e := Execute(Acc(w, tx.sender), Acc(w, tx.to), tx, env).value;
      assert After(v, tx, env) == Paid(v, e)[tx.sender := e.sender][tx.to := e.receiver];
      assert After(w, tx, env) == Paid(w, e)[tx.sender := e.sender][tx.to := e.receiver];
      forall a ensures Acc(After(v, tx, env), a) == Acc(After(w, tx, env), a) {
        assert Acc(v, a) == Acc(w, a);
        assert e.payee.Some? ==> Acc(v, e.payee.value.0) == Acc(w, e.payee.value.0);
      }
    }
  }

  /** A run depends on the accounts alone, not on which empty ones have an entry. */
  lemma {:induction false} SameAccountsSameRun(v: World, w: World, txs: seq<Tx>, env: Env)
    requires forall a :: Acc(v, a) == Acc(w, a)
    ensures Rejected(v, txs, env) == Rejected(w, txs, env) && Touched(v, txs, env) == Touched(w, txs, env)
    ensures forall a :: Acc(Final(v, txs, env), a) == Acc(Final(w, txs, env), a)
    decreases |txs|
  {
    if txs != [] {
      SameAccountsSameStep(v, w, txs[0], env);
      SameAccountsSameRun(After(v, txs[0], env), After(w, txs[0], env), txs[1..], env);
    }
  }

  /** The accounts with an entry after a run. */
  lemma {:induction false} KeysAfter(w: World, txs: seq<Tx>, env: Env)
    ensures Final(w, txs, env).Keys == w.Keys + Touched(w, txs, env)
    decreases |txs|
  {
    if txs != [] {
      assert ApplyTx(w, txs[0], env).Some? ==> After(w, txs[0], env).Keys == w.Keys + TouchedBy(w, txs[0], env);
      KeysAfter(After(w, txs[0], env), txs[1..], env);
    }
  }

  ghost predicate EndsAmong(txs: seq<Tx>, ends: set<Address>) {
    forall i | 0 <= i < |txs| :: txs[i].sender in ends && txs[i].to in ends
  }

  /** Two worlds that agree on the ends of a transaction: it has the same effect, so that any other
      account is paid the same. */
  lemma SamePayment(v: World, w: World, tx: Tx, env: Env, ends: set<Address>)
    requires tx.sender in ends && tx.to in ends && forall a | a in ends :: Acc(v, a) == Acc(w, a)
    requires ApplyTx(v, tx, env).Some? && ApplyTx(w, tx, env).Some?
    ensures forall a | a in ends :: Acc(After(v, tx, env), a) == Acc(After(w, tx, env), a)
    ensures forall a | a !in ends ::
              Acc(After(v, tx, env), a).balance - Acc(v, a).balance == Acc(After(w, tx, env), a).balance - Acc(w, a).balance
    ensures forall a | a !in ends :: Acc(After(w, tx, env), a) == Acc(w, a).(balance := Acc(After(w, tx, env), a).balance)
  {
    var e := Execute(Acc(w, tx.sender), Acc(w, tx.to), tx, env).value;
    var v1, w1 := Paid(v, e), Paid(w, e);
    assert After(v, tx, env) == v1[tx.sender := e.sender][tx.to := e.receiver];
    assert After(w, tx, env) == w1[tx.sender := e.sender][tx.to := e.receiver];
  }

  lemma {:induction false} SamePayments(v: World, w: World, txs: seq<Tx>, env: Env, ends: set<Address>, a: Address)
    requires EndsAmong(txs, ends) && (forall b | b in ends :: Acc(v, b) == Acc(w, b)) && a !in ends
    requires Rejected(v, txs, env) == [] && Rejected(w, txs, env) == []
    ensures Acc(Final(v, txs, env), a).balance - Acc(v, a).balance == Acc(Final(w, txs, env), a).balance - Acc(w, a).balance
    ensures Acc(Final(w, txs, env), a) == Acc(w, a).(balance := Acc(Final(w, txs, env), a).balance)
    decreases |txs|
  {
    if txs != [] {
      SamePayment(v, w, txs[0], env, ends);
      SamePayments(After(v, txs[0], env), After(w, txs[0], env), txs[1..], env, ends, a);
    }
  }

  /** When something of the block fails, every account it pays that is no end of an accepted transaction
      is as it was: the payments come to nothing, or there are none. Transfers pay no such account. */
  ghost predicate NothingPaidBeside(w: World, txs: seq<Tx>, env: Env) {
    Rejected(w, txs, env) != [] ==>
      forall a | a in Touched(w, txs, env) && a !in Addresses(Accepted(w, txs, env)) :: Acc(Final(w, txs, env), a) == Acc(w, a)
  }

  lemma TransfersPayNothingBeside(w: World, txs: seq<Tx>, env: Env)
    requires AllPlain(txs)
    ensures NothingPaidBeside(w, txs, env)
  {
    TransfersTouchTheirEnds(w, txs, env);
    AcceptedAddresses(w, txs, env);
  }

  /** What the first run of a block on a clean cache leaves to the second. */
  lemma FirstRunLeaves(parent: World, txs: seq<Tx>, env: Env) returns (left: World, start: World)
    ensures left == LeftAfter(parent, map[], txs, env) && start == Start(parent, left, Accepted(parent, txs, env))
    ensures left == Restricted(Final(parent, txs, env), Touched(parent, txs, env))
    ensures forall a :: Acc(start, a) ==
              if a in Touched(parent, txs, env) && a !in Addresses(Accepted(parent, txs, env)) then Acc(Final(parent, txs, env), a)
              else Acc(parent, a)
    ensures parent.Keys <= start.Keys <= parent.Keys + Touched(parent, txs, env)
  {
    assert Start(parent, map[], txs) == parent;
    left := LeftAfter(parent, map[], txs, env);
    start := Start(parent, left, Accepted(parent, txs, env));
  }

  lemma {:induction false} TouchedByAccepted(w: World, txs: seq<Tx>, env: Env)
    ensures Touched(w, Accepted(w, txs, env), env) == Touched(w, txs, env)
    decreases |txs|
  {
    if txs != [] {
      var w' := After(w, txs[0], env);
      TouchedByAccepted(w', txs[1..], env);
      assert ([txs[0]] + Accepted(w', txs[1..], env))[1..] == Accepted(w', txs[1..], env);
    }
  }

  /** The second run of the accepted ones ends as the first if they pay nothing beside. */
  lemma SecondRunIsRight(parent: World, txs: seq<Tx>, env: Env, start: World)
    requires var accepted, touched := Accepted(parent, txs, env), Touched(parent, txs, env);
             && (forall a :: Acc(start, a) == Acc(parent, a)) && parent.Keys <= start.Keys <= parent.Keys + touched
    ensures Rejected(start, Accepted(parent, txs, env), env) == []
    ensures Final(start, Accepted(parent, txs, env), env) == Final(parent, txs, env)
  {
    var accepted := Accepted(parent, txs, env);
    AcceptedAgain(parent, txs, env);
    SameAccountsSameRun(start, parent, accepted, env);
    TouchedByAccepted(parent, txs, env);
    KeysAfter(start, accepted, env);
    KeysAfter(parent, accepted, env);
    var v, w := Final(start, accepted, env), Final(parent, accepted, env);
    assert v.Keys == w.Keys;
    forall a | a in v ensures v[a] == w[a] { assert Acc(v, a) == Acc(w, a); }
  }

  /** And only then. */
  lemma SecondRunIsWrong(parent: World, txs: seq<Tx>, env: Env, left: World, start: World)
    requires left == LeftAfter(parent, map[], txs, env) && start == Start(parent, left, Accepted(parent, txs, env))
    requires Rejected(parent, txs, env) != [] && !NothingPaidBeside(parent, txs, env)
    requires Rejected(start, Accepted(parent, txs, env), env) == []
    ensures Final(start, Accepted(parent, txs, env), env) != Final(parent, txs, env)
  {
    var accepted := Accepted(parent, txs, env);
    var ends := Elements(Addresses(accepted));
    var left', start' := FirstRunLeaves(parent, txs, env);
    AcceptedAgain(parent, txs, env);
    AddressesHaveEnds(accepted);
    var a :| a in Touched(parent, txs, env) && a !in Addresses(accepted) && Acc(Final(parent, txs, env), a) != Acc(parent, a);
    SamePayments(start, parent, accepted, env, ends, a);
  }

  /** A block that can be recovered from, run on a cache without modified entries: at most two runs,
      the whole block's state, and nothing modified left over. */
  lemma RecoveredCleanly(parent: World, txs: seq<Tx>, env: Env)
    requires AllValid(txs) && Consistent(txs) && Recoverable(parent, txs, env) && !env.skipNonce
    requires NothingPaidBeside(parent, txs, env)
    ensures var r := Settle(parent, map[], txs, env);
            && r.runs <= 2 && r.kept == Accepted(parent, txs, env)
            && SettledState(parent, r, env) == Final(parent, r.kept, env) == Final(parent, txs, env)
            && (r.kept == [] ==> r.left == map[] && Final(parent, txs, env) == parent)
  {
    var accepted, failed := Accepted(parent, txs, env), Rejected(parent, txs, env);
    assert Start(parent, map[], txs) == parent;
    AcceptedAgain(parent, txs, env);
    if failed == [] {
      NoneRejected(parent, txs, env);
    } else {
      KeptExactly(parent, txs, env);
      var left, start := FirstRunLeaves(parent, txs, env);
      SettleStep(parent, map[], txs, env, accepted, left);
      SecondRunIsRight(parent, txs, env, start);
      if accepted == [] { TouchedByAccepted(parent, txs, env); }
    }
  }

  /** For such a block, of whatever transactions: what is kept and the state it ends in are right if and
      only if it has paid nothing beside the ends of its accepted transactions, or nothing of it fails. */
  lemma RecoveredExactly(parent: World, txs: seq<Tx>, env: Env)
    requires AllValid(txs) && Consistent(txs) && Recoverable(parent, txs, env) && !env.skipNonce
    ensures var r := Settle(parent, map[], txs, env);
            r.kept == Accepted(parent, txs, env) && SettledState(parent, r, env) == Final(parent, txs, env)
            <==> NothingPaidBeside(parent, txs, env)
  {
    if NothingPaidBeside(parent, txs, env) {
      RecoveredCleanly(parent, txs, env);
    } else {
      var accepted := Accepted(parent, txs, env);
      assert Start(parent, map[], txs) == parent;
      KeptExactly(parent, txs, env);
      var left, start := FirstRunLeaves(parent, txs, env);
      SettleStep(parent, map[], txs, env, accepted, left);
      if Rejected(start, accepted, env) == [] {
        SecondRunIsWrong(parent, txs, env, left, start);
      } else {
        AllRemovedIsShorter(start, accepted, env);
        SettleIsShorter(parent, LeftAfter(parent, left, accepted, env), AllRemoved(accepted, Rejected(start, accepted, env)), env);
      }
    }
  }
}
