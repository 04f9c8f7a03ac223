/** Running a block of transactions over the cache, and the retry without the invalid ones. */
module Blocks {
  import opened Bytes
  import opened Wrappers
  import opened Ledger
  import opened Leftovers
  import opened AccountCache
  import opened StateTrie

  // ---------- a cache that shows a world ----------

  /** On the known addresses, which include all modified ones, the cache holds what the world holds;
      elsewhere the trie does. Unmodified entries at other addresses may be left from an earlier
      block. The world has an entry for every account of the trie and every modified one. */
  ghost predicate Shows(s: State, known: set<Address>, w: World) {
    && Modified(s) <= known && w.Keys == s.trie.Keys + Modified(s)
    && (forall a | a in known :: ShowsKnown(s, w, a))
    && (forall a | a !in known :: Acc(s.trie, a) == Acc(w, a))
  }

  ghost predicate ShowsKnown(s: State, w: World, a: Address) {
    a in s.cache && s.cache[a].val == Acc(w, a) && (!s.cache[a].modified ==> Acc(s.trie, a) == Acc(w, a))
  }

  lemma WriteShows(s: State, known: set<Address>, w: World, a: Address, val: Account)
    requires Shows(s, known, w)
    ensures Shows(Written(s, a, val), known + {a}, w[a := val])
    ensures Modified(Written(s, a, val)) == Modified(s) + {a}
    ensures Coherent(s) && (val != EMPTY || Acc(w, a) == EMPTY) ==> Coherent(Written(s, a, val))
  {
    var s' := Written(s, a, val);
    forall b | b in known + {a} ensures ShowsKnown(s', w[a := val], b) {
      assert b in known ==> ShowsKnown(s, w, b);
    }
    if Coherent(s) && (val != EMPTY || Acc(w, a) == EMPTY) {
      assert a in known ==> ShowsKnown(s, w, a) && CoherentAt(s, a);
      forall b | b in s'.cache ensures CoherentAt(s', b) { assert b in s.cache ==> CoherentAt(s, b); }
    }
  }

  /** Reading an account beyond the warmed ones. */
  lemma LoadShows(s: State, known: set<Address>, w: World, a: Address)
    requires Shows(s, known, w) && Coherent(s)
    ensures Coherent(LoadedIfEmpty(s, a)) && LoadedIfEmpty(s, a).cache[a].val == Acc(w, a)
    ensures Acc(w, a) != EMPTY ==> Shows(LoadedIfEmpty(s, a), known + {a}, w) && Modified(LoadedIfEmpty(s, a)) == Modified(s)
  {
    var s' := LoadedIfEmpty(s, a);
    DoChangesOnlyPuts(s, Load(a), a);
    assert a in s.cache ==> CoherentAt(s, a);
    assert a in known ==> ShowsKnown(s, w, a);
    assert a !in known ==> a !in Modified(s);
    if Acc(w, a) != EMPTY {
      forall b | b in known + {a} ensures ShowsKnown(s', w, b) { assert b in known ==> ShowsKnown(s, w, b); }
    }
  }

  lemma FlushShows(s: State, known: set<Address>, w: World)
    requires Shows(s, known, w)
    ensures Flushed(s).trie == w
  {
    var v := Flushed(s).trie;
    forall a ensures (a in v <==> a in w) && Acc(v, a) == Acc(w, a) {
      if a in known { assert ShowsKnown(s, w, a); } else { assert a !in Modified(s); }
    }
    assert forall a | a in v :: v[a] == Acc(v, a) == Acc(w, a) == w[a];
  }

  lemma ChangesShown(s: State, known: set<Address>, w: World)
    requires Shows(s, known, w)
    ensures Changes(s.cache) == Restricted(w, Modified(s))
  {
    forall a | a in Modified(s) ensures s.cache[a].val == Acc(w, a) { assert ShowsKnown(s, w, a); }
  }

  lemma WarmShowsAt(s: State, txs: seq<Tx>, a: Address)
    ensures var s', m := Warmed(s, Addresses(txs)), Changes(s.cache);
            var w := Start(s.trie, m, txs);
            && s'.trie == s.trie && (a in Modified(s') <==> a in Outside(m, txs))
            && (a in Addresses(txs) || a in Outside(m, txs) ==> ShowsKnown(s', w, a))
            && (Coherent(s) && a in s'.cache ==> CoherentAt(s', a))
  {
    WarmedAt(s, Addresses(txs), a);
    assert a in s.cache && Coherent(s) ==> CoherentAt(s, a);
  }

  lemma WarmShows(s: State, txs: seq<Tx>)
    ensures var s' := Warmed(s, Addresses(txs));
            && Modified(s') == Outside(Changes(s.cache), txs).Keys
            && Shows(s', Elements(Addresses(txs)) + Modified(s'), Start(s.trie, Changes(s.cache), txs))
            && (Coherent(s) ==> Coherent(s'))
  {
    var s', m := Warmed(s, Addresses(txs)), Changes(s.cache);
    var w := Start(s.trie, m, txs);
    forall a
      ensures s'.trie == s.trie && (a in Modified(s') <==> a in Outside(m, txs))
      ensures a in Addresses(txs) || a in Outside(m, txs) ==> ShowsKnown(s', w, a)
      ensures Coherent(s) && a in s'.cache ==> CoherentAt(s', a)
    {
      WarmShowsAt(s, txs, a);
    }
    assert Modified(s') == Outside(m, txs).Keys;
  }

  // ---------- one transaction ----------

  /** What a valid transaction leaves at its two ends is not empty. */
  lemma EndsAreNotEmpty(from: Account, to: Account, tx: Tx, env: Env)
    requires ValidTx(tx) && Execute(from, to, tx, env).Some?
    ensures Execute(from, to, tx, env).value.sender != EMPTY && Execute(from, to, tx, env).value.receiver != EMPTY
  {}

  /** An account that may have to be loaded first, with a payment if it has room. */
  function PaidIn(s: State, payee: Address, val: Account): State {
    if val.balance < LIMIT then Written(LoadedIfEmpty(s, payee), payee, val) else LoadedIfEmpty(s, payee)
  }

  lemma PayShows(s: State, known: set<Address>, w: World, payee: Address, amount: nat)
    requires Shows(s, known, w) && Coherent(s) && amount < LIMIT
    ensures LoadedIfEmpty(s, payee).cache[payee].val == Acc(w, payee)
    ensures var val := Credit(Acc(w, payee), amount);
            var s', ok := PaidIn(s, payee, val), val.balance < LIMIT;
            && Coherent(s') && Shows(s', known + {payee}, if ok then w[payee := val] else w)
            && Modified(s') == Modified(s) + if ok then {payee} else {}
  {
    LoadShows(s, known, w, payee);
    var val := Credit(Acc(w, payee), amount);
    if val.balance < LIMIT {
      WriteShows(s, known, w, payee, val);
      assert Written(LoadedIfEmpty(s, payee), payee, val) == Written(s, payee, val);
      assert payee !in known ==> payee !in Modified(s);
      if Acc(w, payee) == EMPTY && payee in s.cache { assert CoherentAt(s, payee); }
      DoChangesOnlyPuts(LoadedIfEmpty(s, payee), AccountCache.Put(payee, val), payee);
    }
  }

  method Pay(c: Cache, payee: Address, amount: nat, ghost known: set<Address>, ghost w: World) returns (ok: bool)
    requires c.Valid() && Shows(c.Fields(), known, w) && Coherent(c.Fields()) && amount < LIMIT
    modifies c`cache
    ensures ok <==> Acc(w, payee).balance + amount < LIMIT
    ensures Shows(c.Fields(), known + {payee}, if ok then w[payee := Credit(Acc(w, payee), amount)] else w)
    ensures Modified(c.Fields()) == old(Modified(c.Fields())) + if ok then {payee} else {}
    ensures Coherent(c.Fields())
  {
    PayShows(c.Fields(), known, w, payee, amount);
    ghost var after := PaidIn(c.Fields(), payee, Credit(Acc(w, payee), amount));
    var account := c.GetOrLoad(payee);
    ok := account.balance + amount < LIMIT;
    if ok { c.Put(payee, account.(balance := account.balance + amount), true); }
    assert c.Fields() == after;
  }

  /** A contract call has gone as `call` says, with the payee written and the two ends in hand. */
  ghost predicate Called(w: World, call: Option<Effect>, m: set<Address>, s: State, known: set<Address>,
                         ok: bool, from: Account, to: Account, w': World) {
    && Coherent(s) && Shows(s, known, w')
    && (ok <==> call.Some? && !PaymentOverflows(w, call.value))
    && (ok ==> call.value.sender == from && call.value.receiver == to)
    && w' == (if ok then Paid(w, call.value) else w) && Modified(s) == m + if ok then Payees(call.value.payee) else {}
  }

  method RunMulti(c: Cache, m: MultiSign.State, from: Account, to: Account, tx: Tx, env: Env,
                  ghost known: set<Address>, ghost w: World)
    returns (ok: bool, to': Account, ghost known': set<Address>, ghost w': World)
    requires c.Valid() && tx.data.Call? && Shows(c.Fields(), known, w) && Coherent(c.Fields())
    requires to.balance < LIMIT && to.contract == Multi(m)
    modifies c`cache
    ensures Called(w, CallContract(from, to, tx, env), old(Modified(c.Fields())), c.Fields(), known', ok, from, to', w')
    ensures known <= known'
  {
    ok, to', known', w' := false, to, known, w;
    var command := MultiCommand(tx.data.id, tx.data.args);
    if command.None? { return; }
    var contract := new MultiSign.Contract(m);
    var paid;
    ok, paid := contract.CommandHandler(command.value, tx.sender, env.now, to.balance);
    if !ok { return; }
    to' := to'.(contract := Multi(contract.Fields()));
    if paid.Some? {
      if paid.value.amount > to.balance { ok := false; return; }
      known' := known + {paid.value.to};
      ok := Pay(c, paid.value.to, paid.value.amount, known, w);
      if ok { w' := w[paid.value.to := Credit(Acc(w, paid.value.to), paid.value.amount)]; }
      to' := to'.(balance := to.balance - paid.value.amount);
    }
  }

  method RunCrowd(c: Cache, f: CrowdFund.State, from: Account, to: Account, tx: Tx, env: Env,
                  ghost known: set<Address>, ghost w: World)
    returns (ok: bool, from': Account, to': Account, ghost known': set<Address>, ghost w': World)
    requires c.Valid() && tx.data.Call? && Shows(c.Fields(), known, w) && Coherent(c.Fields())
    requires to.balance < LIMIT && to.contract == Crowd(f)
    modifies c`cache
    ensures Called(w, CallContract(from, to, tx, env), old(Modified(c.Fields())), c.Fields(), known', ok, from', to', w')
    ensures known <= known'
  {
    ok, from', to', known', w' := false, from, to, known, w;
    var contract := new CrowdFund.Contract(f);
    var refund, payout;
    ok, refund, payout := contract.Run(CrowdCommand(tx.data.id), tx.sender, tx.value, Number(env.now), to.balance);
    if !ok { return; }
    to' := to'.(contract := Crowd(contract.Fields()));
    if refund > to.balance || from.balance + refund >= LIMIT { ok := false; return; }
    if payout {
      known' := known + {f.terms.receiver};
      ok := Pay(c, f.terms.receiver, to.balance, known, w);
      if ok { w' := w[f.terms.receiver := Credit(Acc(w, f.terms.receiver), to.balance)]; }
      to' := to'.(balance := 0);
    } else {
      from', to' := from.(balance := from.balance + refund), to'.(balance := to.balance - refund);
    }
  }

  /** A contract call, with the coins moved in `from` and `to` but not written yet. */
  method RunContract(c: Cache, from: Account, to: Account, tx: Tx, env: Env, ghost known: set<Address>, ghost w: World)
    returns (ok: bool, from': Account, to': Account, ghost known': set<Address>, ghost w': World)
    requires c.Valid() && tx.data.Call? && Shows(c.Fields(), known, w) && Coherent(c.Fields()) && to.balance < LIMIT
    modifies c`cache
    ensures Called(w, CallContract(from, to, tx, env), old(Modified(c.Fields())), c.Fields(), known', ok, from', to', w')
    ensures known <= known'
  {
    ok, from', to', known', w' := false, from, to, known, w;
    match to.contract
    case NoContract =>
    case Multi(m) => ok, to', known', w' := RunMulti(c, m, from, to, tx, env, known, w);
    case Crowd(f) => ok, from', to', known', w' := RunCrowd(c, f, from, to, tx, env, known, w);
  }

  /** The check of the sender and the moves of nonce and coins, step by step. */
  method MoveCoins(c: Cache, tx: Tx, env: Env) returns (ok: bool, from: Account, to: Account)
    requires tx.sender in c.cache && tx.to in c.cache
    ensures var f, t := c.cache[tx.sender].val, c.cache[tx.to].val;
            && (ok <==> CanMove(f, t, tx, env) && (tx.data.Create? ==> t == EMPTY) && (tx.data.Call? ==> t != EMPTY))
            && (ok ==> from == Debited(f, tx) && to == Credit(t, tx.value))
  {
    ok, to := false, EMPTY;
    from := c.Get(tx.sender);
    if from.contract != NoContract { return; }
    if !env.skipBalance && from.balance < tx.value { return; }
    if from.nonce + 1 >= LIMIT { return; }
    from := from.(nonce := from.nonce + 1);
    if !env.skipNonce && from.nonce != tx.nonce { return; }
    var newBalance := if from.balance < tx.value then 0 else from.balance - tx.value;
    from := from.(balance := newBalance);
    to := c.Get(tx.to);
    if tx.data.Create? && to != EMPTY { return; }
    if tx.data.Call? && to == EMPTY { return; }
    if to.balance + tx.value >= LIMIT { return; }
    to := to.(balance := to.balance + tx.value);
    ok := true;
  }

  /** What the data of the transaction asks for, with the coins moved but not written yet. */
  method RunData(c: Cache, from: Account, to: Account, tx: Tx, env: Env, ghost known: set<Address>, ghost w: World)
    returns (ok: bool, from': Account, to': Account, ghost known': set<Address>, ghost w': World)
    requires c.Valid() && Shows(c.Fields(), known, w) && (tx.data.Plain? || Coherent(c.Fields()))
    requires CanMove(Acc(w, tx.sender), Acc(w, tx.to), tx, env) && (tx.data.Create? ==> Acc(w, tx.to) == EMPTY)
    requires from == Debited(Acc(w, tx.sender), tx) && to == Credit(Acc(w, tx.to), tx.value)
    modifies c`cache
    ensures Shows(c.Fields(), known', w') && known <= known'
    ensures old(Coherent(c.Fields())) ==> Coherent(c.Fields())
    ensures tx.data.Plain? ==> known' == known && c.cache == old(c.cache)
    ensures Modified(c.Fields()) == old(Modified(c.Fields())) + if ok then Payees(PaymentOf(w, tx, env)) else {}
    ensures ok <==> ApplyTx(w, tx, env).Some?
    ensures ok ==> ApplyTx(w, tx, env).value == w'[tx.sender := from'][tx.to := to']
                   && Execute(Acc(w, tx.sender), Acc(w, tx.to), tx, env).value == Effect(from', to', PaymentOf(w, tx, env))
    ensures !ok ==> w' == w
  {
    ok, from', to', known', w' := true, from, to, known, w;
    match tx.data
    case Plain =>
    case Create(contract) =>
      ok := FreshContract(contract);
      to' := to.(contract := contract);
    case Call(_, _) =>
      ok, from', to', known', w' := RunContract(c, from, to, tx, env, known, w);
  }

  /** The two final writes, on top of a payment to a third account. */
  lemma EndsShow(s: State, known: set<Address>, w: World, w': World, tx: Tx, env: Env, from: Account, to: Account)
    requires Shows(s, known, w') && tx.sender in known && tx.to in known && ValidTx(tx)
    requires ApplyTx(w, tx, env) == Some(w'[tx.sender := from][tx.to := to])
    requires Execute(Acc(w, tx.sender), Acc(w, tx.to), tx, env).value == Effect(from, to, PaymentOf(w, tx, env))
    ensures var s' := Written(Written(s, tx.sender, from), tx.to, to);
            && Shows(s', known, After(w, tx, env)) && (Coherent(s) ==> Coherent(s'))
            && forall m :: Modified(s) == m + Payees(PaymentOf(w, tx, env)) ==> Modified(s') == m + TouchedBy(w, tx, env)
  {
    EndsAreNotEmpty(Acc(w, tx.sender), Acc(w, tx.to), tx, env);
    WriteShows(s, known, w', tx.sender, from);
    assert known + {tx.sender} == known && known + {tx.to} == known;
    WriteShows(Written(s, tx.sender, from), known, w'[tx.sender := from], tx.to, to);
  }

  /** A transaction succeeds in the cache exactly when it does in the world shown, and the cache then
      shows the world after it. A call of a contract reads beyond the two warmed addresses. */
  method RunTx(c: Cache, tx: Tx, env: Env, ghost known: set<Address>, ghost w: World)
    returns (ok: bool, ghost known': set<Address>)
    requires c.Valid() && Shows(c.Fields(), known, w) && tx.sender in known && tx.to in known && ValidTx(tx)
    requires tx.data.Plain? || Coherent(c.Fields())
    modifies c`cache
    ensures ok <==> ApplyTx(w, tx, env).Some?
    ensures Shows(c.Fields(), known', After(w, tx, env)) && known <= known'
    ensures old(Coherent(c.Fields())) ==> Coherent(c.Fields())
    ensures Modified(c.Fields()) == old(Modified(c.Fields())) + if ok then TouchedBy(w, tx, env) else {}
  {
    known' := known;
    assert ShowsKnown(c.Fields(), w, tx.sender) && ShowsKnown(c.Fields(), w, tx.to);
    var from, to;
    ok, from, to := MoveCoins(c, tx, env);
    if !ok { return; }
    ghost var w1;
    ok, from, to, known', w1 := RunData(c, from, to, tx, env, known, w);
    if !ok { return; }
    EndsShow(c.Fields(), known', w, w1, tx, env, from, to);
    c.Put(tx.sender, from, true);
    c.Put(tx.to, to, true);
  }

  // ---------- a block ----------

  /** From a start with some modified entries, some transactions have been run, and `failed` is what
      failed of them. */
  ghost predicate Midway(s: State, known: set<Address>, start: World, m: set<Address>, done: seq<Tx>, env: Env, failed: seq<Tx>) {
    && Shows(s, known, Final(start, done, env)) && failed == Rejected(start, done, env)
    && Modified(s) == m + Touched(start, done, env)
  }

  predicate EndsIn(txs: seq<Tx>, known: set<Address>) {
    forall i | 0 <= i < |txs| :: txs[i].sender in known && txs[i].to in known
  }

  /** One round of the loop over the transactions. */
  method RunNext(c: Cache, tx: Tx, env: Env, failed: seq<Tx>, ghost known: set<Address>, ghost start: World,
                 ghost m: set<Address>, ghost done: seq<Tx>)
    returns (failed': seq<Tx>, ghost known': set<Address>)
    requires c.Valid() && Midway(c.Fields(), known, start, m, done, env, failed)
    requires ValidTx(tx) && tx.sender in known && tx.to in known && (tx.data.Plain? || Coherent(c.Fields()))
    modifies c`cache
    ensures Midway(c.Fields(), known', start, m, done + [tx], env, failed') && known <= known'
    ensures old(Coherent(c.Fields())) ==> Coherent(c.Fields())
  {
    OneMore(start, done, tx, env);
    OneMoreTouched(start, done, tx, env);
    var ok;
    ok, known' := RunTx(c, tx, env, known, Final(start, done, env));
    failed' := if ok then failed else failed + [tx];
  }

  /** All transactions one after the other, with what fails collected. */
  method RunAll(c: Cache, txs: seq<Tx>, env: Env, ghost warm: set<Address>, ghost start: World)
    returns (failed: seq<Tx>, ghost known: set<Address>)
    requires AllValid(txs) && EndsIn(txs, warm)
    requires c.Valid() && Shows(c.Fields(), warm, start)
    requires AllPlain(txs) || Coherent(c.Fields())
    modifies c`cache
    ensures Midway(c.Fields(), known, start, old(Modified(c.Fields())), txs, env, failed)
    ensures old(Coherent(c.Fields())) ==> Coherent(c.Fields())
  {
    failed, known := [], warm;
    ghost var m, done: seq<Tx> := Modified(c.Fields()), [];
    for i := 0 to |txs|
      invariant c.Valid() && warm <= known && done == txs[..i]
      invariant Midway(c.Fields(), known, start, m, done, env, failed)
      invariant old(Coherent(c.Fields())) ==> Coherent(c.Fields())
    {
      EachIsFine(txs, i, warm);
      failed, known := RunNext(c, txs[i], env, failed, known, start, m, done);
      done := done + [txs[i]];
    }
    assert done == txs;
  }

  lemma EachIsFine(txs: seq<Tx>, i: nat, known: set<Address>)
    requires i < |txs| && AllValid(txs) && EndsIn(txs, known)
    ensures ValidTx(txs[i]) && txs[i].sender in known && txs[i].to in known && (AllPlain(txs) ==> txs[i].data.Plain?)
    ensures txs[..i] + [txs[i]] == txs[..i + 1]
  {}

  method AddressesOf(txs: seq<Tx>) returns (addresses: seq<Address>)
    ensures addresses == Addresses(txs)
  {
    addresses := [];
    for i := 0 to |txs|
      invariant addresses == Addresses(txs[..i])
    {
      addresses := addresses + [txs[i].sender, txs[i].to];
      assert txs[..i + 1][..i] == txs[..i];
    }
    assert txs[..|txs|] == txs;
  }

  /** The run ends well, with the new state root; or some transactions failed; or the root is not
      the one the header of the block gives. */
  datatype RunResult = Finished(stateRoot: Store.Digest) | SomeInvalid(failed: seq<Tx>) | WrongRoot

  /** Run from the parent state, which the root stands for, with whatever modified entries the cache
      has from before. With a failure the trie is untouched, and modified entries are left. Without
      one the trie holds just what the list of transactions makes of the parent with the earlier
      entries that were not warmed, and the run ends well exactly when no root is given or the given
      one is the root of that state. A contract call reads accounts that were not warmed, so that the
      cache must agree with the parent state there. */
  method RunBlock(c: Cache, txs: seq<Tx>, env: Env, root: Store.Digest, expected: Option<Store.Digest>,
                  ghost t: Trie.Tree, ghost parent: World)
    returns (r: RunResult)
    requires c.Valid() && Holds(c.trie.codec, t, parent) && Store.Resolves(c.trie.trie.s, c.trie.trie.View(), root, t)
    requires AllValid(txs) && (AllPlain(txs) || Coherent(State(c.cache, parent)))
    modifies c.Repr()
    ensures c.Valid() && old(c.trie.trie.mainDb).Keys <= c.trie.trie.mainDb.Keys
    ensures r.SomeInvalid? <==> Rejected(Start(parent, Changes(old(c.cache)), txs), txs, env) != []
    ensures r.SomeInvalid? ==> r.failed == Rejected(Start(parent, Changes(old(c.cache)), txs), txs, env) && c.trie.world == parent
    ensures r.SomeInvalid? ==> c.trie.trie.View() == old(c.trie.trie.View()) && c.trie.trie.saved == old(c.trie.trie.saved)
    ensures r.SomeInvalid? ==> Changes(c.cache) == LeftAfter(parent, Changes(old(c.cache)), txs, env)
    ensures r.SomeInvalid? && old(Coherent(State(c.cache, parent))) ==> Coherent(c.Fields())
    ensures !r.SomeInvalid? ==> c.trie.world == Final(Start(parent, Changes(old(c.cache)), txs), txs, env)
    ensures !r.SomeInvalid? ==> Modified(c.Fields()) == {}
    ensures r.WrongRoot? <==> Rejected(Start(parent, Changes(old(c.cache)), txs), txs, env) == [] && expected.Some?
                              && !IsRootOf(c.trie.trie.s, c.trie.codec, expected.value, c.trie.world)
    ensures r.Finished? ==> IsRootOf(c.trie.trie.s, c.trie.codec, r.stateRoot, c.trie.world) && r.stateRoot == c.trie.trie.root
    ensures r.Finished? ==> c.cache == map[] && c.trie.trie.saved == old(c.trie.trie.saved)
  {
    c.trie.ResetTrieRoot(root, t, parent);
    var addresses := AddressesOf(txs);
    WarmShows(c.Fields(), txs);
    ghost var m := Changes(c.cache);
    c.Warm(addresses);
    ghost var start, warm := Start(parent, m, txs), Elements(addresses) + Modified(c.Fields());
    AddressesHaveEnds(txs);
    var failed;
    ghost var known;
    failed, known := RunAll(c, txs, env, warm, start);
    ChangesShown(c.Fields(), known, Final(start, txs, env));
    if failed != [] { return SomeInvalid(failed); }
    FlushShows(c.Fields(), known, Final(start, txs, env));
    r := FlushBlock(c, expected);
  }

  /** The end of a run without failures. */
  method FlushBlock(c: Cache, expected: Option<Store.Digest>) returns (r: RunResult)
    requires c.Valid()
    modifies c.Repr()
    ensures c.Valid() && old(c.trie.trie.mainDb).Keys <= c.trie.trie.mainDb.Keys
    ensures c.trie.world == Flushed(old(c.Fields())).trie && Modified(c.Fields()) == {} && !r.SomeInvalid?
    ensures r.WrongRoot? <==> expected.Some? && !IsRootOf(c.trie.trie.s, c.trie.codec, expected.value, c.trie.world)
    ensures r.Finished? ==> IsRootOf(c.trie.trie.s, c.trie.codec, r.stateRoot, c.trie.world) && r.stateRoot == c.trie.trie.root
    ensures r.Finished? ==> c.cache == map[] && c.trie.trie.saved == old(c.trie.trie.saved)
  {
    c.trie.Checkpoint();
    c.Flush();
    var stateRoot := c.trie.TrieRoot();
    if expected.Some? && expected.value != stateRoot {
      if IsRootOf(c.trie.trie.s, c.trie.codec, expected.value, c.trie.world) {
        StateRootsIdentifyWorlds(c.trie.trie.s, c.trie.codec, expected.value, c.trie.world, stateRoot, c.trie.world);
      }
      return WrongRoot;
    }
    c.trie.Commit();
    c.Clear();
    r := Finished(stateRoot);
  }
}
