/** Modified cache entries that one run of a block leaves to the next, and what they do to it. */
module Leftovers {
  import opened Bytes
  import opened Wrappers
  import opened Ledger

  function Addresses(txs: seq<Tx>): seq<Address> {
    if txs == [] then [] else Addresses(txs[..|txs| - 1]) + [txs[|txs| - 1].sender, txs[|txs| - 1].to]
  }

  lemma {:induction false} AddressesHas(txs: seq<Tx>, a: Address)
    ensures a in Addresses(txs) <==> exists i :: 0 <= i < |txs| && (a == txs[i].sender || a == txs[i].to)
  {
    if txs != [] {
      var init := txs[..|txs| - 1];
      AddressesHas(init, a);
      assert a in Addresses(txs) <==> a in Addresses(init) || a == txs[|txs| - 1].sender || a == txs[|txs| - 1].to;
      if i :| 0 <= i < |txs| && (a == txs[i].sender || a == txs[i].to) { assert i < |init| ==> init[i] == txs[i]; }
    }
  }

  lemma AddressesHaveEnds(txs: seq<Tx>)
    ensures forall i | 0 <= i < |txs| :: txs[i].sender in Addresses(txs) && txs[i].to in Addresses(txs)
  {
    forall i | 0 <= i < |txs| ensures txs[i].sender in Addresses(txs) && txs[i].to in Addresses(txs) {
      AddressesHas(txs, txs[i].sender);
      AddressesHas(txs, txs[i].to);
    }
  }

  function Elements(addresses: seq<Address>): set<Address> { set a | a in addresses }

  lemma {:induction false} AddressesFirst(tx: Tx, txs: seq<Tx>)
    ensures Elements(Addresses([tx] + txs)) == {tx.sender, tx.to} + Elements(Addresses(txs))
    decreases |txs|
  {
    var all := [tx] + txs;
    if txs == [] {
      assert Addresses(all) == [tx.sender, tx.to];
    } else {
      var init, last := txs[..|txs| - 1], txs[|txs| - 1];
      AddressesFirst(tx, init);
      assert all[..|all| - 1] == [tx] + init && all[|all| - 1] == last;
      assert Elements(Addresses(all)) == Elements(Addresses([tx] + init)) + {last.sender, last.to};
      assert Elements(Addresses(txs)) == Elements(Addresses(init)) + {last.sender, last.to};
    }
  }

  /** Of the entries modified earlier, those that warming for these transactions does not overwrite. */
  function Outside(m: World, txs: seq<Tx>): World { m - Elements(Addresses(txs)) }

  /** What a run of these transactions starts from. */
  function Start(parent: World, m: World, txs: seq<Tx>): World { parent + Outside(m, txs) }

  /** The accounts of a world at these addresses. */
  function Restricted(w: World, addresses: set<Address>): World { map a | a in addresses :: Acc(w, a) }

  function Payees(p: Option<(Address, nat)>): set<Address> { if p.Some? then {p.value.0} else {} }

  /** The addresses a successful transaction writes. */
  ghost function TouchedBy(w: World, tx: Tx, env: Env): set<Address> {
    {tx.sender, tx.to} + Payees(PaymentOf(w, tx, env))
  }

  ghost function Touched(w: World, txs: seq<Tx>, env: Env): set<Address>
    decreases |txs|
  {
    if txs == [] then {}
    else
      match ApplyTx(w, txs[0], env)
      case None => Touched(w, txs[1..], env)
      case Some(w') => TouchedBy(w, txs[0], env) + Touched(w', txs[1..], env)
  }

  lemma {:induction false} OneMoreTouched(w: World, txs: seq<Tx>, tx: Tx, env: Env)
    ensures var w' := Final(w, txs, env);
            Touched(w, txs + [tx], env) == Touched(w, txs, env) + if ApplyTx(w', tx, env).Some? then TouchedBy(w', tx, env) else {}
    decreases |txs|
  {
    if txs == [] {
      assert txs + [tx] == [tx];
    } else {
      assert (txs + [tx])[1..] == txs[1..] + [tx];
      OneMoreTouched(After(w, txs[0], env), txs[1..], tx, env);
    }
  }

  /** The modified entries after a run of which some transactions failed. */
  ghost function LeftAfter(parent: World, m: World, txs: seq<Tx>, env: Env): World {
    var start := Start(parent, m, txs);
    Restricted(Final(start, txs, env), Outside(m, txs).Keys + Touched(start, txs, env))
  }

  lemma TransferIgnoresOthers(w: World, others: World, tx: Tx, env: Env)
    requires tx.data.Plain? && tx.sender !in others && tx.to !in others
    ensures ApplyTx(w + others, tx, env).Some? <==> ApplyTx(w, tx, env).Some?
    ensures After(w + others, tx, env) == After(w, tx, env) + others && TouchedBy(w + others, tx, env) == TouchedBy(w, tx, env)
  {
    assert Acc(w + others, tx.sender) == Acc(w, tx.sender) && Acc(w + others, tx.to) == Acc(w, tx.to);
  }

  /** Transfers neither read nor write the accounts that are not at their ends. */
  lemma {:induction false} TransfersIgnoreOthers(w: World, others: World, txs: seq<Tx>, env: Env)
    requires AllPlain(txs) && forall i | 0 <= i < |txs| :: txs[i].sender !in others && txs[i].to !in others
    ensures Accepted(w + others, txs, env) == Accepted(w, txs, env)
    ensures Rejected(w + others, txs, env) == Rejected(w, txs, env)
    ensures Touched(w + others, txs, env) == Touched(w, txs, env)
    ensures Final(w + others, txs, env) == Final(w, txs, env) + others
    decreases |txs|
  {
    if txs != [] {
      var w' := After(w, txs[0], env);
      TransferIgnoresOthers(w, others, txs[0], env);
      TransfersIgnoreOthers(w', others, txs[1..], env);
    }
  }

  lemma TransfersIgnoreOutside(w: World, m: World, txs: seq<Tx>, env: Env)
    requires AllPlain(txs)
    ensures Accepted(Start(w, m, txs), txs, env) == Accepted(w, txs, env)
    ensures Rejected(Start(w, m, txs), txs, env) == Rejected(w, txs, env)
    ensures Touched(Start(w, m, txs), txs, env) == Touched(w, txs, env)
    ensures Final(Start(w, m, txs), txs, env) == Final(w, txs, env) + Outside(m, txs)
  {
    AddressesHaveEnds(txs);
    TransfersIgnoreOthers(w, Outside(m, txs), txs, env);
  }

  predicate SameAccounts(v: World, w: World) { forall a | a in v.Keys + w.Keys :: Acc(v, a) == Acc(w, a) }

  /** A run of transfers changes the accounts at their ends only. */
  lemma {:induction false} TransfersKeepOthers(w: World, txs: seq<Tx>, env: Env, a: Address)
    requires AllPlain(txs) && a !in Elements(Addresses(txs))
    ensures Acc(Final(w, txs, env), a) == Acc(w, a) && (a in Final(w, txs, env) <==> a in w)
    decreases |txs|
  {
    if txs != [] {
      AddressesFirst(txs[0], txs[1..]);
      assert txs == [txs[0]] + txs[1..];
      TransfersKeepOthers(After(w, txs[0], env), txs[1..], env, a);
    }
  }

  lemma TransferTouches(w: World, tx: Tx, env: Env)
    requires tx.data.Plain?
    ensures TouchedBy(w, tx, env) == {tx.sender, tx.to}
  {}

  /** And it has modified just those of the accepted ones. */
  lemma {:induction false} TransfersTouchTheirEnds(w: World, txs: seq<Tx>, env: Env)
    requires AllPlain(txs)
    ensures Touched(w, txs, env) == Elements(Addresses(Accepted(w, txs, env)))
    decreases |txs|
  {
    if txs != [] {
      var w' := After(w, txs[0], env);
      TransfersTouchTheirEnds(w', txs[1..], env);
      TransferTouches(w, txs[0], env);
      AddressesFirst(txs[0], Accepted(w', txs[1..], env));
    }
  }

  lemma {:induction false} AcceptedAddresses(w: World, txs: seq<Tx>, env: Env)
    ensures Elements(Addresses(Accepted(w, txs, env))) <= Elements(Addresses(txs))
    decreases |txs|
  {
    if txs != [] {
      var w' := After(w, txs[0], env);
      AcceptedAddresses(w', txs[1..], env);
      assert txs == [txs[0]] + txs[1..];
      AddressesFirst(txs[0], txs[1..]);
      AddressesFirst(txs[0], Accepted(w', txs[1..], env));
    }
  }

  /** A failed run of transfers leaves the entries it has not warmed, and the ends of what it has
      accepted, as the run has made them. */
  lemma LeftByTransfers(parent: World, m: World, txs: seq<Tx>, env: Env)
    requires AllPlain(txs)
    ensures LeftAfter(parent, m, txs, env) ==
            Outside(m, txs) + Restricted(Final(parent, txs, env), Elements(Addresses(Accepted(parent, txs, env))))
  {
    TransfersIgnoreOutside(parent, m, txs, env);
    TransfersTouchTheirEnds(parent, txs, env);
    AcceptedAddresses(parent, txs, env);
  }

  /** A run of transfers gives what it should if and only if every entry that is left from before
      and not warmed is the parent's own account. */
  lemma RunIsRightExactly(parent: World, m: World, txs: seq<Tx>, env: Env)
    requires AllPlain(txs)
    ensures Accepted(Start(parent, m, txs), txs, env) == Accepted(parent, txs, env)
    ensures SameAccounts(Final(Start(parent, m, txs), txs, env), Final(parent, txs, env))
            <==> forall a | a in Outside(m, txs) :: m[a] == Acc(parent, a)
    ensures Final(Start(parent, m, txs), txs, env) == Final(parent, txs, env)
            <==> forall a | a in Outside(m, txs) :: a in parent && m[a] == parent[a]
  {
    var v, w := Final(Start(parent, m, txs), txs, env), Final(parent, txs, env);
    TransfersIgnoreOutside(parent, m, txs, env);
    forall a
      ensures a in Outside(m, txs) ==> a in v && v[a] == m[a] && Acc(w, a) == Acc(parent, a) && (a in w <==> a in parent)
      ensures a !in Outside(m, txs) ==> Acc(v, a) == Acc(w, a) && (a in v <==> a in w)
    {
      if a !in Elements(Addresses(txs)) { TransfersKeepOthers(parent, txs, env, a); }
    }
    if v == w {
      forall a | a in Outside(m, txs) ensures a in parent && m[a] == parent[a] { assert a in w; }
    }
    if SameAccounts(v, w) {
      forall a | a in Outside(m, txs) ensures m[a] == Acc(parent, a) { assert a in v.Keys; }
    }
    if forall a | a in Outside(m, txs) :: a in parent && m[a] == parent[a] {
      forall a | a in w ensures a in v && v[a] == w[a] { assert Acc(v, a) == Acc(w, a); }
      assert v == w;
    }
  }
}
