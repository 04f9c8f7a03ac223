/** Blocks in which a transaction occurs more than once: when the removal of the failed ones is right. */
module Repeats {
  import opened Ledger
  import opened Removal

  /** Equal hashes are equal transactions. */
  predicate Consistent(txs: seq<Tx>) {
    forall x, y | x in txs && y in txs && x.hash == y.hash :: x == y
  }

  /** Two occurrences side by side. */
  predicate Adjacent(txs: seq<Tx>, hash: nat) {
    |txs| >= 2 && ((txs[0].hash == hash && txs[1].hash == hash) || Adjacent(txs[1..], hash))
  }

  /** Side by side when the first pass for the hash comes. */
  predicate AdjacentAtPass(txs: seq<Tx>, failed: seq<Tx>, hash: nat)
    decreases |failed|
  {
    failed != [] &&
    if failed[0].hash == hash then Adjacent(txs, hash) else AdjacentAtPass(Removed(txs, failed[0].hash), failed[1..], hash)
  }

  // ---------- a transaction is accepted once ----------

  /** A transaction whose nonce has been reached fails from then on. */
  lemma {:induction false} SpentOnce(w: World, txs: seq<Tx>, env: Env, tx: Tx)
    requires AllValid(txs) && !env.skipNonce && Acc(w, tx.sender).nonce >= tx.nonce
    requires forall x | x in txs && x.hash == tx.hash :: x == tx
    ensures Occ(Accepted(w, txs, env), tx.hash) == 0
    decreases |txs|
  {
    if txs != [] {
      assert ValidTx(txs[0]) && txs[0] in txs;
      if ApplyTx(w, txs[0], env).Some? { NonceAfter(w, txs[0], env, tx.sender); }
      SpentOnce(After(w, txs[0], env), txs[1..], env, tx);
      assert ([txs[0]] + Accepted(After(w, txs[0], env), txs[1..], env))[1..] == Accepted(After(w, txs[0], env), txs[1..], env);
    }
  }

  lemma {:induction false} AcceptedOnce(w: World, txs: seq<Tx>, env: Env, hash: nat)
    requires AllValid(txs) && !env.skipNonce && Consistent(txs)
    ensures Occ(Accepted(w, txs, env), hash) <= 1
    decreases |txs|
  {
    if txs != [] {
      var w' := After(w, txs[0], env);
      assert ValidTx(txs[0]) && txs[0] in txs;
      AcceptedOnce(w', txs[1..], env, hash);
      assert ([txs[0]] + Accepted(w', txs[1..], env))[1..] == Accepted(w', txs[1..], env);
      if ApplyTx(w, txs[0], env).Some? && txs[0].hash == hash {
        NonceAfter(w, txs[0], env, txs[0].sender);
        SpentOnce(w', txs[1..], env, txs[0]);
      }
    }
  }

  // ---------- which repeated hashes survive ----------

  lemma {:induction false} AdjacentIsTwo(txs: seq<Tx>, hash: nat)
    requires Adjacent(txs, hash)
    ensures Occ(txs, hash) >= 2
  {
    if !(txs[0].hash == hash && txs[1].hash == hash) { AdjacentIsTwo(txs[1..], hash); }
    assert Occ(txs[1..], hash) == (if txs[1].hash == hash then 1 else 0) + Occ(txs[1..][1..], hash);
  }

  /** A pass over two occurrences leaves one of them exactly when they are side by side. */
  lemma {:induction false} PassOverTwo(txs: seq<Tx>, hash: nat)
    requires Occ(txs, hash) == 2
    ensures Occ(Removed(txs, hash), hash) == if Adjacent(txs, hash) then 1 else 0
  {
    if txs[0].hash != hash {
      PassOverTwo(txs[1..], hash);
    } else {
      var rest := txs[2..];
      assert txs[1..][1..] == rest;
      if txs[1].hash == hash { RemovedNone(rest, hash); } else { OccRemoved(rest, hash, hash); }
      if Adjacent(txs[1..], hash) { AdjacentIsTwo(txs[1..], hash); }
    }
  }

  /** A hash accepted once and rejected besides keeps one transaction exactly when it occurs twice,
      and side by side when its pass comes; otherwise all go. */
  lemma {:induction false} SurvivesExactly(txs: seq<Tx>, failed: seq<Tx>, hash: nat)
    requires Occ(failed, hash) >= 1 && Occ(txs, hash) == Occ(failed, hash) + 1
    ensures Occ(AllRemoved(txs, failed), hash) ==
            if Occ(failed, hash) == 1 && AdjacentAtPass(txs, failed, hash) then 1 else 0
    decreases |failed|
  {
    var kept := Removed(txs, failed[0].hash);
    OccRemoved(txs, failed[0].hash, hash);
    if failed[0].hash != hash {
      SurvivesExactly(kept, failed[1..], hash);
    } else if Occ(failed, hash) == 1 {
      PassOverTwo(txs, hash);
      OccUnpassed(kept, failed[1..], hash);
    } else {
      EnoughPasses(kept, failed[1..], hash);
    }
  }

  // ---------- the order of what is kept ----------

  /** Without neighbours that repeat each other. */
  function Dedup(txs: seq<Tx>): seq<Tx> {
    if |txs| < 2 then txs
    else if txs[0] == txs[1] then Dedup(txs[1..])
    else [txs[0]] + Dedup(txs[1..])
  }

  lemma {:induction false} DedupHead(txs: seq<Tx>)
    ensures (Dedup(txs) == [] <==> txs == []) && (txs != [] ==> Dedup(txs)[0] == txs[0])
    ensures Hashes(Dedup(txs)) == Hashes(txs)
    ensures Distinct(txs) ==> Dedup(txs) == txs
  {
    if |txs| >= 2 {
      DedupHead(txs[1..]);
      assert ([txs[0]] + Dedup(txs[1..]))[1..] == Dedup(txs[1..]);
      assert Hashes(txs[1..]) == {txs[1].hash} + Hashes(txs[1..][1..]);
    } else if |txs| == 1 {
      assert Dedup(txs) == txs;
    }
  }

  lemma DedupCons(tx: Tx, a: seq<Tx>, b: seq<Tx>)
    requires Dedup(a) == Dedup(b)
    ensures Dedup([tx] + a) == Dedup([tx] + b)
  {
    DedupHead(a);
    DedupHead(b);
    assert ([tx] + a)[1..] == a && ([tx] + b)[1..] == b;
  }

  /** The pass over two neighbours does not change the order of the rest. */
  lemma {:induction false} PassKeepsOrder(txs: seq<Tx>, hash: nat, out: set<nat>)
    requires Consistent(txs) && Occ(txs, hash) == 2 && Adjacent(txs, hash) && hash !in out
    ensures Dedup(Without(Removed(txs, hash), out)) == Dedup(Without(txs, out))
  {
    var rest := txs[1..];
    if txs[0].hash != hash {
      PassKeepsOrder(rest, hash, out);
      assert ([txs[0]] + Removed(rest, hash))[1..] == Removed(rest, hash);
      DedupCons(txs[0], Without(Removed(rest, hash), out), Without(rest, out));
    } else {
      if Adjacent(rest, hash) { AdjacentIsTwo(rest, hash); }
      assert rest[1..] == txs[2..] && txs[0] in txs && txs[1] in txs;
      RemovedNone(txs[2..], hash);
      assert Removed(txs, hash) == rest by { assert rest == [txs[1]] + txs[2..]; }
      var tail := Without(rest, out);
      assert tail[0] == txs[1] == txs[0];
      assert Without(txs, out) == [txs[0]] + tail && ([txs[0]] + tail)[1..] == tail;
    }
  }

  lemma {:induction false} RemovedIsPart(txs: seq<Tx>, hash: nat)
    ensures forall x | x in Removed(txs, hash) :: x in txs
  {
    if txs != [] {
      if txs[0].hash != hash {
        RemovedIsPart(txs[1..], hash);
      } else if |txs| > 1 {
        RemovedIsPart(txs[2..], hash);
      }
    }
  }

  /** Each failed hash is out for good, or repeats a neighbour. */
  ghost predicate Harmless(txs: seq<Tx>, failed: seq<Tx>, out: set<nat>) {
    forall h | h in Hashes(failed) && h !in out ::
      Occ(failed, h) == 1 && Occ(txs, h) == 2 && AdjacentAtPass(txs, failed, h)
  }

  lemma {:induction false} PassesKeepOrder(txs: seq<Tx>, failed: seq<Tx>, out: set<nat>)
    requires Consistent(txs) && Harmless(txs, failed, out)
    ensures Dedup(Without(AllRemoved(txs, failed), out)) == Dedup(Without(txs, out))
    decreases |failed|
  {
    if failed != [] {
      var first := failed[0].hash;
      var kept := Removed(txs, first);
      if first in out { RemovedWithout(txs, first, out); } else { PassKeepsOrder(txs, first, out); }
      RemovedIsPart(txs, first);
      forall h | h in Hashes(failed[1..]) && h !in out
        ensures Occ(failed[1..], h) == 1 && Occ(kept, h) == 2 && AdjacentAtPass(kept, failed[1..], h)
      {
        OccHashes(failed[1..], h);
        OccRemoved(txs, first, h);
      }
      PassesKeepOrder(kept, failed[1..], out);
    }
  }

  /** One list is left when some of another are dropped. */
  predicate Sub(part: seq<Tx>, txs: seq<Tx>)
    decreases |txs|
  {
    part == [] ||
    (txs != [] && ((part[0] == txs[0] && Sub(part[1..], txs[1..])) || Sub(part, txs[1..])))
  }

  lemma {:induction false} SubHashes(part: seq<Tx>, txs: seq<Tx>)
    requires Sub(part, txs)
    ensures Hashes(part) <= Hashes(txs)
    decreases |txs|
  {
    if part != [] {
      if part[0] == txs[0] && Sub(part[1..], txs[1..]) { SubHashes(part[1..], txs[1..]); } else { SubHashes(part, txs[1..]); }
    }
  }

  /** Only one part without repetitions has all the hashes, when all repetitions are neighbours. */
  lemma {:induction false} OnePart(part: seq<Tx>, txs: seq<Tx>)
    requires Sub(part, txs) && Hashes(part) == Hashes(txs) && Distinct(part) && Distinct(Dedup(txs))
    ensures part == Dedup(txs)
    decreases |txs|
  {
    if txs != [] {
      var rest := txs[1..];
      DedupHead(rest);
      if |txs| >= 2 && txs[0] == txs[1] {
        if part != [] && part[0] == txs[0] && Sub(part[1..], rest) { SubNext(part, rest); }
        OnePart(part, rest);
      } else {
        assert Dedup(txs) == [txs[0]] + Dedup(rest);
        assert Dedup(txs)[1..] == Dedup(rest);
        if Sub(part, rest) { SubHashes(part, rest); }
        OnePart(part[1..], rest);
      }
    }
  }

  lemma SubNext(part: seq<Tx>, rest: seq<Tx>)
    requires part != [] && rest != [] && part[0] == rest[0] && Sub(part[1..], rest) && Distinct(part)
    ensures Sub(part, rest)
  {
    if |part| > 1 { assert part[1].hash in Hashes(part[1..]); }
  }

  // ---------- the exact condition ----------

  lemma {:induction false} AcceptedIsPart(w: World, txs: seq<Tx>, env: Env, out: set<nat>)
    requires Hashes(Accepted(w, txs, env)) !! out
    ensures Sub(Accepted(w, txs, env), Without(txs, out))
    decreases |txs|
  {
    if txs != [] {
      var w' := After(w, txs[0], env);
      assert ([txs[0]] + Accepted(w', txs[1..], env))[1..] == Accepted(w', txs[1..], env);
      AcceptedIsPart(w', txs[1..], env, out);
      assert ([txs[0]] + Without(txs[1..], out))[1..] == Without(txs[1..], out);
    }
  }

  /** Every hash both accepted and rejected occurs twice, side by side when its pass comes. */
  ghost predicate Recoverable(w: World, txs: seq<Tx>, env: Env) {
    forall h | h in Hashes(Accepted(w, txs, env)) && h in Hashes(Rejected(w, txs, env)) ::
      Occ(txs, h) == 2 && AdjacentAtPass(txs, Rejected(w, txs, env), h)
  }

  /** How often a hash is kept, against how often it is accepted. */
  lemma KeptCount(w: World, txs: seq<Tx>, env: Env, h: nat)
    requires AllValid(txs) && !env.skipNonce && Consistent(txs)
    ensures var accepted, failed := Accepted(w, txs, env), Rejected(w, txs, env);
            var kept := AllRemoved(txs, failed);
            && Occ(accepted, h) <= 1 && Occ(txs, h) == Occ(accepted, h) + Occ(failed, h)
            && (Occ(accepted, h) == 0 || Occ(failed, h) == 0 ==> Occ(kept, h) == Occ(accepted, h))
            && (Occ(accepted, h) == 1 && Occ(failed, h) > 0
                ==> Occ(kept, h) == if Occ(txs, h) == 2 && AdjacentAtPass(txs, failed, h) then 1 else 0)
  {
    var accepted, failed := Accepted(w, txs, env), Rejected(w, txs, env);
    AcceptedOnce(w, txs, env, h);
    OccSplit(w, txs, env, h);
    if Occ(failed, h) == 0 {
      OccUnpassed(txs, failed, h);
    } else if Occ(accepted, h) == 0 {
      EnoughPasses(txs, failed, h);
    } else {
      SurvivesExactly(txs, failed, h);
    }
  }

  lemma KeptInOrder(w: World, txs: seq<Tx>, env: Env)
    requires AllValid(txs) && !env.skipNonce && Consistent(txs) && Recoverable(w, txs, env)
    ensures AllRemoved(txs, Rejected(w, txs, env)) == Accepted(w, txs, env)
  {
    var accepted, failed := Accepted(w, txs, env), Rejected(w, txs, env);
    var kept, out := AllRemoved(txs, failed), Hashes(failed) - Hashes(accepted);
    forall h ensures Occ(kept, h) == Occ(accepted, h) <= 1 && (h in out ==> Occ(kept, h) == 0)
                     && (h in Hashes(failed) && h !in out ==> Occ(failed, h) == 1 && Occ(txs, h) == 2)
    {
      KeptCount(w, txs, env, h);
      OccHashes(accepted, h);
      OccHashes(failed, h);
    }
    PassesKeepOrder(txs, failed, out);
    DistinctByOcc(kept);
    DistinctByOcc(accepted);
    forall h ensures h in Hashes(kept) <==> h in Hashes(accepted) {
      OccHashes(kept, h);
      OccHashes(accepted, h);
    }
    WithoutNone(kept, out);
    var v := Without(txs, out);
    DedupHead(kept);
    DedupHead(v);
    AcceptedIsPart(w, txs, env, out);
    OnePart(accepted, v);
  }

  /** In a block in which equal hashes are equal transactions, removing what failed leaves exactly
      what succeeded, in order, if and only if every hash both accepted and rejected occurs twice,
      side by side when its pass comes. */
  lemma KeptExactly(w: World, txs: seq<Tx>, env: Env)
    requires AllValid(txs) && !env.skipNonce && Consistent(txs)
    ensures AllRemoved(txs, Rejected(w, txs, env)) == Accepted(w, txs, env) <==> Recoverable(w, txs, env)
  {
    var accepted, failed := Accepted(w, txs, env), Rejected(w, txs, env);
    if Recoverable(w, txs, env) {
      KeptInOrder(w, txs, env);
    } else {
      var h :| h in Hashes(accepted) && h in Hashes(failed) && !(Occ(txs, h) == 2 && AdjacentAtPass(txs, failed, h));
      OccHashes(accepted, h);
      OccHashes(failed, h);
      KeptCount(w, txs, env, h);
    }
  }

  /** A block of distinct hashes is a special case. */
  lemma DistinctIsRecoverable(w: World, txs: seq<Tx>, env: Env)
    requires Distinct(txs)
    ensures Consistent(txs) && Recoverable(w, txs, env)
  {
    DistinctIsConsistent(txs);
    forall h | h in Hashes(Accepted(w, txs, env)) && h in Hashes(Rejected(w, txs, env)) ensures false {
      OccSplit(w, txs, env, h);
      OccHashes(Accepted(w, txs, env), h);
      OccHashes(Rejected(w, txs, env), h);
      OccHashes(txs, h);
    }
  }

  lemma {:induction false} HashesHave(txs: seq<Tx>)
    ensures forall x | x in txs :: x.hash in Hashes(txs)
  {
    if txs != [] {
      HashesHave(txs[1..]);
      assert forall x | x in txs :: x == txs[0] || x in txs[1..];
    }
  }

  lemma {:induction false} DistinctIsConsistent(txs: seq<Tx>)
    requires Distinct(txs)
    ensures Consistent(txs)
  {
    if txs != [] {
      DistinctIsConsistent(txs[1..]);
      HashesHave(txs[1..]);
      assert forall x | x in txs :: x == txs[0] || x in txs[1..];
    }
  }

  // ---------- a block that loses accepted transactions ----------

  lemma ThreeRemoved(a: Tx, b: Tx)
    requires a.hash != b.hash
    ensures AllRemoved([a, b, a], [a]) == [b]
  {
    assert [a, b, a][2..] == [a];
    assert Removed([a], a.hash) == [];
    assert Removed([a, b, a], a.hash) == [b];
    assert [a][1..] == [];
    assert AllRemoved([b], []) == [b];
  }

  lemma FirstOf(w: World, tx: Tx, rest: seq<Tx>, env: Env)
    ensures var ok := ApplyTx(w, tx, env).Some?;
            && Accepted(w, [tx] + rest, env) == (if ok then [tx] else []) + Accepted(After(w, tx, env), rest, env)
            && Rejected(w, [tx] + rest, env) == (if ok then [] else [tx]) + Rejected(After(w, tx, env), rest, env)
  {
    assert ([tx] + rest)[1..] == rest;
  }

  lemma ThreeRun(w: World, a: Tx, b: Tx, env: Env)
    requires ApplyTx(w, a, env).Some? && ApplyTx(After(w, a, env), b, env).Some?
    requires ApplyTx(After(After(w, a, env), b, env), a, env).None? && ApplyTx(w, b, env).None?
    ensures Accepted(w, [a, b, a], env) == [a, b] && Rejected(w, [a, b, a], env) == [a] && Accepted(w, [b], env) == []
  {
    var w1 := After(w, a, env);
    FirstOf(w, a, [b, a], env);
    FirstOf(w1, b, [a], env);
    FirstOf(After(w1, b, env), a, [], env);
    FirstOf(w, b, [], env);
    assert [a] + [b, a] == [a, b, a] && [b] + [a] == [b, a] && [a] + [] == [a] && [b] + [] == [b];
  }

  /** Otherwise it may not. When the second of two equal transactions fails both are
      removed, and here the one in between then fails too, so that a block of which two transactions
      succeed ends up empty. */
  lemma RepeatedHashLosesAccepted(env: Env)
    requires !env.skipNonce && !env.skipBalance
    ensures exists w: World, a: Tx, b: Tx ::
      && AllValid([a, b, a]) && AllPlain([a, b, a]) && Accepted(w, [a, b, a], env) == [a, b]
      && AllRemoved([a, b, a], Rejected(w, [a, b, a], env)) == [b] && Accepted(w, [b], env) == []
  {
    var w: World := map[[1] := Account(0, 10, NoContract)];
    var a, b := Tx(1, [1], [2], 3, 1, Plain), Tx(2, [1], [3], 3, 2, Plain);
    ThreeRemoved(a, b);
    ThreeRun(w, a, b, env);
  }
}
