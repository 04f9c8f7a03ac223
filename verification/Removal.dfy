/** Removing the failed transactions from a block: what the nested loops keep. */
module Removal {
  import opened Ledger

  // ---------- the loops ----------

  /** One pass over the list for one hash. After a removal the next transaction slides into the
      place just looked at, and is kept unseen. */
  function Removed(txs: seq<Tx>, hash: nat): seq<Tx> {
    if txs == [] then []
    else if txs[0].hash != hash then [txs[0]] + Removed(txs[1..], hash)
    else if |txs| == 1 then []
    else [txs[1]] + Removed(txs[2..], hash)
  }

  function AllRemoved(txs: seq<Tx>, failed: seq<Tx>): seq<Tx>
    decreases |failed|
  {
    if failed == [] then txs else AllRemoved(Removed(txs, failed[0].hash), failed[1..])
  }

  /** The pass, with the first `j` places behind it. */
  function Passed(txs: seq<Tx>, j: nat, hash: nat): seq<Tx> {
    if j <= |txs| then txs[..j] + Removed(txs[j..], hash) else txs
  }

  lemma PassedStep(txs: seq<Tx>, j: nat, hash: nat)
    requires j < |txs|
    ensures Passed(txs, j, hash) == Passed(if txs[j].hash == hash then txs[..j] + txs[j + 1..] else txs, j + 1, hash)
  {
    var rest := txs[j..];
    if txs[j].hash != hash {
      assert rest[1..] == txs[j + 1..] && txs[..j + 1] == txs[..j] + [txs[j]];
    } else if j + 1 < |txs| {
      var txs' := txs[..j] + txs[j + 1..];
      assert rest[2..] == txs'[j + 1..] && txs'[..j + 1] == txs[..j] + [txs[j + 1]];
    }
  }

  method DelInvalidTransactions(txs: seq<Tx>, failed: seq<Tx>) returns (kept: seq<Tx>)
    ensures kept == AllRemoved(txs, failed)
  {
    kept := txs;
    for i := 0 to |failed|
      invariant AllRemoved(kept, failed[i..]) == AllRemoved(txs, failed)
    {
      ghost var before := kept;
      var j := 0;
      assert kept[0..] == kept;
      while j < |kept|
        invariant Passed(kept, j, failed[i].hash) == Removed(before, failed[i].hash)
      {
        PassedStep(kept, j, failed[i].hash);
        if failed[i].hash == kept[j].hash { kept := kept[..j] + kept[j + 1..]; }
        j := j + 1;
      }
      assert Passed(kept, j, failed[i].hash) == kept;
      assert failed[i..][1..] == failed[i + 1..];
    }
  }

  // ---------- what a pass removes ----------

  /** The transactions whose hash is none of these. */
  function Without(txs: seq<Tx>, hashes: set<nat>): seq<Tx> {
    if txs == [] then []
    else if txs[0].hash in hashes then Without(txs[1..], hashes)
    else [txs[0]] + Without(txs[1..], hashes)
  }

  function Hashes(txs: seq<Tx>): set<nat> {
    if txs == [] then {} else {txs[0].hash} + Hashes(txs[1..])
  }

  predicate Distinct(txs: seq<Tx>) {
    txs != [] ==> txs[0].hash !in Hashes(txs[1..]) && Distinct(txs[1..])
  }

  /** How often a hash occurs. */
  function Occ(txs: seq<Tx>, hash: nat): nat {
    if txs == [] then 0 else (if txs[0].hash == hash then 1 else 0) + Occ(txs[1..], hash)
  }

  lemma {:induction false} OccHashes(txs: seq<Tx>, hash: nat)
    ensures hash in Hashes(txs) <==> Occ(txs, hash) > 0
    ensures Distinct(txs) ==> Occ(txs, hash) <= 1
  {
    if txs != [] { OccHashes(txs[1..], hash); }
  }

  lemma {:induction false} DistinctByOcc(txs: seq<Tx>)
    requires forall h :: Occ(txs, h) <= 1
    ensures Distinct(txs)
  {
    if txs != [] {
      OccHashes(txs[1..], txs[0].hash);
      assert Occ(txs, txs[0].hash) <= 1;
      forall h ensures Occ(txs[1..], h) <= 1 { assert Occ(txs, h) <= 1; }
      DistinctByOcc(txs[1..]);
    }
  }

  lemma {:induction false} WithoutNone(txs: seq<Tx>, hashes: set<nat>)
    requires Hashes(txs) !! hashes
    ensures Without(txs, hashes) == txs
  {
    if txs != [] { WithoutNone(txs[1..], hashes); }
  }

  lemma {:induction false} RemovedNone(txs: seq<Tx>, hash: nat)
    requires Occ(txs, hash) == 0
    ensures Removed(txs, hash) == txs
  {
    if txs != [] { RemovedNone(txs[1..], hash); }
  }

  /** A pass removes nothing but its hash. */
  lemma {:induction false} RemovedWithout(txs: seq<Tx>, hash: nat, hashes: set<nat>)
    requires hash in hashes
    ensures Without(Removed(txs, hash), hashes) == Without(txs, hashes)
  {
    if txs != [] {
      if txs[0].hash != hash {
        RemovedWithout(txs[1..], hash, hashes);
      } else if |txs| > 1 {
        assert txs[1..][1..] == txs[2..];
        RemovedWithout(txs[2..], hash, hashes);
      }
    }
  }

  lemma {:induction false} AllRemovedWithout(txs: seq<Tx>, failed: seq<Tx>, hashes: set<nat>)
    requires Hashes(failed) <= hashes
    ensures Without(AllRemoved(txs, failed), hashes) == Without(txs, hashes)
    decreases |failed|
  {
    if failed != [] {
      RemovedWithout(txs, failed[0].hash, hashes);
      AllRemovedWithout(Removed(txs, failed[0].hash), failed[1..], hashes);
    }
  }

  /** A pass leaves at most every second transaction of its hash, and all others. */
  lemma {:induction false} OccRemoved(txs: seq<Tx>, hash: nat, other: nat)
    ensures Occ(Removed(txs, hash), hash) <= Occ(txs, hash) / 2
    ensures other != hash ==> Occ(Removed(txs, hash), other) == Occ(txs, other)
  {
    if txs != [] {
      if txs[0].hash != hash {
        OccRemoved(txs[1..], hash, other);
      } else if |txs| > 1 {
        assert txs[1..][1..] == txs[2..];
        OccRemoved(txs[2..], hash, other);
      }
    }
  }

  lemma {:induction false} OccUnpassed(txs: seq<Tx>, failed: seq<Tx>, hash: nat)
    requires Occ(failed, hash) == 0
    ensures Occ(AllRemoved(txs, failed), hash) == Occ(txs, hash)
    decreases |failed|
  {
    if failed != [] {
      OccRemoved(txs, failed[0].hash, hash);
      OccUnpassed(Removed(txs, failed[0].hash), failed[1..], hash);
    }
  }

  /** As many passes as occurrences remove them all. */
  lemma {:induction false} EnoughPasses(txs: seq<Tx>, failed: seq<Tx>, hash: nat)
    requires Occ(txs, hash) <= Occ(failed, hash)
    ensures Occ(AllRemoved(txs, failed), hash) == 0
    decreases |failed|
  {
    if failed != [] {
      OccRemoved(txs, failed[0].hash, hash);
      EnoughPasses(Removed(txs, failed[0].hash), failed[1..], hash);
    }
  }

  // ---------- no hash both accepted and rejected ----------

  lemma {:induction false} OccSplit(w: World, txs: seq<Tx>, env: Env, hash: nat)
    ensures Occ(txs, hash) == Occ(Accepted(w, txs, env), hash) + Occ(Rejected(w, txs, env), hash)
    decreases |txs|
  {
    if txs != [] {
      var w' := After(w, txs[0], env);
      OccSplit(w', txs[1..], env, hash);
      assert ([txs[0]] + Accepted(w', txs[1..], env))[1..] == Accepted(w', txs[1..], env);
      assert ([txs[0]] + Rejected(w', txs[1..], env))[1..] == Rejected(w', txs[1..], env);
    }
  }

  lemma {:induction false} AcceptedIsWithout(w: World, txs: seq<Tx>, env: Env, hashes: set<nat>)
    requires Hashes(Rejected(w, txs, env)) <= hashes && Hashes(Accepted(w, txs, env)) !! hashes
    ensures Without(txs, hashes) == Accepted(w, txs, env)
    decreases |txs|
  {
    if txs != [] {
      var w' := After(w, txs[0], env);
      assert ([txs[0]] + Accepted(w', txs[1..], env))[1..] == Accepted(w', txs[1..], env);
      assert ([txs[0]] + Rejected(w', txs[1..], env))[1..] == Rejected(w', txs[1..], env);
      AcceptedIsWithout(w', txs[1..], env, hashes);
    }
  }

  /** When no hash is both accepted and rejected, what is kept is exactly what succeeded, in order. */
  lemma KeptWhenApart(w: World, txs: seq<Tx>, env: Env)
    requires Hashes(Accepted(w, txs, env)) !! Hashes(Rejected(w, txs, env))
    ensures AllRemoved(txs, Rejected(w, txs, env)) == Accepted(w, txs, env)
  {
    var failed := Rejected(w, txs, env);
    var kept := AllRemoved(txs, failed);
    forall h | h in Hashes(failed) ensures h !in Hashes(kept) {
      OccSplit(w, txs, env, h);
      OccHashes(Accepted(w, txs, env), h);
      EnoughPasses(txs, failed, h);
      OccHashes(kept, h);
    }
    WithoutNone(kept, Hashes(failed));
    AllRemovedWithout(txs, failed, Hashes(failed));
    AcceptedIsWithout(w, txs, env, Hashes(failed));
  }
}
