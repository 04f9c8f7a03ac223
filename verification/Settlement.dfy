/** What processing a block comes to: the transactions kept after all retries, and the modified cache
    entries that the failed runs leave. */
module Settlement {
  import opened Ledger
  import opened Leftovers
  import opened Removal
  import opened Repeats

  // ---------- removal makes the block shorter ----------

  lemma {:induction false} RemovedIsShorter(txs: seq<Tx>, hash: nat)
    ensures |Removed(txs, hash)| <= |txs| && (Occ(txs, hash) > 0 ==> |Removed(txs, hash)| < |txs|)
    ensures forall tx | tx in Removed(txs, hash) :: tx in txs
  {
    if txs != [] {
      if txs[0].hash != hash {
        RemovedIsShorter(txs[1..], hash);
      } else if |txs| > 1 {
        RemovedIsShorter(txs[2..], hash);
      }
    }
  }

  lemma {:induction false} AllRemovedIsPart(txs: seq<Tx>, failed: seq<Tx>)
    ensures |AllRemoved(txs, failed)| <= |txs| && forall tx | tx in AllRemoved(txs, failed) :: tx in txs
    decreases |failed|
  {
    if failed != [] {
      RemovedIsShorter(txs, failed[0].hash);
      AllRemovedIsPart(Removed(txs, failed[0].hash), failed[1..]);
    }
  }

  lemma AllRemovedIsShorter(w: World, txs: seq<Tx>, env: Env)
    requires Rejected(w, txs, env) != []
    ensures |AllRemoved(txs, Rejected(w, txs, env))| < |txs|
  {
    var failed := Rejected(w, txs, env);
    OccSplit(w, txs, env, failed[0].hash);
    RemovedIsShorter(txs, failed[0].hash);
    AllRemovedIsPart(Removed(txs, failed[0].hash), failed[1..]);
  }

  lemma {:induction false} OccAllRemoved(txs: seq<Tx>, failed: seq<Tx>, hash: nat)
    ensures Occ(AllRemoved(txs, failed), hash) <= Occ(txs, hash)
    decreases |failed|
  {
    if failed != [] {
      OccRemoved(txs, failed[0].hash, hash);
      OccAllRemoved(Removed(txs, failed[0].hash), failed[1..], hash);
    }
  }

  lemma RemovalKeepsGood(txs: seq<Tx>, failed: seq<Tx>)
    ensures var kept := AllRemoved(txs, failed);
            (AllValid(txs) ==> AllValid(kept)) && (AllPlain(txs) ==> AllPlain(kept)) && (Consistent(txs) ==> Consistent(kept))
  {
    var kept := AllRemoved(txs, failed);
    AllRemovedIsPart(txs, failed);
    forall i | 0 <= i < |kept| ensures kept[i] in txs { assert kept[i] in kept; }
  }

  // ---------- all runs ----------

  /** The transactions of the last run, or none; the modified entries from before that run, or at the
      end when there is none; and the number of runs. */
  datatype Settled = Settled(kept: seq<Tx>, left: World, runs: nat)

  /** Runs on the parent, each without what failed before it, starting with modified entries `m`. */
  ghost function Settle(parent: World, m: World, txs: seq<Tx>, env: Env): Settled
    decreases |txs|
  {
    if txs == [] then Settled([], m, 0)
    else
      var start := Start(parent, m, txs);
      var failed := Rejected(start, txs, env);
      if failed == [] then Settled(txs, m, 1)
      else
        AllRemovedIsShorter(start, txs, env);
        var r := Settle(parent, LeftAfter(parent, m, txs, env), AllRemoved(txs, failed), env);
        r.(runs := r.runs + 1)
  }

  /** The state that a block ends in: of what the last run makes, or the parent's own. */
  ghost function SettledState(parent: World, r: Settled, env: Env): World {
    if r.kept == [] then parent else Final(Start(parent, r.left, r.kept), r.kept, env)
  }

  lemma {:induction false} SettleIsPart(parent: World, m: World, txs: seq<Tx>, env: Env, hash: nat)
    ensures var kept := Settle(parent, m, txs, env).kept;
            Occ(kept, hash) <= Occ(txs, hash) && forall tx | tx in kept :: tx in txs
    decreases |txs|
  {
    var failed := Rejected(Start(parent, m, txs), txs, env);
    if failed != [] {
      var left, less := LeftAfter(parent, m, txs, env), AllRemoved(txs, failed);
      AllRemovedIsShorter(Start(parent, m, txs), txs, env);
      OccAllRemoved(txs, failed, hash);
      AllRemovedIsPart(txs, failed);
      SettleIsPart(parent, left, less, env, hash);
    }
  }

  lemma {:induction false} SettleIsShorter(parent: World, m: World, txs: seq<Tx>, env: Env)
    ensures |Settle(parent, m, txs, env).kept| <= |txs|
    decreases |txs|
  {
    var failed := Rejected(Start(parent, m, txs), txs, env);
    if failed != [] {
      AllRemovedIsShorter(Start(parent, m, txs), txs, env);
      SettleIsShorter(parent, LeftAfter(parent, m, txs, env), AllRemoved(txs, failed), env);
    }
  }

  lemma {:induction false} NoneRejected(w: World, txs: seq<Tx>, env: Env)
    requires Rejected(w, txs, env) == []
    ensures Accepted(w, txs, env) == txs
    decreases |txs|
  {
    if txs != [] {
      NoneRejected(After(w, txs[0], env), txs[1..], env);
      assert txs == [txs[0]] + txs[1..];
    }
  }

  /** A run of which something fails, and what is left to the next. */
  lemma SettleStep(parent: World, m: World, txs: seq<Tx>, env: Env, less: seq<Tx>, left: World)
    requires var failed := Rejected(Start(parent, m, txs), txs, env); failed != [] && less == AllRemoved(txs, failed)
    requires left == LeftAfter(parent, m, txs, env)
    ensures var r := Settle(parent, left, less, env);
            Settle(parent, m, txs, env) == r.(runs := r.runs + 1)
  {
    AllRemovedIsShorter(Start(parent, m, txs), txs, env);
  }

  /** For a block of transfers in which equal hashes are equal transactions, with whatever modified
      entries from before: what is kept is exactly what succeeds on the parent state if and only if
      every hash both accepted and rejected occurs twice, side by side when its pass comes. */
  lemma SettledExactly(parent: World, m: World, txs: seq<Tx>, env: Env)
    requires AllPlain(txs) && AllValid(txs) && Consistent(txs) && !env.skipNonce
    ensures Settle(parent, m, txs, env).kept == Accepted(parent, txs, env) <==> Recoverable(parent, txs, env)
  {
    var accepted, failed := Accepted(parent, txs, env), Rejected(parent, txs, env);
    TransfersIgnoreOutside(parent, m, txs, env);
    if failed == [] {
      NoneRejected(parent, txs, env);
    } else {
      var left, less := LeftAfter(parent, m, txs, env), AllRemoved(txs, failed);
      AllRemovedIsShorter(parent, txs, env);
      if Recoverable(parent, txs, env) {
        KeptExactly(parent, txs, env);
        AcceptedAgain(parent, txs, env);
        RemovalKeepsGood(txs, failed);
        TransfersIgnoreOutside(parent, left, less, env);
      } else {
        var h := Lost(parent, txs, env);
        SettleIsPart(parent, left, less, env, h);
      }
    }
  }

  /** Where the removal is not right, some accepted transaction is gone after it. */
  lemma Lost(w: World, txs: seq<Tx>, env: Env) returns (h: nat)
    requires AllValid(txs) && Consistent(txs) && !env.skipNonce && !Recoverable(w, txs, env)
    ensures Occ(AllRemoved(txs, Rejected(w, txs, env)), h) < Occ(Accepted(w, txs, env), h)
  {
    var accepted, failed := Accepted(w, txs, env), Rejected(w, txs, env);
    h :| h in Hashes(accepted) && h in Hashes(failed) && !(Occ(txs, h) == 2 && AdjacentAtPass(txs, failed, h));
    OccHashes(accepted, h);
    OccHashes(failed, h);
    KeptCount(w, txs, env, h);
  }

  /** The state a block of transfers ends in is right if and only if nothing is kept, or the failed runs,
      and what was there before them, have left no entry that is not warmed in the last run and differs
      from the parent's own account. */
  lemma SettledStateIsRightExactly(parent: World, m: World, txs: seq<Tx>, env: Env)
    requires AllPlain(txs)
    ensures var r := Settle(parent, m, txs, env);
            SettledState(parent, r, env) == Final(parent, r.kept, env)
            <==> r.kept == [] || forall a | a in Outside(r.left, r.kept) :: a in parent && r.left[a] == parent[a]
  {
    var r := Settle(parent, m, txs, env);
    SettleIsPart(parent, m, txs, env, 0);
    forall i | 0 <= i < |r.kept| ensures r.kept[i].data.Plain? { assert r.kept[i] in r.kept; }
    RunIsRightExactly(parent, r.left, r.kept, env);
  }
}
