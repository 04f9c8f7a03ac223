/** Processing a block: run, remove what failed, run again. */
module Retry {
  import opened Bytes
  import opened Wrappers
  import opened Ledger
  import opened Leftovers
  import opened AccountCache
  import opened StateTrie
  import opened Blocks
  import opened Removal
  import opened Repeats
  import opened Settlement
  import opened Recovery

  datatype Outcome = Success(stateRoot: Store.Digest) | NoTransactions | ParentMissing | Invalid

  /** The checks of `validate` on the transactions. */
  method Validate(txs: seq<Tx>) returns (ok: bool)
    ensures ok <==> AllValid(txs)
  {
    ok := true;
    for i := 0 to |txs|
      invariant ok <==> AllValid(txs[..i])
    {
      assert txs[..i + 1] == txs[..i] + [txs[i]];
      ok := ok && ValidTx(txs[i]);
      assert forall k | 0 <= k < i :: txs[..i + 1][k] == txs[..i][k];
      assert txs[..i + 1][i] == txs[i];
    }
    assert txs[..|txs|] == txs;
  }

  datatype ChainResult = Added(stateRoot: Store.Digest) | SomeFailed(failed: seq<Tx>) | NoParent | BadBlock

  /** Runs a block on its parent, after the checks, and adds it to the chain. */
  method RunBlockChain(c: Cache, txs: seq<Tx>, env: Env, headerOk: bool, parent: Option<Store.Digest>,
                       ghost t: Trie.Tree, ghost w: World)
    returns (r: ChainResult)
    requires c.Valid()
    requires parent.Some? ==> Holds(c.trie.codec, t, w) && Store.Resolves(c.trie.trie.s, c.trie.trie.View(), parent.value, t)
    requires parent.Some? ==> AllPlain(txs) || Coherent(State(c.cache, w))
    modifies c.Repr()
    ensures c.Valid()
    ensures old(c.trie.trie.mainDb).Keys <= c.trie.trie.mainDb.Keys && c.trie.trie.saved == old(c.trie.trie.saved)
    ensures !r.Added? ==> c.trie.trie.View() == old(c.trie.trie.View())
    ensures r.NoParent? <==> parent.None?
    ensures r.BadBlock? <==> parent.Some? && !(headerOk && AllValid(txs))
    ensures r.NoParent? || r.BadBlock? ==> c.Fields() == old(c.Fields())
    ensures r.SomeFailed? ==> r.failed == Rejected(Start(w, Changes(old(c.cache)), txs), txs, env) != []
                              && Changes(c.cache) == LeftAfter(w, Changes(old(c.cache)), txs, env)
                              && (old(Coherent(State(c.cache, w))) ==> Coherent(State(c.cache, w)))
    ensures r.Added? ==> Rejected(Start(w, Changes(old(c.cache)), txs), txs, env) == [] && c.cache == map[]
                         && c.trie.world == Final(Start(w, Changes(old(c.cache)), txs), txs, env)
                         && r.stateRoot == c.trie.trie.root
                         && IsRootOf(c.trie.trie.s, c.trie.codec, r.stateRoot, c.trie.world)
  {
    if parent.None? { return NoParent; }
    var valid := Validate(txs);
    if !headerOk || !valid { return BadBlock; }
    var result := RunBlock(c, txs, env, parent.value, None, t, w);
    match result
    case Finished(stateRoot) => r := Added(stateRoot);
    case SomeInvalid(failed) => r := SomeFailed(failed);
    case WrongRoot => assert false;
  }

  /** For every block, on a cache with whatever modified entries: what is kept, the number of runs, the
      modified entries left over, and the state and its root are those of `Settle`. A cached account
      that has not been modified must agree with the parent state, unless the block has transfers
      only. */
  method ProcessBlock(c: Cache, block: seq<Tx>, now: Buffer, headerOk: bool, parent: Option<Store.Digest>,
                      ghost t: Trie.Tree, ghost w: World)
    returns (outcome: Outcome, kept: seq<Tx>, ghost runs: nat)
    requires c.Valid()
    requires parent.Some? ==> Holds(c.trie.codec, t, w) && Store.Resolves(c.trie.trie.s, c.trie.trie.View(), parent.value, t)
    requires parent.Some? ==> AllPlain(block) || Coherent(State(c.cache, w))
    modifies c.Repr()
    ensures c.Valid()
    ensures old(c.trie.trie.mainDb).Keys <= c.trie.trie.mainDb.Keys && c.trie.trie.saved == old(c.trie.trie.saved)
    ensures !outcome.Success? ==> c.trie.trie.View() == old(c.trie.trie.View())
    ensures outcome.ParentMissing? <==> block != [] && parent.None?
    ensures outcome.Invalid? <==> block != [] && parent.Some? && !(headerOk && AllValid(block))
    ensures outcome.ParentMissing? || outcome.Invalid? ==> c.Fields() == old(c.Fields())
    ensures outcome.NoTransactions? || outcome.Success? ==>
              var r := Settle(w, Changes(old(c.cache)), block, Env(now, false, false));
              kept == r.kept && runs == r.runs && (outcome.NoTransactions? <==> kept == [])
    ensures outcome.NoTransactions? ==>
              Changes(c.cache) == Settle(w, Changes(old(c.cache)), block, Env(now, false, false)).left
              && (old(Coherent(State(c.cache, w))) ==> Coherent(State(c.cache, w)))
    ensures outcome.Success? ==>
              c.cache == map[] && outcome.stateRoot == c.trie.trie.root
              && c.trie.world == SettledState(w, Settle(w, Changes(old(c.cache)), block, Env(now, false, false)), Env(now, false, false))
              && IsRootOf(c.trie.trie.s, c.trie.codec, outcome.stateRoot, c.trie.world)
  {
    var env := Env(now, false, false);
    ghost var r := Settle(w, Changes(c.cache), block, env);
    kept, runs := block, 0;
    while true
      invariant c.Valid() && (runs == 0 ==> kept == block && c.Fields() == old(c.Fields()))
      invariant runs > 0 ==> block != [] && parent.Some? && headerOk && AllValid(block) && AllValid(kept)
      invariant parent.Some? ==> AllPlain(kept) || Coherent(State(c.cache, w))
      invariant old(Coherent(State(c.cache, w))) ==> Coherent(State(c.cache, w))
      invariant var q := Settle(w, Changes(c.cache), kept, env);
                r.kept == q.kept && r.left == q.left && r.runs == runs + q.runs
      invariant c.trie.trie.View() == old(c.trie.trie.View()) && c.trie.trie.saved == old(c.trie.trie.saved)
      invariant old(c.trie.trie.mainDb).Keys <= c.trie.trie.mainDb.Keys
      decreases |kept|
    {
      if kept == [] { return NoTransactions, kept, runs; }
      ghost var m := Changes(c.cache);
      var result := RunBlockChain(c, kept, env, headerOk, parent, t, w);
      match result
      case NoParent => return ParentMissing, kept, runs;
      case BadBlock => return Invalid, kept, runs;
      case Added(stateRoot) => return Success(stateRoot), kept, runs + 1;
      case SomeFailed(failed) =>
        AllRemovedIsShorter(Start(w, m, kept), kept, env);
        RemovalKeepsGood(kept, failed);
        kept := DelInvalidTransactions(kept, failed);
        runs := runs + 1;
    }
  }

  // ---------- a chain of blocks ----------

  datatype Block = Block(transactions: seq<Tx>, timestamp: Buffer)

  function EnvOf(b: Block): Env { Env(b.timestamp, false, false) }

  /** The accounts, and the modified entries left in the cache. */
  datatype Chain = Chain(world: World, left: World)

  /** A block moves the chain on, or, when nothing of it is kept, may leave modified entries. */
  ghost function NextChain(ch: Chain, b: Block): Chain {
    var r := Settle(ch.world, ch.left, b.transactions, EnvOf(b));
    if !AllValid(b.transactions) then ch
    else Chain(SettledState(ch.world, r, EnvOf(b)), if r.kept == [] then r.left else map[])
  }

  ghost function ChainAfter(ch: Chain, blocks: seq<Block>): Chain {
    if blocks == [] then ch else NextChain(ChainAfter(ch, blocks[..|blocks| - 1]), blocks[|blocks| - 1])
  }

  /** One block more: the root moves on, or stays. */
  method ProcessNext(c: Cache, b: Block, parent: Store.Digest, ghost t: Trie.Tree, ghost ch: Chain)
    returns (root: Store.Digest, ghost t': Trie.Tree)
    requires c.Valid() && Changes(c.cache) == ch.left && Coherent(State(c.cache, ch.world))
    requires Holds(c.trie.codec, t, ch.world) && Store.Resolves(c.trie.trie.s, c.trie.trie.View(), parent, t)
    modifies c.Repr()
    ensures c.Valid() && Changes(c.cache) == NextChain(ch, b).left && Coherent(State(c.cache, NextChain(ch, b).world))
    ensures Holds(c.trie.codec, t', NextChain(ch, b).world)
    ensures Store.Resolves(c.trie.trie.s, c.trie.trie.View(), root, t')
  {
    var outcome, kept;
    ghost var runs;
    outcome, kept, runs := ProcessBlock(c, b.transactions, b.timestamp, true, Some(parent), t, ch.world);
    root, t' := parent, t;
    if outcome.Success? { root, t' := outcome.stateRoot, c.trie.trie.tree; }
  }

  /** A whole chain, whatever its blocks: the final root is the root of the accounts it leaves. */
  method ProcessChain(c: Cache, blocks: seq<Block>, genesis: Store.Digest, ghost t: Trie.Tree, ghost w: World)
    returns (root: Store.Digest)
    requires c.Valid() && Coherent(State(c.cache, w))
    requires Holds(c.trie.codec, t, w) && Store.Resolves(c.trie.trie.s, c.trie.trie.View(), genesis, t)
    modifies c.Repr()
    ensures c.Valid() && Changes(c.cache) == ChainAfter(Chain(w, Changes(old(c.cache))), blocks).left
    ensures IsRootOf(c.trie.trie.s, c.trie.codec, root, ChainAfter(Chain(w, Changes(old(c.cache))), blocks).world)
  {
    root := genesis;
    ghost var tree, ch, start := t, Chain(w, Changes(c.cache)), Chain(w, Changes(c.cache));
    for i := 0 to |blocks|
      invariant c.Valid() && ch == ChainAfter(start, blocks[..i])
      invariant Changes(c.cache) == ch.left && Coherent(State(c.cache, ch.world))
      invariant Holds(c.trie.codec, tree, ch.world) && Store.Resolves(c.trie.trie.s, c.trie.trie.View(), root, tree)
    {
      assert blocks[..i + 1][..i] == blocks[..i];
      root, tree := ProcessNext(c, blocks[i], root, tree, ch);
      ch := NextChain(ch, blocks[i]);
    }
    assert blocks[..|blocks|] == blocks;
  }

  /** The accounts after the blocks, all their transactions run one after the other. */
  ghost function Sequential(w: World, blocks: seq<Block>): World {
    if blocks == [] then w
    else
      var b := blocks[|blocks| - 1];
      Final(Sequential(w, blocks[..|blocks| - 1]), b.transactions, EnvOf(b))
  }

  ghost predicate BlockOk(w: World, b: Block) {
    && AllValid(b.transactions) && Consistent(b.transactions)
    && Recoverable(w, b.transactions, EnvOf(b)) && NothingPaidBeside(w, b.transactions, EnvOf(b))
  }

  ghost predicate ChainOk(w: World, blocks: seq<Block>) {
    blocks != [] ==>
      ChainOk(w, blocks[..|blocks| - 1]) && BlockOk(Sequential(w, blocks[..|blocks| - 1]), blocks[|blocks| - 1])
  }

  /** A chain of blocks that can each be recovered from is the sequential run of their transactions,
      and leaves nothing modified behind. */
  lemma {:induction false} ChainIsSequential(w: World, blocks: seq<Block>)
    requires ChainOk(w, blocks)
    ensures ChainAfter(Chain(w, map[]), blocks) == Chain(Sequential(w, blocks), map[])
  {
    if blocks != [] {
      var init, b := blocks[..|blocks| - 1], blocks[|blocks| - 1];
      ChainIsSequential(w, init);
      RecoveredCleanly(Sequential(w, init), b.transactions, EnvOf(b));
    }
  }
}
