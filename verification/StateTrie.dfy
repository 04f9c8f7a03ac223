/** The state trie: accounts by address, over the Merkle trie. */
module StateTrie {
  import opened Wrappers
  import opened Bytes
  import opened Nibbles
  import opened Trie
  import opened History
  import opened Store
  import opened MerkleTrie
  import opened Ledger

  /** How accounts are serialised. */
  datatype Codec = Codec(encode: Account -> Value, decode: Value -> Account)

  ghost predicate Exact(c: Codec) {
    forall a :: c.decode(c.encode(a)) == a
  }

  /** The tree holds the accounts of the world under the nibbles of their addresses, and no more. */
  ghost predicate Holds(c: Codec, t: Tree, w: World) {
    && Canonical(t)
    && (forall a: Address :: HoldsAt(c, t, w, a))
    && (forall k: Path :: Lookup(t, k).Some? ==> |k| % 2 == 0)
  }

  ghost predicate HoldsAt(c: Codec, t: Tree, w: World, a: Address)
    requires WellFormed(t)
  {
    Lookup(t, Spread(a)) == if a in w then Some(c.encode(w[a])) else None
  }

  /** The root of the trie that holds a world. */
  ghost predicate IsRootOf(s: Scheme, c: Codec, root: Digest, w: World) {
    exists t :: Holds(c, t, w) && root == RootOf(s, t)
  }

  /** A world determines its tree, and a tree its world. */
  lemma HoldsIsUnique(c: Codec, t: Tree, w: World, u: Tree, v: World)
    requires Exact(c) && Holds(c, t, w) && Holds(c, u, v)
    ensures t == u <==> w == v
  {
    if w == v {
      forall k ensures Lookup(t, k) == Lookup(u, k) {
        if |k| % 2 == 0 {
          SpreadPack(k);
          assert HoldsAt(c, t, w, Pack(k)) && HoldsAt(c, u, v, Pack(k));
        }
      }
      ContentsDetermineTree(t, u);
    }
    if t == u {
      forall a: Address ensures (a in w <==> a in v) && (a in w ==> w[a] == v[a]) {
        assert HoldsAt(c, t, w, a) && HoldsAt(c, u, v, a);
        if a in w && a in v { assert c.decode(c.encode(w[a])) == c.decode(c.encode(v[a])); }
      }
      assert w == v;
    }
  }

  /** Equal state roots mean equal accounts, and back. */
  lemma StateRootsIdentifyWorlds(s: Scheme, c: Codec, r: Digest, w: World, q: Digest, v: World)
    requires Ideal(s) && Exact(c) && IsRootOf(s, c, r, w) && IsRootOf(s, c, q, v)
    ensures r == q <==> w == v
  {
    var t :| Holds(c, t, w) && r == RootOf(s, t);
    var u :| Holds(c, u, v) && q == RootOf(s, u);
    HoldsIsUnique(c, t, w, u, v);
    RootIdentifiesContents(s, t, u);
    if r == q { ContentsDetermineTree(t, u); }
  }

  lemma PutHolds(c: Codec, t: Tree, w: World, a: Address, account: Account)
    requires Holds(c, t, w)
    ensures Holds(c, Insert(t, Spread(a), c.encode(account)), w[a := account])
  {
    var u, v := Insert(t, Spread(a), c.encode(account)), w[a := account];
    InsertCanonical(t, Spread(a), c.encode(account));
    forall k: Path | Lookup(u, k).Some? ensures |k| % 2 == 0 { LookupInsert(t, Spread(a), c.encode(account), k); }
    forall b: Address ensures HoldsAt(c, u, v, b) { PutHoldsAt(c, t, w, a, account, b); }
  }

  lemma PutHoldsAt(c: Codec, t: Tree, w: World, a: Address, account: Account, b: Address)
    requires WellFormed(t) && HoldsAt(c, t, w, b)
    ensures WellFormed(Insert(t, Spread(a), c.encode(account)))
    ensures HoldsAt(c, Insert(t, Spread(a), c.encode(account)), w[a := account], b)
  {
    LookupInsert(t, Spread(a), c.encode(account), Spread(b));
    PackSpread(a);
    PackSpread(b);
  }

  class StateTrie {
    const codec: Codec
    const trie: CheckpointTrie
    ghost var world: World

    ghost function Repr(): set<object> { {this, trie} }

    ghost predicate Valid()
      reads Repr()
    {
      trie.Valid() && Exact(codec) && Holds(codec, trie.tree, world)
    }

    constructor (codec: Codec, trie: CheckpointTrie, ghost w: World)
      requires trie.Valid() && Exact(codec) && Holds(codec, trie.tree, w)
      ensures Valid() && world == w && this.trie == trie && this.codec == codec
    {
      this.codec, this.trie, world := codec, trie, w;
    }

    method Get(address: Address) returns (account: Account)
      requires Valid()
      ensures account == Acc(world, address)
    {
      var key := BufferToNibbles(address);
      var value := trie.Get(key);
      account := if value.Some? then codec.decode(value.value) else EMPTY;
      assert HoldsAt(codec, trie.tree, world, address);
    }

    method Put(address: Address, account: Account)
      requires Valid()
      modifies Repr()
      ensures Valid() && world == old(world)[address := account]
      ensures trie.saved == old(trie.saved) && old(trie.mainDb).Keys <= trie.mainDb.Keys
    {
      PutHolds(codec, trie.tree, world, address, account);
      var key := BufferToNibbles(address);
      var outcome := trie.Put(key, codec.encode(account));
      world := world[address := account];
    }

    /** The state root of what the trie holds. */
    method TrieRoot() returns (root: Digest)
      requires Valid()
      ensures IsRootOf(trie.s, codec, root, world) && root == trie.root
    {
      root := trie.root;
    }

    /** Goes to the state of a block. */
    method ResetTrieRoot(root: Digest, ghost t: Tree, ghost w: World)
      requires Valid() && Holds(codec, t, w) && Resolves(trie.s, trie.View(), root, t)
      modifies this, trie`root, trie`tree
      ensures Valid() && world == w && trie.tree == t && trie.View() == old(trie.View())
    {
      trie.SetRoot(root, t);
      world := w;
    }

    method Checkpoint()
      requires Valid()
      modifies trie
      ensures Valid() && trie.saved == old(trie.saved) + [old(trie.tree)] && trie.mainDb == old(trie.mainDb)
    {
      trie.Checkpoint();
    }

    method Commit()
      requires Valid() && trie.saved != []
      modifies trie
      ensures Valid() && trie.saved == old(trie.saved)[..|old(trie.saved)| - 1] && trie.tree == old(trie.tree)
      ensures old(trie.mainDb).Keys <= trie.mainDb.Keys
    {
      var outcome := trie.Commit();
    }
  }
}
