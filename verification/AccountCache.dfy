/** The write-back cache over the account trie. */
module AccountCache {
  import opened Bytes
  import opened Ledger
  import StateTrie

  datatype Entry = Entry(val: Account, modified: bool)

  datatype State = State(cache: map<Address, Entry>, trie: World)

  // ---------- what each operation does ----------

  function Written(s: State, a: Address, val: Account): State {
    s.(cache := s.cache[a := Entry(val, true)])
  }

  function Loaded(s: State, a: Address): State {
    s.(cache := s.cache[a := Entry(Acc(s.trie, a), false)])
  }

  function Peek(s: State, a: Address): Account {
    if a in s.cache then s.cache[a].val else EMPTY
  }

  /** An empty account is taken for one that is not cached. */
  function LoadedIfEmpty(s: State, a: Address): State {
    if Peek(s, a) != EMPTY then s else Loaded(s, a)
  }

  function Warmed(s: State, addresses: seq<Address>): State {
    if addresses == [] then s
    else Loaded(Warmed(s, addresses[..|addresses| - 1]), addresses[|addresses| - 1])
  }

  function Cleaned(cache: map<Address, Entry>): map<Address, Entry> {
    map a | a in cache :: Entry(cache[a].val, false)
  }

  function Changes(cache: map<Address, Entry>): World {
    map a | a in cache && cache[a].modified :: cache[a].val
  }

  function Flushed(s: State): State {
    State(Cleaned(s.cache), s.trie + Changes(s.cache))
  }

  /** The cache object. */
  class Cache {
    var cache: map<Address, Entry>
    const trie: StateTrie.StateTrie

    ghost function Repr(): set<object> { {this, trie, trie.trie} }

    ghost predicate Valid()
      reads trie.Repr()
    {
      trie.Valid()
    }

    ghost function Fields(): State
      reads this`cache, trie`world
    {
      State(cache, trie.world)
    }

    constructor (trie: StateTrie.StateTrie)
      requires trie.Valid()
      ensures Valid() && this.trie == trie && Fields() == State(map[], trie.world)
    {
      cache, this.trie := map[], trie;
    }

    method Put(address: Address, val: Account, modified: bool)
      modifies this`cache
      ensures modified ==> Fields() == Written(old(Fields()), address, val)
      ensures cache == old(cache)[address := Entry(val, modified)]
    {
      cache := cache[address := Entry(val, modified)];
    }

    method Get(address: Address) returns (account: Account)
      ensures account == Peek(Fields(), address)
    {
      if address in cache { return cache[address].val; }
      return EMPTY;
    }

    method GetOrLoad(address: Address) returns (account: Account)
      requires Valid()
      modifies this`cache
      ensures Fields() == LoadedIfEmpty(old(Fields()), address)
      ensures account == Fields().cache[address].val
    {
      account := Get(address);
      if account != EMPTY { return; }
      account := trie.Get(address);
      Put(address, account, false);
    }

    method Warm(addresses: seq<Address>)
      requires Valid()
      modifies this`cache
      ensures Fields() == Warmed(old(Fields()), addresses)
    {
      for i := 0 to |addresses|
        invariant Fields() == Warmed(old(Fields()), addresses[..i])
      {
        var account := trie.Get(addresses[i]);
        Put(addresses[i], account, false);
        assert addresses[..i + 1][..i] == addresses[..i];
      }
      assert addresses[..|addresses|] == addresses;
    }

    method Clear()
      modifies this`cache
      ensures cache == map[]
    {
      cache := map[];
    }

    /** One entry of the iteration over the cache. */
    method FlushEntry(address: Address)
      requires Valid() && address in cache
      modifies Repr()
      ensures Valid() && Fields() == EntryFlushed(old(Fields()), address)
      ensures trie.trie.saved == old(trie.trie.saved) && old(trie.trie.mainDb).Keys <= trie.trie.mainDb.Keys
    {
      if cache[address].modified {
        trie.Put(address, cache[address].val);
        cache := cache[address := Entry(cache[address].val, false)];
      }
    }

    method Flush()
      requires Valid()
      modifies Repr()
      ensures Valid() && Fields() == Flushed(old(Fields()))
      ensures trie.trie.saved == old(trie.trie.saved) && old(trie.trie.mainDb).Keys <= trie.trie.mainDb.Keys
    {
      var left := cache.Keys;
      assert Fields() == FlushedBut(Fields(), left);
      while left != {}
        invariant Valid() && left <= old(Fields()).cache.Keys
        invariant Fields() == FlushedBut(old(Fields()), left)
        invariant trie.trie.saved == old(trie.trie.saved) && old(trie.trie.mainDb).Keys <= trie.trie.mainDb.Keys
      {
        var a :| a in left;
        FlushStep(old(Fields()), left, a);
        FlushEntry(a);
        left := left - {a};
      }
      assert old(cache) - {} == old(cache);
    }
  }

  function EntryFlushed(s: State, a: Address): State
    requires a in s.cache
  {
    if s.cache[a].modified then State(s.cache[a := Entry(s.cache[a].val, false)], s.trie[a := s.cache[a].val]) else s
  }

  /** In the middle of a flush, with some entries left. */
  function FlushedBut(s: State, left: set<Address>): State {
    State(map a | a in s.cache :: if a in left then s.cache[a] else Entry(s.cache[a].val, false),
          s.trie + Changes(s.cache - left))
  }

  lemma ChangesStep(cache: map<Address, Entry>, left: set<Address>, a: Address)
    requires a in left && left <= cache.Keys
    ensures Changes(cache - (left - {a})) ==
            if cache[a].modified then Changes(cache - left)[a := cache[a].val] else Changes(cache - left)
  {
    assert cache - (left - {a}) == (cache - left)[a := cache[a]];
  }

  lemma FlushStep(s: State, left: set<Address>, a: Address)
    requires a in left && left <= s.cache.Keys
    ensures FlushedBut(s, left - {a}) == EntryFlushed(FlushedBut(s, left), a)
  {
    ChangesStep(s.cache, left, a);
    var t, t' := FlushedBut(s, left), FlushedBut(s, left - {a});
    assert t'.cache == t.cache[a := Entry(s.cache[a].val, false)];
  }

  // ---------- coherence ----------

  /** What a reader of cache and trie sees. */
  function View(s: State, a: Address): Account {
    if a in s.cache then s.cache[a].val else Acc(s.trie, a)
  }

  /** Unmodified entries agree with the trie, and no empty entry hides a stored account. */
  ghost predicate Coherent(s: State) {
    forall a | a in s.cache :: CoherentAt(s, a)
  }

  ghost predicate CoherentAt(s: State, a: Address)
    requires a in s.cache
  {
    (!s.cache[a].modified ==> s.cache[a].val == Acc(s.trie, a)) && (s.cache[a].val == EMPTY ==> Acc(s.trie, a) == EMPTY)
  }

  function Modified(s: State): set<Address> { set a | a in s.cache && s.cache[a].modified }

  datatype Op = Put(address: Address, val: Account) | Load(address: Address) | Warm(addresses: seq<Address>) | Flush | Clear

  function Do(s: State, op: Op): State {
    match op
    case Put(a, val) => Written(s, a, val)
    case Load(a) => LoadedIfEmpty(s, a)
    case Warm(addresses) => Warmed(s, addresses)
    case Flush => Flushed(s)
    case Clear => s.(cache := map[])
  }

  function DoAll(s: State, ops: seq<Op>): State {
    if ops == [] then s else Do(DoAll(s, ops[..|ops| - 1]), ops[|ops| - 1])
  }

  /** How one run of a block uses the cache: modified entries are not warmed over or cleared away, and
      an empty account is not written over a stored one. */
  predicate Careful(s: State, op: Op) {
    match op
    case Put(a, val) => val != EMPTY || Acc(s.trie, a) == EMPTY
    case Warm(addresses) => forall a | a in addresses :: a !in Modified(s)
    case Clear => Modified(s) == {}
    case _ => true
  }

  predicate AllCareful(s: State, ops: seq<Op>) {
    ops != [] ==> AllCareful(s, ops[..|ops| - 1]) && Careful(DoAll(s, ops[..|ops| - 1]), ops[|ops| - 1])
  }

  /** The last value put at an address, if any. */
  function LastPut(ops: seq<Op>, a: Address, before: Account): Account {
    if ops == [] then before
    else
      match ops[|ops| - 1]
      case Put(b, val) => if a == b then val else LastPut(ops[..|ops| - 1], a, before)
      case _ => LastPut(ops[..|ops| - 1], a, before)
  }

  lemma {:induction false} WarmedAt(s: State, addresses: seq<Address>, a: Address)
    ensures Warmed(s, addresses).trie == s.trie
    ensures Warmed(s, addresses).cache.Keys == s.cache.Keys + set b | b in addresses
    ensures a in addresses ==> Warmed(s, addresses).cache[a] == Entry(Acc(s.trie, a), false)
    ensures a !in addresses && a in s.cache ==> Warmed(s, addresses).cache[a] == s.cache[a]
  {
    if addresses != [] {
      var init, last := addresses[..|addresses| - 1], addresses[|addresses| - 1];
      WarmedAt(s, init, a);
      assert (set b | b in addresses) == (set b | b in init) + {last};
    }
  }

  lemma WarmKeepsView(s: State, addresses: seq<Address>)
    requires Coherent(s) && forall a | a in addresses :: a !in Modified(s)
    ensures Coherent(Warmed(s, addresses)) && forall a :: View(Warmed(s, addresses), a) == View(s, a)
  {
    var s' := Warmed(s, addresses);
    forall a ensures (a in s'.cache ==> CoherentAt(s', a)) && View(s', a) == View(s, a) {
      WarmedAt(s, addresses, a);
      assert a in s.cache ==> CoherentAt(s, a);
    }
  }

  lemma FlushKeepsView(s: State)
    requires Coherent(s)
    ensures Coherent(Flushed(s)) && Modified(Flushed(s)) == {}
    ensures forall a :: View(Flushed(s), a) == View(s, a) == Acc(Flushed(s).trie, a)
  {
    var s' := Flushed(s);
    forall a ensures (a in s'.cache ==> CoherentAt(s', a)) && View(s', a) == View(s, a) == Acc(s'.trie, a) {
      assert a in s.cache ==> CoherentAt(s, a);
    }
  }

  lemma DoChangesOnlyPuts(s: State, op: Op, a: Address)
    requires Coherent(s) && Careful(s, op)
    ensures Coherent(Do(s, op)) && View(Do(s, op), a) == LastPut([op], a, View(s, a))
  {
    match op
    case Put(b, val) =>
      var s' := Written(s, b, val);
      forall x | x in s'.cache ensures CoherentAt(s', x) { assert x != b ==> CoherentAt(s, x); }
    case Load(b) =>
      var s' := LoadedIfEmpty(s, b);
      forall x | x in s'.cache ensures CoherentAt(s', x) { assert x in s.cache ==> CoherentAt(s, x); }
      assert b in s.cache ==> CoherentAt(s, b);
    case Warm(addresses) => WarmKeepsView(s, addresses);
    case Flush => FlushKeepsView(s);
    case Clear => assert a in s.cache ==> CoherentAt(s, a) && a !in Modified(s);
  }

  /** Over any careful run of operations the view is changed by puts only, the cache stays coherent,
      and a flush makes the trie what the view is. */
  lemma {:induction false} ViewIsOfPuts(s: State, ops: seq<Op>, a: Address)
    requires Coherent(s) && AllCareful(s, ops)
    ensures Coherent(DoAll(s, ops)) && View(DoAll(s, ops), a) == LastPut(ops, a, View(s, a))
    ensures Acc(Flushed(DoAll(s, ops)).trie, a) == LastPut(ops, a, View(s, a))
    ensures Modified(Flushed(DoAll(s, ops))) == {}
  {
    if ops != [] {
      ViewIsOfPuts(s, ops[..|ops| - 1], a);
      DoChangesOnlyPuts(DoAll(s, ops[..|ops| - 1]), ops[|ops| - 1], a);
    }
    FlushKeepsView(DoAll(s, ops));
  }

  /** Warming keeps the view exactly when every warmed account is already seen as stored. */
  lemma WarmForgetsExactly(s: State, addresses: seq<Address>)
    ensures (forall a :: View(Warmed(s, addresses), a) == View(s, a))
            <==> (forall a | a in addresses :: View(s, a) == Acc(s.trie, a))
  {
    forall a ensures View(Warmed(s, addresses), a) == if a in addresses then Acc(s.trie, a) else View(s, a) {
      WarmedAt(s, addresses, a);
    }
  }
}
