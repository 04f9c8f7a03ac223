/** Nodes as they are stored: children are referred to by hash, or kept inside their parent
    when their encoding is short, and a store finds a node by its hash. */
module Store {
  import opened Wrappers
  import opened Nibbles
  import opened Trie
  import opened History

  type Digest(==, !new)

  datatype Ref = Nil | Hashed(digest: Digest) | Inline(node: Node)

  datatype Node =
    | LeafNode(key: Path, value: Value)
    | ExtNode(key: Path, child: Ref)
    | BranchNode(slots: seq<Ref>, leftover: Option<Value>)

  /** Hash and encoded size of a node, the root that stands for the empty trie, and the digest that a
      value is when it is compared with one. */
  datatype Scheme = Scheme(hash: Node -> Digest, size: Node -> nat, empty: Digest, digestOf: Value -> Option<Digest>)

  /** Different nodes have different hashes, none of them the empty root. */
  ghost predicate Ideal(s: Scheme) {
    (forall m, n :: s.hash(m) == s.hash(n) ==> m == n) && forall n :: s.hash(n) != s.empty
  }

  const DIGEST_LENGTH := 32

  /** Only a value of the one fixed length is a digest. */
  ghost predicate DigestsHaveLength(s: Scheme) {
    forall v :: s.digestOf(v).Some? ==> |v| == DIGEST_LENGTH
  }

  type Db = map<Digest, Node>

  /** Every entry sits under its own hash. */
  ghost predicate Addressed(s: Scheme, db: Db) {
    forall d | d in db :: s.hash(db[d]) == d
  }

  const INLINE_LIMIT := 32

  // ---------- the stored form of a tree ----------

  function NodeOf(s: Scheme, t: Tree): Node
    requires t != Null
    decreases t, 0
  {
    match t
    case Leaf(key, value) => LeafNode(key, value)
    case Ext(key, child) => ExtNode(key, RefOf(s, child))
    case Branch(slots, leftover) =>
      BranchNode(seq(|slots|, i requires 0 <= i < |slots| => RefOf(s, slots[i])), leftover)
  }

  function RefOfNode(s: Scheme, n: Node): Ref {
    if s.size(n) >= INLINE_LIMIT then Hashed(s.hash(n)) else Inline(n)
  }

  function RefOf(s: Scheme, t: Tree): Ref
    decreases t, 1
  {
    if t == Null then Nil else RefOfNode(s, NodeOf(s, t))
  }

  function RootOf(s: Scheme, t: Tree): Digest {
    if t == Null then s.empty else s.hash(NodeOf(s, t))
  }

  /** Every node of the tree that is referred to by hash has its hash in `keys`. */
  ghost predicate Kept(s: Scheme, keys: set<Digest>, t: Tree)
    decreases t, 1
  {
    t != Null ==> (RefOf(s, t).Hashed? ==> s.hash(NodeOf(s, t)) in keys) && KeptBelow(s, keys, t)
  }

  ghost predicate KeptBelow(s: Scheme, keys: set<Digest>, t: Tree)
    requires t != Null
    decreases t, 0
  {
    match t
    case Leaf(_, _) => true
    case Ext(_, child) => Kept(s, keys, child)
    case Branch(slots, _) => forall i | 0 <= i < |slots| :: Kept(s, keys, slots[i])
  }

  /** The tree can be read back from the store, starting at `root`. */
  ghost predicate Resolves(s: Scheme, db: Db, root: Digest, t: Tree) {
    root == RootOf(s, t) && (t != Null ==> root in db && KeptBelow(s, db.Keys, t))
  }

  /** The hashes of the nodes at or below a child, and below a node, that are stored on their own. */
  ghost function KeysOf(s: Scheme, t: Tree): set<Digest>
    decreases t, 1
  {
    if t == Null then {} else (if RefOf(s, t).Hashed? then {s.hash(NodeOf(s, t))} else {}) + KeysBelow(s, t)
  }

  ghost function KeysBelow(s: Scheme, t: Tree): set<Digest>
    requires t != Null
    decreases t, 0
  {
    match t
    case Leaf(_, _) => {}
    case Ext(_, child) => KeysOf(s, child)
    case Branch(slots, _) => KeysIn(s, slots)
  }

  ghost function KeysIn(s: Scheme, slots: seq<Tree>): set<Digest>
    decreases slots, 0
  {
    set i, d | 0 <= i < |slots| && d in KeysOf(s, slots[i]) :: d
  }

  lemma KeysInGrow(s: Scheme, slots: seq<Tree>, n: nat)
    requires n < |slots|
    ensures KeysIn(s, slots[..n + 1]) == KeysIn(s, slots[..n]) + KeysOf(s, slots[n])
  {
    var more := slots[..n + 1];
    assert more[n] == slots[n] && forall i | 0 <= i < n :: more[i] == slots[i] == slots[..n][i];
  }

  lemma KeysInMore(s: Scheme, slots: seq<Tree>, more: seq<Tree>)
    requires |slots| == |more| && forall i | 0 <= i < |slots| :: slots[i] != Null ==> more[i] == slots[i]
    ensures KeysIn(s, slots) <= KeysIn(s, more)
  {
    forall d | d in KeysIn(s, slots) ensures d in KeysIn(s, more) {
      var i :| 0 <= i < |slots| && d in KeysOf(s, slots[i]);
      assert d in KeysOf(s, more[i]);
    }
  }

  /** All that a root reaches. */
  ghost function Reached(s: Scheme, t: Tree): set<Digest> {
    if t == Null then {} else {RootOf(s, t)} + KeysBelow(s, t)
  }

  /** A tree can be read from a store exactly when the store has all that its root reaches. */
  lemma {:induction false} KeptExactly(s: Scheme, keys: set<Digest>, t: Tree)
    ensures Kept(s, keys, t) <==> KeysOf(s, t) <= keys
    decreases t, 1
  {
    if t != Null { KeptBelowExactly(s, keys, t); }
  }

  lemma {:induction false} KeptBelowExactly(s: Scheme, keys: set<Digest>, t: Tree)
    requires t != Null
    ensures KeptBelow(s, keys, t) <==> KeysBelow(s, t) <= keys
    decreases t, 0
  {
    match t
    case Leaf(_, _) =>
    case Ext(_, child) => KeptExactly(s, keys, child);
    case Branch(slots, _) =>
      forall i | 0 <= i < |slots| ensures Kept(s, keys, slots[i]) <==> KeysOf(s, slots[i]) <= keys {
        KeptExactly(s, keys, slots[i]);
      }
      if KeysBelow(s, t) <= keys {
        forall i | 0 <= i < |slots| ensures Kept(s, keys, slots[i]) {
          assert forall d | d in KeysOf(s, slots[i]) :: d in KeysBelow(s, t);
        }
      }
  }

  lemma ResolvesExactly(s: Scheme, db: Db, root: Digest, t: Tree)
    ensures Resolves(s, db, root, t) <==> root == RootOf(s, t) && Reached(s, t) <= db.Keys
  {
    if t != Null { KeptBelowExactly(s, db.Keys, t); }
  }

  lemma {:induction false} KeptMonotone(s: Scheme, keys: set<Digest>, more: set<Digest>, t: Tree)
    requires keys <= more && Kept(s, keys, t)
    ensures Kept(s, more, t)
    decreases t, 1
  {
    if t != Null { KeptBelowMonotone(s, keys, more, t); }
  }

  lemma {:induction false} KeptBelowMonotone(s: Scheme, keys: set<Digest>, more: set<Digest>, t: Tree)
    requires t != Null && keys <= more && KeptBelow(s, keys, t)
    ensures KeptBelow(s, more, t)
    decreases t, 0
  {
    match t
    case Leaf(_, _) =>
    case Ext(_, child) => KeptMonotone(s, keys, more, child);
    case Branch(slots, _) =>
      forall i | 0 <= i < |slots| ensures Kept(s, more, slots[i]) { KeptMonotone(s, keys, more, slots[i]); }
  }

  /** A root keeps its tree whatever is added to the store. */
  lemma ResolvesForever(s: Scheme, db: Db, more: Db, root: Digest, t: Tree)
    requires Resolves(s, db, root, t) && db.Keys <= more.Keys
    ensures Resolves(s, more, root, t)
  {
    if t != Null { KeptBelowMonotone(s, db.Keys, more.Keys, t); }
  }

  // ---------- the root identifies the contents ----------

  lemma {:induction false} NodeDeterminesTree(s: Scheme, t: Tree, u: Tree)
    requires Ideal(s) && t != Null && u != Null && NodeOf(s, t) == NodeOf(s, u)
    ensures t == u
    decreases t, 0
  {
    match t
    case Leaf(_, _) =>
    case Ext(_, child) => RefDeterminesTree(s, child, u.child);
    case Branch(slots, _) =>
      var n, m := NodeOf(s, t), NodeOf(s, u);
      assert |slots| == |n.slots| == |m.slots| == |u.slots|;
      forall i | 0 <= i < |slots| ensures slots[i] == u.slots[i] {
        assert n.slots[i] == m.slots[i];
        RefDeterminesTree(s, slots[i], u.slots[i]);
      }
      assert slots == u.slots;
  }

  lemma {:induction false} RefDeterminesTree(s: Scheme, t: Tree, u: Tree)
    requires Ideal(s) && RefOf(s, t) == RefOf(s, u)
    ensures t == u
    decreases t, 1
  {
    if t != Null { NodeDeterminesTree(s, t, u); }
  }

  /** Two canonical tries have the same root exactly when they have the same contents. */
  lemma RootIdentifiesContents(s: Scheme, t: Tree, u: Tree)
    requires Ideal(s) && Canonical(t) && Canonical(u)
    ensures RootOf(s, t) == RootOf(s, u) <==> SameContents(t, u)
  {
    if SameContents(t, u) {
      ContentsDetermineTree(t, u);
    } else if RootOf(s, t) == RootOf(s, u) && t != Null && u != Null {
      NodeDeterminesTree(s, t, u);
    }
  }

  /** Whatever the order and the number of operations: for safe histories that leave canonical trees,
      those of puts and those on keys of one length among them, equal maps mean equal roots and back. */
  lemma RootsOfHistories(s: Scheme, ops: seq<Op>, ops': seq<Op>)
    requires Ideal(s) && Safe(ops) && Canonical(Run(ops)) && Safe(ops') && Canonical(Run(ops'))
    ensures RootOf(s, Run(ops)) == RootOf(s, Run(ops')) <==> RunMap(ops) == RunMap(ops')
  {
    CanonicalIsIndependent(ops, ops');
    if RootOf(s, Run(ops)) == RootOf(s, Run(ops')) && Run(ops) != Null && Run(ops') != Null {
      NodeDeterminesTree(s, Run(ops), Run(ops'));
    }
  }

  /** An earlier root, in any later store, stands for its earlier tree and for no other. */
  lemma EarlierRootsStay(s: Scheme, db: Db, more: Db, root: Digest, t: Tree)
    requires Ideal(s) && Resolves(s, db, root, t) && db.Keys <= more.Keys
    ensures Resolves(s, more, root, t)
    ensures forall u :: Resolves(s, more, root, u) ==> u == t
  {
    ResolvesForever(s, db, more, root, t);
    forall u | Resolves(s, more, root, u) ensures u == t {
      if t != Null && u != Null { NodeDeterminesTree(s, t, u); }
    }
  }

  // ---------- the path from the root to a node ----------

  /** One step of a path: an extension, or a branch with all but the slot taken. */
  datatype Frame = ExtFrame(key: Path) | SlotFrame(slots: seq<Tree>, leftover: Option<Value>, index: Nibble)

  ghost predicate FrameOk(f: Frame) {
    f.SlotFrame? ==> |f.slots| == 16
  }

  ghost predicate PathOk(ctx: seq<Frame>) {
    forall i | 0 <= i < |ctx| :: FrameOk(ctx[i])
  }

  ghost function Fill(f: Frame, t: Tree): Tree
    requires FrameOk(f)
  {
    match f
    case ExtFrame(key) => Ext(key, t)
    case SlotFrame(slots, leftover, i) => Branch(slots[i := t], leftover)
  }

  ghost function Step(f: Frame): Path {
    match f
    case ExtFrame(key) => key
    case SlotFrame(_, _, i) => [i]
  }

  /** The whole tree, with `t` at the end of the path. */
  ghost function Plug(ctx: seq<Frame>, t: Tree): Tree
    requires PathOk(ctx)
  {
    if ctx == [] then t else Plug(ctx[..|ctx| - 1], Fill(ctx[|ctx| - 1], t))
  }

  ghost function PathKey(ctx: seq<Frame>): Path {
    if ctx == [] then [] else PathKey(ctx[..|ctx| - 1]) + Step(ctx[|ctx| - 1])
  }

  lemma PathSplit(ctx: seq<Frame>, k: Path)
    requires ctx != []
    ensures PathKey(ctx) + k == PathKey(ctx[..|ctx| - 1]) + (Step(ctx[|ctx| - 1]) + k)
  {}

  lemma PlugOne(ctx: seq<Frame>, f: Frame, t: Tree)
    requires PathOk(ctx) && FrameOk(f)
    ensures PathOk(ctx + [f]) && Plug(ctx + [f], t) == Plug(ctx, Fill(f, t))
    ensures PathKey(ctx + [f]) == PathKey(ctx) + Step(f)
  {
    assert (ctx + [f])[..|ctx|] == ctx;
  }

  lemma {:induction false} PlugWellFormed(ctx: seq<Frame>, t: Tree)
    requires PathOk(ctx) && WellFormed(Plug(ctx, t))
    ensures WellFormed(t)
    ensures ctx != [] ==> WellFormed(Fill(ctx[|ctx| - 1], t))
  {
    if ctx != [] {
      var f := ctx[|ctx| - 1];
      PlugWellFormed(ctx[..|ctx| - 1], Fill(f, t));
      if f.SlotFrame? { assert Fill(f, t).slots[f.index] == t; }
    }
  }

  /** What a node at the end of a path reaches the whole tree reaches. */
  lemma {:induction false} PlugReaches(s: Scheme, ctx: seq<Frame>, t: Tree)
    requires PathOk(ctx) && t != Null
    ensures Plug(ctx, t) != Null && KeysBelow(s, t) <= KeysBelow(s, Plug(ctx, t))
    ensures ctx != [] ==> KeysOf(s, t) <= KeysBelow(s, Plug(ctx, t))
    decreases |ctx|
  {
    if ctx != [] {
      var f := ctx[|ctx| - 1];
      PlugReaches(s, ctx[..|ctx| - 1], Fill(f, t));
      if f.SlotFrame? { assert Fill(f, t).slots[f.index] == t; }
      assert KeysOf(s, t) <= KeysBelow(s, Fill(f, t));
    }
  }

  lemma {:induction false} InsertAtPath(ctx: seq<Frame>, t: Tree, k: Path, v: Value)
    requires PathOk(ctx) && WellFormed(Plug(ctx, t)) && WellFormed(t)
    ensures Insert(Plug(ctx, t), PathKey(ctx) + k, v) == Plug(ctx, Insert(t, k, v))
  {
    if ctx != [] {
      var init, f := ctx[..|ctx| - 1], ctx[|ctx| - 1];
      PlugWellFormed(ctx, t);
      PathSplit(ctx, k);
      InsertAtPath(init, Fill(f, t), Step(f) + k, v);
      assert Insert(Fill(f, t), Step(f) + k, v) == Fill(f, Insert(t, k, v)) by {
        assert (Step(f) + k)[|Step(f)|..] == k;
        if f.SlotFrame? {
          assert f.slots[f.index := t][f.index := Insert(t, k, v)] == f.slots[f.index := Insert(t, k, v)];
        }
      }
    } else { assert PathKey(ctx) + k == k; }
  }

  lemma {:induction false} LookupAtPath(ctx: seq<Frame>, t: Tree, k: Path)
    requires PathOk(ctx) && WellFormed(Plug(ctx, t)) && WellFormed(t)
    ensures Lookup(Plug(ctx, t), PathKey(ctx) + k) == Lookup(t, k)
    ensures Found(Plug(ctx, t), PathKey(ctx) + k) == Found(t, k)
  {
    if ctx != [] {
      var init, f := ctx[..|ctx| - 1], ctx[|ctx| - 1];
      PlugWellFormed(ctx, t);
      PathSplit(ctx, k);
      LookupAtPath(init, Fill(f, t), Step(f) + k);
      assert (Step(f) + k)[|Step(f)|..] == k;
    } else { assert PathKey(ctx) + k == k; }
  }

  lemma EraseInFrame(f: Frame, t: Tree, k: Path, r: Option<Tree>)
    requires FrameOk(f) && WellFormed(Fill(f, t)) && WellFormed(t) && Found(t, k) && Erase(t, k) == r
    ensures Found(Fill(f, t), Step(f) + k)
    ensures r.None? ==> Erase(Fill(f, t), Step(f) + k).None?
    ensures r.Some? && r.value != Null && (f.ExtFrame? ==> r.value.Branch?)
            ==> Erase(Fill(f, t), Step(f) + k) == Some(Fill(f, r.value))
  {
    assert (Step(f) + k)[|Step(f)|..] == k;
    if f.SlotFrame? && r.Some? {
      assert f.slots[f.index := t][f.index := r.value] == f.slots[f.index := r.value];
    }
  }

  /** A deletion that leaves a branch, or a node under a branch, is passed up unchanged. */
  lemma {:induction false} EraseAtPath(ctx: seq<Frame>, t: Tree, k: Path, r: Tree)
    requires PathOk(ctx) && WellFormed(Plug(ctx, t)) && WellFormed(t) && Found(t, k)
    requires Erase(t, k) == Some(r) && r != Null
    requires ctx != [] && ctx[|ctx| - 1].ExtFrame? ==> r.Branch?
    ensures Found(Plug(ctx, t), PathKey(ctx) + k)
    ensures Erase(Plug(ctx, t), PathKey(ctx) + k) == Some(Plug(ctx, r))
  {
    if ctx == [] {
      assert PathKey(ctx) + k == k;
    } else {
      var init, f := ctx[..|ctx| - 1], ctx[|ctx| - 1];
      PlugWellFormed(ctx, t);
      EraseInFrame(f, t, k, Some(r));
      PathSplit(ctx, k);
      PlugWellFormed(init, Fill(f, t));
      EraseAtPath(init, Fill(f, t), Step(f) + k, Fill(f, r));
    }
  }

  lemma {:induction false} EraseFailsAtPath(ctx: seq<Frame>, t: Tree, k: Path)
    requires PathOk(ctx) && WellFormed(Plug(ctx, t)) && WellFormed(t) && Found(t, k)
    requires Erase(t, k) == None
    ensures Found(Plug(ctx, t), PathKey(ctx) + k)
    ensures Erase(Plug(ctx, t), PathKey(ctx) + k) == None
  {
    if ctx == [] {
      assert PathKey(ctx) + k == k;
    } else {
      var init, f := ctx[..|ctx| - 1], ctx[|ctx| - 1];
      PlugWellFormed(ctx, t);
      EraseInFrame(f, t, k, None);
      PathSplit(ctx, k);
      EraseFailsAtPath(init, Fill(f, t), Step(f) + k);
    }
  }
}
