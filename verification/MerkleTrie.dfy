/** The trie over a hash-addressed store, with nested checkpoints over a scratch store. */
module MerkleTrie {
  import opened Wrappers
  import opened Bytes
  import opened Nibbles
  import opened Trie
  import opened History
  import opened Store

  // ---------- the stack of nodes a walk leaves behind ----------

  /** The node agrees with the path step, except for the child the path goes to. */
  ghost predicate Fits(s: Scheme, n: Node, f: Frame)
    requires FrameOk(f)
  {
    match f
    case ExtFrame(key) => n.ExtNode? && n.key == key
    case SlotFrame(slots, leftover, i) =>
      n.BranchNode? && |n.slots| == 16 && n.leftover == leftover &&
      forall j | 0 <= j < 16 && j != i :: n.slots[j] == RefOf(s, slots[j])
  }

  ghost predicate AllFit(s: Scheme, stack: seq<Node>, ctx: seq<Frame>)
    requires PathOk(ctx) && |stack| == |ctx|
  {
    forall i | 0 <= i < |ctx| :: Fits(s, stack[i], ctx[i])
  }

  ghost predicate SiblingsKept(s: Scheme, keys: set<Digest>, f: Frame)
    requires FrameOk(f)
  {
    f.SlotFrame? ==> forall j | 0 <= j < 16 && j != f.index :: Kept(s, keys, f.slots[j])
  }

  ghost predicate PathKept(s: Scheme, keys: set<Digest>, ctx: seq<Frame>)
    requires PathOk(ctx)
  {
    forall i | 0 <= i < |ctx| :: SiblingsKept(s, keys, ctx[i])
  }

  /** The part of the key that belongs to the node itself. */
  ghost function OwnKey(t: Tree): Path {
    if t.Leaf? || t.Ext? then t.key else []
  }

  lemma FilledNode(s: Scheme, n: Node, f: Frame, t: Tree)
    requires FrameOk(f) && Fits(s, n, f)
    ensures f.ExtFrame? ==> NodeOf(s, Fill(f, t)) == ExtNode(n.key, RefOf(s, t))
    ensures f.SlotFrame? ==> NodeOf(s, Fill(f, t)) == BranchNode(n.slots[f.index := RefOf(s, t)], n.leftover)
  {
    if f.SlotFrame? {
      var b := NodeOf(s, Fill(f, t));
      assert b.slots == n.slots[f.index := RefOf(s, t)];
    }
  }

  lemma FilledKept(s: Scheme, keys: set<Digest>, f: Frame, t: Tree)
    requires FrameOk(f) && SiblingsKept(s, keys, f) && Kept(s, keys, t)
    ensures KeptBelow(s, keys, Fill(f, t))
  {
    if f.SlotFrame? {
      var slots := f.slots[f.index := t];
      assert forall j | 0 <= j < 16 :: Kept(s, keys, slots[j]);
    }
  }

  lemma PathKeptMonotone(s: Scheme, keys: set<Digest>, more: set<Digest>, ctx: seq<Frame>)
    requires PathOk(ctx) && keys <= more && PathKept(s, keys, ctx)
    ensures PathKept(s, more, ctx)
  {
    forall i | 0 <= i < |ctx| ensures SiblingsKept(s, more, ctx[i]) {
      if ctx[i].SlotFrame? {
        assert SiblingsKept(s, keys, ctx[i]);
        forall j | 0 <= j < 16 && j != ctx[i].index ensures Kept(s, more, ctx[i].slots[j]) {
          KeptMonotone(s, keys, more, ctx[i].slots[j]);
        }
      }
    }
  }

  /** One more step down a well-formed tree. */
  ghost function StepInto(t: Tree, k: Path): Frame
    requires WellFormed(t) && (t.Ext? || (t.Branch? && k != []))
  {
    if t.Ext? then ExtFrame(t.key) else SlotFrame(t.slots, t.leftover, k[0])
  }

  ghost function ChildOf(t: Tree, k: Path): Tree
    requires WellFormed(t) && (t.Ext? || (t.Branch? && k != []))
  {
    if t.Ext? then t.child else t.slots[k[0]]
  }

  /** Where the walk for a key stops: at the key's node, or where the key leaves the tree. */
  ghost predicate Stops(t: Tree, rest: Path)
    requires WellFormed(t)
  {
    t.Leaf? || (t.Ext? && !(t.key <= rest)) || (t.Branch? && (rest == [] || t.slots[rest[0]] == Null))
  }

  /** The nodes a walk for `k` passes, the one it stops at included. */
  ghost function PathNodes(s: Scheme, t: Tree, k: Path): seq<Node>
    requires WellFormed(t) && t != Null
  {
    [NodeOf(s, t)] + if Stops(t, k) then [] else PathNodes(s, ChildOf(t, k), k[|Step(StepInto(t, k))|..])
  }

  /** The part of the key that the progress of a walk leaves over. */
  method KeyRemainder(keyProgress: Path, target: Path, ghost rest: Path) returns (r: Path)
    requires target == keyProgress + rest
    ensures r == rest
  {
    MatchOfPrefix(keyProgress, target);
    var n := MatchingNibbleLength(keyProgress, target);
    r := target[n..];
  }

  /** `sub` lies in `tree` at the end of the path `ctx`, with `rest` of the key still to match;
      `stack` holds the nodes passed, and what lies below and beside the path is in the store. */
  ghost predicate OnPath(s: Scheme, keys: set<Digest>, tree: Tree, key: Path,
                         stack: seq<Node>, ctx: seq<Frame>, sub: Tree, rest: Path)
  {
    && PathOk(ctx) && WellFormed(sub) && sub != Null && Plug(ctx, sub) == tree
    && key == PathKey(ctx) + rest
    && |stack| == |ctx| && AllFit(s, stack, ctx)
    && PathKept(s, keys, ctx) && KeptBelow(s, keys, sub)
  }

  /** One more step takes its part off the rest of the key. */
  lemma KeyAfter(ctx: seq<Frame>, f: Frame, key: Path, rest: Path)
    requires PathOk(ctx) && FrameOk(f) && key == PathKey(ctx) + rest && Step(f) <= rest
    ensures key == PathKey(ctx + [f]) + rest[|Step(f)|..]
  {
    PlugOne(ctx, f, Null);
    Regroup(PathKey(ctx), Step(f), rest);
  }

  lemma Regroup(a: Path, b: Path, c: Path)
    requires b <= c
    ensures a + c == (a + b) + c[|b|..]
  {}

  lemma Descend(s: Scheme, keys: set<Digest>, tree: Tree, key: Path,
                stack: seq<Node>, ctx: seq<Frame>, t: Tree, k: Path)
    requires OnPath(s, keys, tree, key, stack, ctx, t, k) && !Stops(t, k)
    ensures var f, c := StepInto(t, k), ChildOf(t, k);
            Step(f) <= k && Kept(s, keys, c) && PathKey(ctx + [f]) == PathKey(ctx) + Step(f) &&
            OnPath(s, keys, tree, key, stack + [NodeOf(s, t)], ctx + [f], c, k[|Step(f)|..])
  {
    var f, c := StepInto(t, k), ChildOf(t, k);
    PathGrows(s, keys, stack, ctx, NodeOf(s, t), f);
    PlugOne(ctx, f, c);
    assert Fill(f, c) == t by { if t.Branch? { assert t.slots[k[0] := c] == t.slots; } }
    KeyAfter(ctx, f, key, k);
  }

  lemma PathNodesStep(s: Scheme, whole: seq<Node>, stack: seq<Node>, t: Tree, k: Path)
    requires WellFormed(t) && t != Null && !Stops(t, k) && WellFormed(ChildOf(t, k)) && ChildOf(t, k) != Null
    requires whole == stack + PathNodes(s, t, k)
    ensures whole == (stack + [NodeOf(s, t)]) + PathNodes(s, ChildOf(t, k), k[|Step(StepInto(t, k))|..])
  {}

  /** A walk under way: on the path, with the nodes passed and to come. */
  ghost predicate Walking(s: Scheme, keys: set<Digest>, tree: Tree, key: Path, stack: seq<Node>, ctx: seq<Frame>,
                          sub: Tree, rest: Path, whole: seq<Node>)
  {
    OnPath(s, keys, tree, key, stack, ctx, sub, rest) && whole == stack + PathNodes(s, sub, rest)
  }

  lemma StopsHere(s: Scheme, t: Tree, k: Path)
    requires WellFormed(t) && t != Null && Stops(t, k)
    ensures PathNodes(s, t, k) == [NodeOf(s, t)]
  {}

  lemma WalkOn(s: Scheme, keys: set<Digest>, tree: Tree, key: Path, stack: seq<Node>, ctx: seq<Frame>,
               t: Tree, k: Path, whole: seq<Node>)
    requires Walking(s, keys, tree, key, stack, ctx, t, k, whole) && !Stops(t, k)
    ensures var f, c := StepInto(t, k), ChildOf(t, k);
            && Step(f) <= k && Kept(s, keys, c) && PathOk(ctx + [f]) && PathKey(ctx + [f]) == PathKey(ctx) + Step(f)
            && Walking(s, keys, tree, key, stack + [NodeOf(s, t)], ctx + [f], c, k[|Step(f)|..], whole)
            && key == PathKey(ctx + [f]) + k[|Step(f)|..] && c < t
  {
    Descend(s, keys, tree, key, stack, ctx, t, k);
    PathNodesStep(s, whole, stack, t, k);
  }

  lemma {:induction false} MatchOfPrefix(a: Path, b: Path)
    requires a <= b
    ensures MatchLen(a, b) == |a|
  {
    if a != [] { MatchOfPrefix(a[1..], b[1..]); }
  }

  lemma PrefixSplits(t: Tree, rem: Path)
    requires WellFormed(t) && (t.Leaf? || t.Ext?)
    requires if t.Leaf? then t.key != rem else !(t.key <= rem)
    ensures var n := MatchLen(t.key, rem);
            (t.Ext? ==> n < |t.key|) && WellFormed(Divide(t, n)) &&
            (n < |rem| ==> Divide(t, n).slots[rem[n]] == Null) && rem[..n] == t.key[..n]
  {
    var n := MatchLen(t.key, rem);
    assert t.key[..|t.key|] == t.key && rem[..|rem|] == rem;
    assert n == |t.key| ==> t.key <= rem;
    LookupDivide(t, n, []);
  }

  lemma InsertForks(t: Tree, rem: Path, value: Value)
    requires WellFormed(t) && (t.Leaf? || t.Ext?)
    requires if t.Leaf? then t.key != rem else !(t.key <= rem)
    ensures var n := MatchLen(t.key, rem);
            (t.Ext? ==> n < |t.key|) && WellFormed(Divide(t, n)) &&
            Insert(t, rem, value) == Under(rem[..n], AddTo(Divide(t, n), rem[n..], value))
  {
    PrefixSplits(t, rem);
  }

  /** What a divided node reaches the tree with the new value reaches. */
  lemma ForkReaches(s: Scheme, ctx: seq<Frame>, t: Tree, rem: Path, n: nat, value: Value)
    requires PathOk(ctx) && WellFormed(t) && (t.Leaf? || t.Ext?) && n == MatchLen(t.key, rem)
    requires if t.Leaf? then t.key != rem else !(t.key <= rem)
    ensures (t.Ext? ==> n < |t.key|) && KeysBelow(s, Divide(t, n)) <= Reached(s, Plug(ctx, Insert(t, rem, value)))
  {
    InsertForks(t, rem, value);
    PrefixSplits(t, rem);
    var d, r := Divide(t, n), rem[n..];
    var grown := AddTo(d, r, value);
    KeysInMore(s, d.slots, grown.slots);
    assert KeysBelow(s, grown) <= KeysBelow(s, Under(rem[..n], grown));
    PlugReaches(s, ctx, Under(rem[..n], grown));
  }

  /** A path and its stack, made one step longer. */
  lemma PathGrows(s: Scheme, keys: set<Digest>, stack: seq<Node>, ctx: seq<Frame>, node: Node, f: Frame)
    requires PathOk(ctx) && |stack| == |ctx| && AllFit(s, stack, ctx) && PathKept(s, keys, ctx)
    requires FrameOk(f) && Fits(s, node, f) && SiblingsKept(s, keys, f)
    ensures PathOk(ctx + [f]) && AllFit(s, stack + [node], ctx + [f]) && PathKept(s, keys, ctx + [f])
  {
    var c, st := ctx + [f], stack + [node];
    forall i | 0 <= i < |c| ensures FrameOk(c[i]) && Fits(s, st[i], c[i]) && SiblingsKept(s, keys, c[i]) {
      if i < |ctx| { assert c[i] == ctx[i] && st[i] == stack[i]; }
    }
  }

  /** A tree hung below a new extension for the first `n` nibbles of the remaining key. */
  lemma BelowExtension(s: Scheme, keys: set<Digest>, key: Path, above: seq<Node>, ctx: seq<Frame>,
                       rem: Path, n: nat, node: Node, d: Tree)
    requires PathOk(ctx) && |above| == |ctx| && AllFit(s, above, ctx) && PathKept(s, keys, ctx)
    requires key == PathKey(ctx) + rem && n <= |rem| && node == ExtNode(rem[..n], Nil)
    requires WellFormed(d) && d != Null && KeptBelow(s, keys, d)
    ensures PathOk(ctx + [ExtFrame(rem[..n])])
    ensures OnPath(s, keys, Plug(ctx, Ext(rem[..n], d)), key, above + [node], ctx + [ExtFrame(rem[..n])], d, rem[n..])
  {
    var f := ExtFrame(rem[..n]);
    PathGrows(s, keys, above, ctx, node, f);
    PlugOne(ctx, f, d);
    KeyAfter(ctx, f, key, rem);
  }

  /** A leaf put into a free slot of the branch at the end of a path. */
  lemma BelowBranch(s: Scheme, keys: set<Digest>, key: Path, stack: seq<Node>, ctx: seq<Frame>, branch: Node, b: Tree,
                    rem: Path, value: Value)
    requires b.Branch? && WellFormed(b) && branch == NodeOf(s, b) && rem != [] && b.slots[rem[0]] == Null
    requires PathOk(ctx) && OnPath(s, keys, Plug(ctx, b), key, stack, ctx, b, rem)
    ensures OnPath(s, keys, Plug(ctx, AddTo(b, rem, value)), key, stack + [branch],
                   ctx + [SlotFrame(b.slots, b.leftover, rem[0])], Leaf(rem[1..], value), rem[1..])
  {
    var f, t := SlotFrame(b.slots, b.leftover, rem[0]), Leaf(rem[1..], value);
    BranchFrame(s, keys, b, rem[0]);
    PathGrows(s, keys, stack, ctx, branch, f);
    PlugOne(ctx, f, t);
    KeyAfter(ctx, f, key, rem);
    assert Fill(f, t) == AddTo(b, rem, value);
  }

  lemma BranchFrame(s: Scheme, keys: set<Digest>, b: Tree, i: Nibble)
    requires b.Branch? && WellFormed(b) && KeptBelow(s, keys, b)
    ensures Fits(s, NodeOf(s, b), SlotFrame(b.slots, b.leftover, i)) && SiblingsKept(s, keys, SlotFrame(b.slots, b.leftover, i))
  {}

  // ---------- deletion on the path ----------

  lemma PathKeyGrows(ctx: seq<Frame>, t: Tree)
    requires PathOk(ctx) && WellFormed(Plug(ctx, t)) && ctx != []
    ensures PathKey(ctx) != [] && !Plug(ctx, t).Leaf?
    decreases |ctx|
  {
    PlugWellFormed(ctx, t);
    var up, f := ctx[..|ctx| - 1], ctx[|ctx| - 1];
    if up != [] { PathKeyGrows(up, Fill(f, t)); }
  }

  /** The tree with `r` in place of the end of the path; an extension above joins its key to `r`. */
  ghost function Joined(ctx: seq<Frame>, r: Tree): Tree
    requires PathOk(ctx)
  {
    if ctx != [] && ctx[|ctx| - 1].ExtFrame? then Plug(ctx[..|ctx| - 1], Prepend(ctx[|ctx| - 1].key, r))
    else Plug(ctx, r)
  }

  lemma EraseUnderBranch(f: Frame, leaf: Tree, b: Tree)
    requires FrameOk(f) && f.SlotFrame? && leaf.Leaf? && WellFormed(Fill(f, leaf))
    requires b == Branch(f.slots[f.index := Null], f.leftover)
    ensures Found(Fill(f, leaf), Step(f) + leaf.key) && WellFormed(b)
    ensures Erase(Fill(f, leaf), Step(f) + leaf.key) == Collapse(b)
    ensures Collapse(b).Some? ==> Collapse(b).value != Null
  {
    assert (Step(f) + leaf.key)[1..] == leaf.key;
    var t := Fill(f, leaf);
    assert t.slots[f.index := Null] == b.slots;
    forall i | 0 <= i < 16 ensures WellFormed(b.slots[i]) { assert WellFormed(t.slots[i]); }
    if Collapse(b).Some? { LookupCollapse(b, []); }
  }

  /** Deleting the leaf at the end of a path collapses the branch above it, if at all, and then
      only that branch and an extension right above it. */
  lemma EraseLeaf(up: seq<Frame>, f: Frame, leaf: Tree, b: Tree, r: Option<Tree>)
    requires PathOk(up) && FrameOk(f) && f.SlotFrame? && WellFormed(Plug(up, Fill(f, leaf))) && leaf.Leaf?
    requires b == Branch(f.slots[f.index := Null], f.leftover) && r == Collapse(b)
    ensures WellFormed(b) && Found(Plug(up, Fill(f, leaf)), PathKey(up) + (Step(f) + leaf.key))
    ensures r.None? ==> Erase(Plug(up, Fill(f, leaf)), PathKey(up) + (Step(f) + leaf.key)) == None
    ensures r.Some? ==> Erase(Plug(up, Fill(f, leaf)), PathKey(up) + (Step(f) + leaf.key)) == Some(Joined(up, r.value))
  {
    var t, k := Fill(f, leaf), Step(f) + leaf.key;
    PlugWellFormed(up, t);
    EraseUnderBranch(f, leaf, b);
    if r.None? {
      EraseFailsAtPath(up, t, k);
    } else {
      EraseJoins(up, t, k, r.value);
    }
  }

  lemma PrependTwice(a: Path, b: Path, t: Tree)
    requires b != []
    ensures Prepend(a, Prepend(b, t)) == Prepend(a + b, t)
  {
    if t.Leaf? || t.Ext? { assert a + (b + t.key) == (a + b) + t.key; }
  }

  lemma EraseJoins(up: seq<Frame>, t: Tree, k: Path, r: Tree)
    requires PathOk(up) && WellFormed(Plug(up, t)) && WellFormed(t) && Found(t, k)
    requires Erase(t, k) == Some(r) && r != Null
    ensures Found(Plug(up, t), PathKey(up) + k)
    ensures Erase(Plug(up, t), PathKey(up) + k) == Some(Joined(up, r))
  {
    if up != [] && up[|up| - 1].ExtFrame? {
      var top, f := up[..|up| - 1], up[|up| - 1];
      PlugWellFormed(up, t);
      assert (f.key + k)[|f.key|..] == k;
      assert PathKey(up) + k == PathKey(top) + (f.key + k);
      PlugWellFormed(top, Fill(f, t));
      EraseAtPath(top, Fill(f, t), f.key + k, Prepend(f.key, r));
    } else {
      EraseAtPath(up, t, k, r);
    }
  }

  /** The used entries of a branch, in order; 16 stands for the value. */
  method FilledSlots(s: Scheme, node: Node, ghost b: Tree) returns (entries: seq<int>)
    requires b.Branch? && |b.slots| == 16 && node == NodeOf(s, b)
    ensures |entries| == 1 ==> Lone(b, entries[0])
    ensures |entries| != 1 ==> forall i :: !Lone(b, i)
  {
    entries := [];
    for i := 0 to 17
      invariant forall j :: j in entries <==> j < i && Filled(b, j)
      invariant forall p | 0 <= p < |entries| :: entries[p] < i
      invariant forall p, q | 0 <= p < q < |entries| :: entries[p] < entries[q]
    {
      if (if i < 16 then node.slots[i] != Nil else node.leftover.Some?) {
        assert Filled(b, i);
        entries := entries + [i];
      }
    }
    if |entries| == 1 {
      assert Filled(b, entries[0]) by { assert entries[0] in entries; }
    } else if |entries| > 1 {
      assert entries[0] in entries && entries[1] in entries;
    }
  }

  datatype Walk = Return(hit: bool) | Follow(child: Ref, extension: Path)

  ghost predicate Decides(s: Scheme, step: Walk, t: Tree, rest: Path)
    requires WellFormed(t)
  {
    match step
    case Return(hit) => Stops(t, rest) && (hit <==> Found(t, rest))
    case Follow(child, extension) =>
      !Stops(t, rest) && (t.Ext? || t.Branch?) && child == RefOf(s, ChildOf(t, rest)) && extension == Step(StepInto(t, rest))
  }

  /** The decision at one node of a walk for a key. */
  method ProcessNode(s: Scheme, node: Node, keyRemainder: Path, ghost t: Tree) returns (step: Walk)
    requires WellFormed(t) && t != Null && node == NodeOf(s, t)
    ensures Decides(s, step, t, keyRemainder)
  {
    match node
    case LeafNode(key, _) => step := Return(key == keyRemainder);
    case ExtNode(key, child) => step := if key <= keyRemainder then Follow(child, key) else Return(false);
    case BranchNode(slots, _) =>
      if keyRemainder == [] {
        step := Return(true);
      } else if slots[keyRemainder[0]] == Nil {
        step := Return(false);
      } else {
        step := Follow(slots[keyRemainder[0]], [keyRemainder[0]]);
      }
  }

  /** A path being rebuilt: `t` is done and `last` refers to it, `rest` is still to be linked.
      Nil in `last` marks the start, where `t`'s node is the last of `rest`. */
  ghost predicate Rising(s: Scheme, keys: set<Digest>, whole: Tree, rest: seq<Node>, key: Path, last: Ref,
                         ctx: seq<Frame>, t: Tree)
  {
    && PathOk(ctx) && t != Null && Plug(ctx, t) == whole
    && |rest| == |ctx| + (if last == Nil then 1 else 0) && AllFit(s, rest[..|ctx|], ctx)
    && PathKept(s, keys, ctx) && KeptBelow(s, keys, t)
    && match last
       case Nil => rest[|ctx|] == NodeOf(s, t) && key == PathKey(ctx) + OwnKey(t)
       case _ =>
         key == PathKey(ctx) &&
         if ctx == [] then last == Hashed(RootOf(s, t)) && RootOf(s, t) in keys
         else last == RefOf(s, t) && Kept(s, keys, t)
  }

  // ---------- listing the contents ----------

  /** The entries are those of the tree, of a branch only its value and its first `n` slots, each
      key after `prefix`. */
  ghost predicate Lists(found: map<Path, Value>, prefix: Path, t: Tree, n: nat)
    requires WellFormed(t)
  {
    forall k :: ListsAt(found, prefix, t, n, k)
  }

  ghost predicate ListsAt(found: map<Path, Value>, prefix: Path, t: Tree, n: nat, k: Path)
    requires WellFormed(t)
  {
    At(found, k) == if prefix <= k && (t.Branch? && |k| > |prefix| ==> k[|prefix|] < n) then Lookup(t, k[|prefix|..]) else None
  }

  lemma ListsLeaf(prefix: Path, t: Tree)
    requires t.Leaf?
    ensures Lists(map[prefix + t.key := t.value], prefix, t, 16)
  {
    forall k ensures ListsAt(map[prefix + t.key := t.value], prefix, t, 16, k) {
      SplitKey(prefix, k);
      assert (prefix + t.key)[|prefix|..] == t.key;
    }
  }

  lemma ListsExt(found: map<Path, Value>, prefix: Path, t: Tree)
    requires WellFormed(t) && t.Ext? && Lists(found, prefix + t.key, t.child, 16)
    ensures Lists(found, prefix, t, 16)
  {
    forall k ensures ListsAt(found, prefix, t, 16, k) {
      assert ListsAt(found, prefix + t.key, t.child, 16, k);
      SplitKey(prefix + t.key, k);
      SplitKey(prefix, k);
      if prefix <= k {
        var r := k[|prefix|..];
        SplitKey(t.key, r);
        assert prefix + t.key <= k <==> t.key <= r;
        assert t.key <= r ==> k[|prefix + t.key|..] == r[|t.key|..];
      }
    }
  }

  lemma ListsNothing(found: map<Path, Value>, prefix: Path, t: Tree)
    requires WellFormed(t) && t.Branch?
    requires found == if t.leftover.Some? then map[prefix := t.leftover.value] else map[]
    ensures Lists(found, prefix, t, 0)
  {
    forall k ensures ListsAt(found, prefix, t, 0, k) {
      SplitKey(prefix, k);
      if prefix <= k && |k| == |prefix| { assert k == prefix && k[|prefix|..] == []; }
    }
  }

  lemma ListsSlot(found: map<Path, Value>, below: map<Path, Value>, prefix: Path, t: Tree, i: Nibble)
    requires WellFormed(t) && t.Branch? && Lists(found, prefix, t, i)
    requires if t.slots[i] == Null then below == map[] else Lists(below, prefix + [i], t.slots[i], 16)
    ensures Lists(found + below, prefix, t, i + 1)
  {
    var all, n: nat := found + below, i + 1;
    forall k ensures ListsAt(all, prefix, t, n, k) {
      assert ListsAt(found, prefix, t, i, k);
      if t.slots[i] != Null { assert ListsAt(below, prefix + [i], t.slots[i], 16, k); }
      SplitKey(prefix, k);
      SplitKey(prefix + [i], k);
      if prefix <= k && |k| > |prefix| {
        assert prefix + [i] <= k <==> k[|prefix|] == i;
        assert k[|prefix|..][1..] == k[|prefix| + 1..];
      }
    }
  }

  datatype Outcome = Done | LookupFailed | NotCheckpointed

  class CheckpointTrie {
    const s: Scheme
    var mainDb: Db
    var scratch: Option<Db>
    var root: Digest
    var checkpoints: seq<Digest>

    ghost var tree: Tree
    ghost var saved: seq<Tree>   // the trees at the open checkpoints, oldest first

    /** What a read sees: the scratch store first, then the main store. */
    ghost function View(): Db
      reads this
    {
      if scratch.Some? then mainDb + scratch.value else mainDb
    }

    ghost predicate Stored()
      reads this
    {
      && Ideal(s) && Addressed(s, mainDb) && (scratch.Some? ==> Addressed(s, scratch.value))
      && |saved| == |checkpoints| && (scratch.Some? <==> checkpoints != [])
      && (forall i | 0 <= i < |saved| :: WellFormed(saved[i]) && Resolves(s, View(), checkpoints[i], saved[i]))
      && (saved != [] ==> Resolves(s, mainDb, checkpoints[0], saved[0]))
    }

    ghost predicate Valid()
      reads this
    {
      Stored() && WellFormed(tree) && Resolves(s, View(), root, tree)
    }

    /** The map the trie stands for. */
    ghost function Read(k: Path): Option<Value>
      reads this
      requires Valid()
    {
      Lookup(tree, k)
    }

    constructor (s: Scheme, db: Db, root: Digest, ghost t: Tree)
      requires Ideal(s) && Addressed(s, db) && WellFormed(t) && Resolves(s, db, root, t)
      ensures Valid() && tree == t && saved == [] && View() == db && this.s == s
    {
      this.s := s;
      mainDb, scratch, this.root, checkpoints := db, None, root, [];
      tree, saved := t, [];
    }

    // ---------- walking ----------

    method LookupNode(ref: Ref) returns (n: Option<Node>)
      ensures n == match ref
                   case Nil => None
                   case Inline(node) => Some(node)
                   case Hashed(d) => if d in View() then Some(View()[d]) else None
    {
      match ref
      case Nil => n := None;
      case Inline(node) => n := Some(node);
      case Hashed(d) =>
        if scratch.Some? && d in scratch.value {
          n := Some(scratch.value[d]);
        } else {
          n := if d in mainDb then Some(mainDb[d]) else None;
        }
    }

    lemma StoredNode(d: Digest, n: Node)
      requires Stored() && d in View() && d == s.hash(n)
      ensures View()[d] == n
    {
      assert s.hash(View()[d]) == d;
    }

    /** Loads a child that the store is known to hold. */
    method LookupChild(ref: Ref, ghost t: Tree) returns (n: Option<Node>)
      requires Stored() && t != Null && ref == RefOf(s, t) && Kept(s, View().Keys, t)
      ensures n == Some(NodeOf(s, t))
    {
      if ref.Hashed? { StoredNode(ref.digest, NodeOf(s, t)); }
      n := LookupNode(ref);
    }

    /** Finds the node for a key, with the nodes on the way to where the walk stopped. */
    method FindPath(target: Path)
      returns (found: Option<Node>, remainder: Path, stack: seq<Node>, ghost ctx: seq<Frame>, ghost sub: Tree, ghost rest: Path)
      requires Valid() && tree != Null
      ensures stack != [] && OnPath(s, View().Keys, tree, target, stack[..|stack| - 1], ctx, sub, rest)
      ensures Stops(sub, rest) && stack[|stack| - 1] == NodeOf(s, sub)
      ensures found == if Found(sub, rest) then Some(NodeOf(s, sub)) else None
      ensures remainder == if found.Some? then [] else rest
      ensures stack == PathNodes(s, tree, target)
    {
      var node, hit, passed;
      node, hit, remainder, passed, ctx, sub, rest := Walk(target);
      stack := passed + [node];
      assert stack[..|stack| - 1] == passed;
      StopsHere(s, sub, rest);
      found := None;
      if hit { found, remainder := Some(node), []; }
    }

    /** Follows the key from the root, to where the walk stops. */
    method Walk(target: Path)
      returns (node: Node, hit: bool, remainder: Path, passed: seq<Node>, ghost ctx: seq<Frame>, ghost sub: Tree, ghost rest: Path)
      requires Valid() && tree != Null
      ensures Walking(s, View().Keys, tree, target, passed, ctx, sub, rest, PathNodes(s, tree, target))
      ensures Stops(sub, rest) && (hit <==> Found(sub, rest)) && remainder == rest && node == NodeOf(s, sub)
    {
      ctx, sub, rest, passed := [], tree, target, [];
      ghost var whole, keys := PathNodes(s, tree, target), View().Keys;
      StoredNode(root, NodeOf(s, sub));
      var looked := LookupNode(Hashed(root));
      node := looked.value;
      var keyProgress: Path := [];
      remainder := target;
      var step := ProcessNode(s, node, remainder, sub);
      while step.Follow?
        invariant Walking(s, keys, tree, target, passed, ctx, sub, rest, whole)
        invariant keyProgress == PathKey(ctx) && remainder == rest && node == NodeOf(s, sub)
        invariant Decides(s, step, sub, rest)
        decreases sub
      {
        WalkOn(s, keys, tree, target, passed, ctx, sub, rest, whole);
        ghost var f := StepInto(sub, rest);
        passed, keyProgress := passed + [node], keyProgress + step.extension;
        ctx, sub, rest := ctx + [f], ChildOf(sub, rest), rest[|Step(f)|..];
        node, remainder, step := NextNode(step.child, keyProgress, target, sub, rest);
      }
      hit := step.hit;
    }

    /** The next node of a walk, what of the key is left for it, and its decision. */
    method NextNode(child: Ref, keyProgress: Path, target: Path, ghost t: Tree, ghost rest: Path)
      returns (node: Node, remainder: Path, step: Walk)
      requires Stored() && WellFormed(t) && t != Null && child == RefOf(s, t) && Kept(s, View().Keys, t)
      requires target == keyProgress + rest
      ensures node == NodeOf(s, t) && remainder == rest && Decides(s, step, t, rest)
    {
      var looked := LookupChild(child, t);
      node := looked.value;
      remainder := KeyRemainder(keyProgress, target, rest);
      step := ProcessNode(s, node, remainder, t);
    }

    method Get(key: Path) returns (value: Option<Value>)
      requires Valid()
      ensures value == Read(key)
    {
      if root == s.empty { return None; }
      var found, remainder, stack, ctx, sub, rest := FindPath(key);
      if Found(sub, rest) || Lookup(sub, rest).None? {} else { FoundWhenPresent(sub, rest); }
      LookupAtPath(ctx, sub, rest);
      match found
      case None => value := None;
      case Some(LeafNode(_, v)) => value := Some(v);
      case Some(BranchNode(_, v)) => value := v;
      case Some(ExtNode(_, _)) => assert false;
    }

    // ---------- saving ----------

    /** The reference a parent keeps for a node; nodes kept by hash are added to the batch. */
    method FormatNode(node: Node, topLevel: bool, ops: Db) returns (ref: Ref, ops': Db)
      ensures ops' == if s.size(node) >= INLINE_LIMIT || topLevel then ops[s.hash(node) := node] else ops
      ensures ref == if topLevel then Hashed(s.hash(node)) else RefOfNode(s, node)
      ensures ref.Hashed? <==> topLevel || s.size(node) >= 32
    {
      if s.size(node) >= INLINE_LIMIT || topLevel {
        ops' := ops[s.hash(node) := node];
        return Hashed(s.hash(node)), ops';
      }
      return Inline(node), ops;
    }

    /** Puts the reference of the node below into a node of the stack, and takes the node's own
        part off the key. The last node of the stack has nothing to take in. */
    method Relink(node: Node, key: Path, last: Ref, ghost ctx: seq<Frame>, ghost t: Tree)
      returns (node': Node, key': Path)
      requires PathOk(ctx) && t != Null
      requires last == Nil ==> node == NodeOf(s, t) && key == PathKey(ctx) + OwnKey(t)
      requires last != Nil ==> ctx != [] && Fits(s, node, ctx[|ctx| - 1]) && last == RefOf(s, t) && key == PathKey(ctx)
      ensures last == Nil ==> node' == node && key' == PathKey(ctx)
      ensures last != Nil ==> node' == NodeOf(s, Fill(ctx[|ctx| - 1], t)) && key' == PathKey(ctx[..|ctx| - 1])
    {
      if last != Nil { FilledNode(s, node, ctx[|ctx| - 1], t); }
      match node
      case LeafNode(nodeKey, _) => node', key' := node, key[..|key| - |nodeKey|];
      case ExtNode(nodeKey, _) =>
        key' := key[..|key| - |nodeKey|];
        node' := if last != Nil then ExtNode(nodeKey, last) else node;
      case BranchNode(slots, leftover) =>
        node', key' := node, key;
        if last != Nil {
          key' := key[..|key| - 1];
          node' := BranchNode(slots[key[|key| - 1] := last], leftover);
        }
    }

    /** A node of the path that is stored on its own is among what the root reaches. */
    lemma NodeReached(s: Scheme, ctx: seq<Frame>, t: Tree, whole: Tree, topLevel: bool)
      requires PathOk(ctx) && t != Null && Plug(ctx, t) == whole && (topLevel ==> ctx == [])
      ensures topLevel || s.size(NodeOf(s, t)) >= INLINE_LIMIT ==> s.hash(NodeOf(s, t)) in Reached(s, whole)
    {
      PlugReaches(s, ctx, t);
    }

    /** Rebuilds the path bottom-up from the changed node: the new root and the nodes to store. */
    method RebuildPath(key: Path, stack: seq<Node>, ops: Db, ghost keys: set<Digest>,
                       ghost ctx: seq<Frame>, ghost cur: Tree, ghost whole: Tree)
      returns (newRoot: Digest, batch: Db)
      requires Addressed(s, ops) && stack != []
      requires OnPath(s, keys + ops.Keys, whole, key, stack[..|stack| - 1], ctx, cur, OwnKey(cur))
      requires stack[|stack| - 1] == NodeOf(s, cur)
      ensures Addressed(s, batch) && whole != Null && newRoot == RootOf(s, whole)
      ensures newRoot in keys + batch.Keys && KeptBelow(s, keys + batch.Keys, whole)
      ensures batch.Keys <= ops.Keys + Reached(s, whole)
    {
      var rest, k := stack, key;
      var last: Ref := Nil;
      ghost var c, t := ctx, cur;
      batch := ops;
      while rest != []
        invariant Rising(s, keys + batch.Keys, whole, rest, k, last, c, t)
        invariant Addressed(s, batch) && (rest == [] ==> last != Nil)
        invariant batch.Keys <= ops.Keys + Reached(s, whole)
      {
        var node := rest[|rest| - 1];
        rest := rest[..|rest| - 1];
        node, k := Relink(node, k, last, c, t);
        ghost var before := keys + batch.Keys;
        if last != Nil {
          ghost var f := c[|c| - 1];
          FilledKept(s, before, f, t);
          c, t := c[..|c| - 1], Fill(f, t);
        }
        assert AllFit(s, rest[..|c|], c);
        NodeReached(s, c, t, whole, rest == []);
        last, batch := FormatNode(node, rest == [], batch);
        KeptBelowMonotone(s, before, keys + batch.Keys, t);
        PathKeptMonotone(s, before, keys + batch.Keys, c);
      }
      newRoot := last.digest;
    }

    /** Stores the rebuilt path and moves the root to its top. */
    method SaveStack(key: Path, stack: seq<Node>, ops: Db, ghost ctx: seq<Frame>, ghost cur: Tree, ghost whole: Tree)
      requires Stored() && Addressed(s, ops) && WellFormed(whole) && stack != []
      requires OnPath(s, View().Keys + ops.Keys, whole, key, stack[..|stack| - 1], ctx, cur, OwnKey(cur))
      requires stack[|stack| - 1] == NodeOf(s, cur) && ops.Keys <= Reached(s, whole)
      modifies this
      ensures Valid() && tree == whole
      ensures saved == old(saved) && checkpoints == old(checkpoints)
      ensures View().Keys == old(View()).Keys + Reached(s, tree) && (checkpoints != [] ==> mainDb == old(mainDb))
    {
      var newRoot, batch := RebuildPath(key, stack, ops, View().Keys, ctx, cur, whole);
      MoveTo(newRoot, batch, whole);
    }

    /** Stores what a new tree needs and goes to its root. */
    method MoveTo(newRoot: Digest, batch: Db, ghost whole: Tree)
      requires Stored() && Addressed(s, batch) && WellFormed(whole) && whole != Null && newRoot == RootOf(s, whole)
      requires newRoot in View().Keys + batch.Keys && KeptBelow(s, View().Keys + batch.Keys, whole)
      requires batch.Keys <= Reached(s, whole)
      modifies this
      ensures Valid() && tree == whole
      ensures saved == old(saved) && checkpoints == old(checkpoints)
      ensures View().Keys == old(View()).Keys + Reached(s, tree) && (checkpoints != [] ==> mainDb == old(mainDb))
    {
      ghost var keys := View().Keys;
      Write(batch);
      assert View().Keys == keys + batch.Keys;
      root, tree := newRoot, whole;
      ResolvesExactly(s, View(), root, tree);
    }

    /** Adds a batch of nodes to the store that is written to at the moment. */
    method Write(batch: Db)
      requires Stored() && Addressed(s, batch)
      modifies this`mainDb, this`scratch
      ensures Stored() && View() == old(View()) + batch && (checkpoints != [] ==> mainDb == old(mainDb))
    {
      ghost var before := View();
      ResolvesAll(before, before + batch);
      if scratch.Some? {
        assert mainDb + (scratch.value + batch) == before + batch;
        scratch := Some(scratch.value + batch);
      } else {
        mainDb := mainDb + batch;
      }
    }

    lemma ResolvesAll(db: Db, more: Db)
      requires |saved| == |checkpoints| && db.Keys <= more.Keys
      requires forall i | 0 <= i < |saved| :: Resolves(s, db, checkpoints[i], saved[i])
      ensures forall i | 0 <= i < |saved| :: Resolves(s, more, checkpoints[i], saved[i])
    {
      forall i | 0 <= i < |saved| ensures Resolves(s, more, checkpoints[i], saved[i]) {
        ResolvesForever(s, db, more, checkpoints[i], saved[i]);
      }
    }

    // ---------- put ----------

    method Put(key: Path, value: Buffer) returns (outcome: Outcome)
      requires Valid()
      modifies this
      ensures Valid() && saved == old(saved) && checkpoints == old(checkpoints)
      ensures View().Keys == old(View()).Keys + Reached(s, tree) && (checkpoints != [] ==> mainDb == old(mainDb))
      ensures value != [] ==> outcome == Done && tree == Insert(old(tree), key, value)
      ensures value == [] ==> Delete(old(tree), key).Some? <==> outcome == Done
      ensures value == [] ==> tree == if outcome == Done then Delete(old(tree), key).value else old(tree)
    {
      if value == [] {
        outcome := Del(key);
        return;
      }
      outcome := Done;
      if root == s.empty {
        CreateInitialNode(key, value);
      } else {
        var found, keyRemainder, stack, ctx, sub, rest := FindPath(key);
        UpdateNode(key, value, keyRemainder, stack, ctx, sub, rest);
      }
    }

    method CreateInitialNode(key: Path, value: Value)
      requires Valid() && tree == Null
      modifies this
      ensures Valid() && tree == Leaf(key, value) && saved == old(saved) && checkpoints == old(checkpoints)
      ensures View().Keys == old(View()).Keys + Reached(s, tree) && (checkpoints != [] ==> mainDb == old(mainDb))
    {
      var node := LeafNode(key, value);
      MoveTo(s.hash(node), map[s.hash(node) := node], Leaf(key, value));
    }

    /** The branch that takes a divided node's place, and the nodes it needs in the store. */
    method BuildFork(last: Node, n: nat, ghost t: Tree, ghost keys: set<Digest>) returns (branch: Node, ops: Db)
      requires WellFormed(t) && (t.Leaf? || t.Ext?) && n <= |t.key| && (t.Ext? ==> n < |t.key|)
      requires last == NodeOf(s, t) && KeptBelow(s, keys, t)
      ensures branch == NodeOf(s, Divide(t, n))
      ensures Addressed(s, ops) && KeptBelow(s, keys + ops.Keys, Divide(t, n)) && ops.Keys <= KeysBelow(s, Divide(t, n))
    {
      var slots: seq<Ref> := seq(16, _ => Nil);
      ops := map[];
      ghost var d := Divide(t, n);
      if n < |last.key| {
        var branchKey, rest := last.key[n], last.key[n + 1..];
        var ref: Ref;
        match last {
          case LeafNode(_, value) => ref, ops := FormatNode(LeafNode(rest, value), false, ops);
          case ExtNode(_, child) =>
            if rest != [] {
              ref, ops := FormatNode(ExtNode(rest, child), false, ops);
            } else {
              ref := child;
            }
          case BranchNode(_, _) => assert false;
        }
        KeptBelowMonotone(s, keys, keys + ops.Keys, t);
        assert ref == RefOf(s, Shorten(t, n + 1)) && Kept(s, keys + ops.Keys, Shorten(t, n + 1));
        assert ops.Keys <= KeysOf(s, d.slots[branchKey]) <= KeysBelow(s, d);
        slots := slots[branchKey := ref];
        branch := BranchNode(slots, None);
      } else {
        branch := BranchNode(slots, Some(last.value));
      }
      assert branch.slots == NodeOf(s, d).slots;
    }

    /** A branch whose slot or value for the remaining key is set, and the leaf that goes there. */
    method AttachValue(key: Path, value: Value, rem: Path, branch: Node, stack: seq<Node>, ops: Db,
                       ghost ctx: seq<Frame>, ghost b: Tree, ghost whole: Tree)
      requires Stored() && Addressed(s, ops) && b.Branch? && WellFormed(b) && branch == NodeOf(s, b)
      requires rem != [] ==> b.slots[rem[0]] == Null
      requires PathOk(ctx)
      requires OnPath(s, View().Keys + ops.Keys, Plug(ctx, b), key, stack, ctx, b, rem)
      requires WellFormed(whole) && whole == Plug(ctx, AddTo(b, rem, value)) && ops.Keys <= Reached(s, whole)
      modifies this
      ensures Valid() && tree == whole && saved == old(saved) && checkpoints == old(checkpoints)
      ensures View().Keys == old(View()).Keys + Reached(s, tree) && (checkpoints != [] ==> mainDb == old(mainDb))
    {
      ghost var grown := AddTo(b, rem, value);
      if rem == [] {
        var node := BranchNode(branch.slots, Some(value));
        assert node == NodeOf(s, grown) by { assert node.slots == NodeOf(s, grown).slots; }
        assert (stack + [node])[..|stack|] == stack;
        SaveStack(key, stack + [node], ops, ctx, grown, whole);
      } else {
        var leaf := LeafNode(rem[1..], value);
        ghost var f, t := SlotFrame(b.slots, b.leftover, rem[0]), Leaf(rem[1..], value);
        BelowBranch(s, View().Keys + ops.Keys, key, stack, ctx, branch, b, rem, value);
        assert (stack + [branch, leaf])[..|stack| + 1] == stack + [branch];
        SaveStack(key, stack + [branch, leaf], ops, ctx + [f], t, whole);
      }
    }

    /** How many nibbles of the key the nodes of a stack take up. */
    method ProcessedLength(stack: seq<Node>, ghost ctx: seq<Frame>) returns (l: nat)
      requires PathOk(ctx) && |stack| == |ctx| && AllFit(s, stack, ctx)
      ensures l == |PathKey(ctx)|
    {
      l := 0;
      for i := 0 to |stack|
        invariant l == |PathKey(ctx[..i])|
      {
        assert Fits(s, stack[i], ctx[i]);
        assert ctx[..i + 1][..i] == ctx[..i];
        l := l + if stack[i].BranchNode? then 1 else |stack[i].key|;
      }
      assert ctx[..|ctx|] == ctx;
    }

    /** Writes a value at the place a walk for its key has stopped. */
    method UpdateNode(key: Path, value: Value, keyRemainder: Path, stack: seq<Node>,
                      ghost ctx: seq<Frame>, ghost sub: Tree, ghost rest: Path)
      requires Valid() && tree != Null && stack != []
      requires OnPath(s, View().Keys, tree, key, stack[..|stack| - 1], ctx, sub, rest) && Stops(sub, rest)
      requires stack[|stack| - 1] == NodeOf(s, sub) && keyRemainder == if Found(sub, rest) then [] else rest
      modifies this
      ensures Valid() && tree == Insert(old(tree), key, value) && saved == old(saved) && checkpoints == old(checkpoints)
      ensures View().Keys == old(View()).Keys + Reached(s, tree) && (checkpoints != [] ==> mainDb == old(mainDb))
    {
      var last, above := stack[|stack| - 1], stack[..|stack| - 1];
      ghost var whole := Insert(tree, key, value);
      InsertAtPath(ctx, sub, rest, value);
      InsertWellFormed(tree, key, value);
      if last.LeafNode? {
        var l := ProcessedLength(above, ctx);
        assert key[l..] == rest;
        var none: Db := map[];
        assert View().Keys + none.Keys == View().Keys;
        if last.key == key[l..] && keyRemainder == [] {
          var node := LeafNode(last.key, value);
          assert (above + [node])[..|above|] == above;
          SaveStack(key, above + [node], none, ctx, Leaf(sub.key, value), whole);
          return;
        }
      }
      if last.BranchNode? {
        var none: Db := map[];
        assert View().Keys + none.Keys == View().Keys;
        AttachValue(key, value, keyRemainder, last, above, none, ctx, sub, whole);
        return;
      }
      var n := MatchingNibbleLength(last.key, keyRemainder);
      UpdateFork(key, value, keyRemainder, n, last, above, ctx, sub, whole);
    }

    /** The walk stopped inside the key of a leaf or an extension. */
    method UpdateFork(key: Path, value: Value, rem: Path, n: nat, last: Node, above: seq<Node>,
                      ghost ctx: seq<Frame>, ghost t: Tree, ghost whole: Tree)
      requires Stored() && (t.Leaf? || t.Ext?) && last == NodeOf(s, t) && n == MatchLen(t.key, rem)
      requires if t.Leaf? then t.key != rem else !(t.key <= rem)
      requires PathOk(ctx) && OnPath(s, View().Keys, Plug(ctx, t), key, above, ctx, t, rem)
      requires WellFormed(whole) && whole == Plug(ctx, Insert(t, rem, value))
      modifies this
      ensures Valid() && tree == whole && saved == old(saved) && checkpoints == old(checkpoints)
      ensures View().Keys == old(View()).Keys + Reached(s, tree) && (checkpoints != [] ==> mainDb == old(mainDb))
    {
      PrefixSplits(t, rem);
      ghost var keys := View().Keys;
      var branch, ops := BuildFork(last, n, t, keys);
      ghost var d := Divide(t, n);
      InsertForks(t, rem, value);
      PathKeptMonotone(s, keys, keys + ops.Keys, ctx);
      ForkReaches(s, ctx, t, rem, n, value);
      if n != 0 {
        var node := ExtNode(last.key[..n], Nil);
        BelowExtension(s, keys + ops.Keys, key, above, ctx, rem, n, node, d);
        PlugOne(ctx, ExtFrame(rem[..n]), d);
        PlugOne(ctx, ExtFrame(rem[..n]), AddTo(d, rem[n..], value));
        AttachValue(key, value, rem[n..], branch, above + [node], ops, ctx + [ExtFrame(rem[..n])], d, whole);
      } else {
        assert rem[n..] == rem && rem[..n] == [];
        AttachValue(key, value, rem, branch, above, ops, ctx, d, whole);
      }
    }

    method Del(key: Path) returns (outcome: Outcome)
      requires Valid()
      modifies this
      ensures Valid() && saved == old(saved) && checkpoints == old(checkpoints)
      ensures View().Keys == old(View()).Keys + Reached(s, tree) && (checkpoints != [] ==> mainDb == old(mainDb))
      ensures Delete(old(tree), key).Some? <==> outcome == Done
      ensures tree == if outcome == Done then Delete(old(tree), key).value else old(tree)
    {
      ResolvesExactly(s, View(), root, tree);
      if root == s.empty { return Done; }
      var found, remainder, stack, ctx, sub, rest := FindPath(key);
      LookupAtPath(ctx, sub, rest);
      if found.Some? {
        outcome := DeleteNode(key, stack, ctx, sub, rest);
      } else {
        outcome := Done;
      }
    }

    method DeleteNode(key: Path, stack: seq<Node>, ghost ctx: seq<Frame>, ghost sub: Tree, ghost rest: Path)
      returns (outcome: Outcome)
      requires Valid() && tree != Null && stack != [] && Found(tree, key)
      requires OnPath(s, View().Keys, tree, key, stack[..|stack| - 1], ctx, sub, rest)
      requires Stops(sub, rest) && Found(sub, rest) && stack[|stack| - 1] == NodeOf(s, sub)
      modifies this
      ensures Valid() && saved == old(saved) && checkpoints == old(checkpoints)
      ensures View().Keys == old(View()).Keys + Reached(s, tree) && (checkpoints != [] ==> mainDb == old(mainDb))
      ensures Delete(old(tree), key).Some? <==> outcome == Done
      ensures tree == if outcome == Done then Delete(old(tree), key).value else old(tree)
    {
      var last, above := stack[|stack| - 1], stack[..|stack| - 1];
      if above == [] {
        root, tree := s.empty, Null;
        return Done;
      }
      PathKeyGrows(ctx, sub);
      if last.BranchNode? {
        var node := BranchNode(last.slots, None);
        ghost var cur := Branch(sub.slots, None);
        assert node.slots == NodeOf(s, cur).slots;
        EraseAtPath(ctx, sub, rest, cur);
        LookupErase(tree, key, key);
        var none: Db := map[];
        assert View().Keys + none.Keys == View().Keys;
        assert (above + [node])[..|above|] == above;
        SaveStack(key, above + [node], none, ctx, cur, Plug(ctx, cur));
        return Done;
      }
      outcome := DeleteLeaf(key, last, above, ctx, sub);
    }

    /** Empties the slot of a leaf, and removes the branch above it when one entry is left. */
    method DeleteLeaf(key: Path, last: Node, above: seq<Node>, ghost ctx: seq<Frame>, ghost leaf: Tree) returns (outcome: Outcome)
      requires Valid() && leaf.Leaf? && last == NodeOf(s, leaf) && ctx != []
      requires OnPath(s, View().Keys, tree, key, above, ctx, leaf, leaf.key) && key != [] && Found(tree, key)
      modifies this
      ensures Valid() && saved == old(saved) && checkpoints == old(checkpoints)
      ensures View().Keys == old(View()).Keys + Reached(s, tree) && (checkpoints != [] ==> mainDb == old(mainDb))
      ensures Erase(old(tree), key).Some? <==> outcome == Done
      ensures tree == if outcome == Done then Erase(old(tree), key).value else old(tree)
    {
      ghost var up, f := ctx[..|ctx| - 1], ctx[|ctx| - 1];
      PlugWellFormed(ctx, leaf);
      ghost var b := Branch(f.slots[f.index := Null], f.leftover);
      assert key == PathKey(up) + (Step(f) + leaf.key);
      EraseLeaf(up, f, leaf, b, Collapse(b));
      if Collapse(b).Some? { LookupErase(tree, key, key); }
      var k := key[..|key| - |last.key|];
      var branchKey := k[|k| - 1];
      k := k[..|k| - 1];
      assert k == PathKey(up) && branchKey == f.index;
      var parent, stack := above[|above| - 1], above[..|above| - 1];
      assert Fits(s, parent, f) && SiblingsKept(s, View().Keys, f);
      var node := BranchNode(parent.slots[branchKey := Nil], parent.leftover);
      FilledNode(s, parent, f, Null);
      FilledKept(s, View().Keys, f, Null);
      assert b == Fill(f, Null);
      outcome := PruneBranch(k, node, stack, up, b, tree);
    }

    /** The branch has lost an entry: it is kept, or its last entry takes its place. */
    method PruneBranch(key: Path, node: Node, stack: seq<Node>, ghost ctx: seq<Frame>, ghost b: Tree, ghost before: Tree)
      returns (outcome: Outcome)
      requires Valid() && tree == before && b.Branch? && WellFormed(b) && node == NodeOf(s, b) && KeptBelow(s, View().Keys, b)
      requires PathOk(ctx) && |stack| == |ctx| && AllFit(s, stack, ctx) && PathKept(s, View().Keys, ctx) && key == PathKey(ctx)
      requires Collapse(b).Some? ==> WellFormed(Joined(ctx, Collapse(b).value))
      modifies this
      ensures Valid() && saved == old(saved) && checkpoints == old(checkpoints)
      ensures View().Keys == old(View()).Keys + Reached(s, tree) && (checkpoints != [] ==> mainDb == old(mainDb))
      ensures Collapse(b).Some? <==> outcome == Done
      ensures tree == if outcome == Done then Joined(ctx, Collapse(b).value) else before
    {
      ResolvesExactly(s, View(), root, tree);
      var entries := FilledSlots(s, node, b);
      var none: Db := map[];
      assert View().Keys + none.Keys == View().Keys;
      if |entries| == 1 {
        var i := entries[0];
        if i == 16 { return LookupFailed; }
        ghost var child := b.slots[i];
        assert Kept(s, View().Keys, child);
        var looked := LookupChild(node.slots[i], child);
        var key', stack', ctx', cur := ProcessBranchNode(key, i, looked.value, stack, View().Keys, ctx, child);
        SaveStack(key', stack', none, ctx', cur, Joined(ctx, Collapse(b).value));
      } else {
        assert (stack + [node])[..|stack|] == stack;
        assert Joined(ctx, b) == Plug(ctx, b);
        SaveStack(key, stack + [node], none, ctx, b, Joined(ctx, b));
      }
      outcome := Done;
    }

    /** Joins the only node left below a branch with what is above the branch. */
    method ProcessBranchNode(key: Path, branchKey: Nibble, child: Node, stack: seq<Node>,
                             ghost keys: set<Digest>, ghost ctx: seq<Frame>, ghost c: Tree)
      returns (key': Path, stack': seq<Node>, ghost ctx': seq<Frame>, ghost cur: Tree)
      requires PathOk(ctx) && |stack| == |ctx| && AllFit(s, stack, ctx) && PathKept(s, keys, ctx) && key == PathKey(ctx)
      requires WellFormed(c) && c != Null && child == NodeOf(s, c) && KeptBelow(s, keys, c)
      ensures stack' != [] && cur != Null && stack'[|stack'| - 1] == NodeOf(s, cur)
      ensures OnPath(s, keys, Joined(ctx, Prepend([branchKey], c)), key', stack'[..|stack'| - 1], ctx', cur, OwnKey(cur))
    {
      assert stack != [] ==> Fits(s, stack[|stack| - 1], ctx[|ctx| - 1]);
      if stack != [] && !stack[|stack| - 1].BranchNode? {
        var parent, above := stack[|stack| - 1], stack[..|stack| - 1];
        ghost var up := ctx[..|ctx| - 1];
        assert key == PathKey(up) + parent.key;
        PrependTwice(parent.key, [branchKey], c);
        key', stack', ctx', cur := Hang(parent.key, key, branchKey, child, above, keys, up, c);
      } else {
        assert key == key + [] && [] + [branchKey] == [branchKey];
        key', stack', ctx', cur := Hang([], key, branchKey, child, stack, keys, ctx, c);
      }
    }

    /** A node moved up to hang from `stack`, with `prefix` and its slot's nibble before its key. */
    method Hang(prefix: Path, key: Path, branchKey: Nibble, child: Node, stack: seq<Node>,
                ghost keys: set<Digest>, ghost ctx: seq<Frame>, ghost c: Tree)
      returns (key': Path, stack': seq<Node>, ghost ctx': seq<Frame>, ghost cur: Tree)
      requires PathOk(ctx) && |stack| == |ctx| && AllFit(s, stack, ctx) && PathKept(s, keys, ctx)
      requires key == PathKey(ctx) + prefix
      requires WellFormed(c) && c != Null && child == NodeOf(s, c) && KeptBelow(s, keys, c)
      ensures stack' != [] && cur != Null && stack'[|stack'| - 1] == NodeOf(s, cur)
      ensures OnPath(s, keys, Plug(ctx, Prepend(prefix + [branchKey], c)), key', stack'[..|stack'| - 1], ctx', cur, OwnKey(cur))
    {
      var joint := prefix + [branchKey];
      assert key + [branchKey] == PathKey(ctx) + joint;
      if child.BranchNode? {
        var extension := ExtNode(joint, Nil);
        ghost var f := ExtFrame(joint);
        PlugOne(ctx, f, c);
        key', stack', ctx', cur := key + [branchKey], stack + [extension, child], ctx + [f], c;
        assert stack'[..|stack'| - 1] == stack + [extension];
        assert key' == PathKey(ctx') + OwnKey(cur);
      } else {
        var moved := if child.LeafNode? then LeafNode(joint + child.key, child.value)
                     else ExtNode(joint + child.key, child.child);
        LookupPrepend(joint, c, []);
        key', stack', ctx', cur := key + ([branchKey] + child.key), stack + [moved], ctx, Prepend(joint, c);
        assert stack'[..|stack'| - 1] == stack;
        assert key' == PathKey(ctx) + (joint + child.key);
      }
    }

    /** One put or deletion. */
    method RunOp(op: Op) returns (outcome: Outcome)
      requires Valid()
      modifies this
      ensures Valid() && saved == old(saved) && checkpoints == old(checkpoints)
      ensures View().Keys == old(View()).Keys + (if outcome == Done then Reached(s, tree) else {})
      ensures checkpoints != [] ==> mainDb == old(mainDb)
      ensures outcome == Done ==> tree == Apply(old(tree), op)
      ensures outcome != Done ==> op.Del? && Delete(tree, op.key).None? && tree == old(tree)
    {
      ResolvesExactly(s, View(), root, tree);
      match op
      case Put(k, v) => outcome := Put(k, v);
      case Del(k) => outcome := Del(k);
    }

    /** Puts and deletes in order, up to the first one that fails. */
    method Batch(ops: seq<Op>) returns (outcome: Outcome, ghost ran: nat)
      requires Valid()
      modifies this
      ensures Valid() && saved == old(saved) && checkpoints == old(checkpoints)
      ensures ran <= |ops| && View().Keys == old(View()).Keys + Written(s, old(tree), ops[..ran])
      ensures checkpoints != [] ==> mainDb == old(mainDb)
      ensures (outcome == Done <==> ran == |ops|) && tree == ApplyAll(old(tree), ops[..ran])
      ensures ran < |ops| ==> ops[ran].Del? && Delete(tree, ops[ran].key).None?
    {
      outcome, ran := Done, 0;
      ghost var keys, start := View().Keys, tree;
      assert ops[..0] == [] && Written(s, start, []) == {};
      for i := 0 to |ops|
        invariant Valid() && saved == old(saved) && checkpoints == old(checkpoints)
        invariant View().Keys == keys + Written(s, start, ops[..i])
        invariant checkpoints != [] ==> mainDb == old(mainDb)
        invariant ran == i && tree == ApplyAll(start, ops[..i]) && outcome == Done
      {
        outcome := RunOp(ops[i]);
        if outcome != Done { return; }
        WrittenStep(s, start, ops, i);
        ran := i + 1;
      }
      assert ops[..|ops|] == ops;
    }

    // ---------- roots and checkpoints ----------

    /** Goes to another root that the store holds. */
    method SetRoot(newRoot: Digest, ghost t: Tree)
      requires Valid() && WellFormed(t) && Resolves(s, View(), newRoot, t)
      modifies this`root, this`tree
      ensures Valid() && tree == t && root == newRoot && View() == old(View())
    {
      root, tree := newRoot, t;
    }

    method Checkpoint()
      requires Valid()
      modifies this
      ensures Valid() && tree == old(tree) && saved == old(saved) + [old(tree)]
      ensures root == old(root) && mainDb == old(mainDb) && View() == old(View())
    {
      var wasCheckpoint := checkpoints != [];
      checkpoints, saved := checkpoints + [root], saved + [tree];
      if !wasCheckpoint {
        scratch := Some(map[]);
        assert View() == mainDb;
      }
    }

    /** Every node reachable from a reference that is stored on its own, and no other. */
    method FindDbNodes(ref: Ref, ghost t: Tree) returns (nodes: Db)
      requires Stored() && WellFormed(t) && t != Null && KeptBelow(s, View().Keys, t)
      requires ref == Hashed(RootOf(s, t)) || ref == RefOf(s, t)
      requires ref.Hashed? ==> ref.digest in View()
      ensures Addressed(s, nodes)
      ensures nodes.Keys == (if ref.Hashed? then {RootOf(s, t)} else {}) + KeysBelow(s, t)
      decreases t, 1
    {
      if ref.Hashed? { StoredNode(ref.digest, NodeOf(s, t)); }
      var looked := LookupNode(ref);
      var node := looked.value;
      nodes := if ref.Hashed? then map[ref.digest := node] else map[];
      match node
      case LeafNode(_, _) =>
      case ExtNode(_, child) =>
        var below := ChildDbNodes(child, t.child);
        nodes := nodes + below;
      case BranchNode(slots, _) =>
        var below := BranchDbNodes(slots, t);
        nodes := nodes + below;
    }

    method BranchDbNodes(slots: seq<Ref>, ghost t: Tree) returns (nodes: Db)
      requires Stored() && WellFormed(t) && t.Branch? && |slots| == 16
      requires forall i | 0 <= i < 16 :: slots[i] == RefOf(s, t.slots[i]) && Kept(s, View().Keys, t.slots[i])
      ensures Addressed(s, nodes) && nodes.Keys == KeysBelow(s, t)
      decreases t, 0
    {
      nodes := map[];
      assert KeysIn(s, t.slots[..0]) == {};
      for i := 0 to 16
        invariant Addressed(s, nodes) && nodes.Keys == KeysIn(s, t.slots[..i])
      {
        KeysInGrow(s, t.slots, i);
        var below := ChildDbNodes(slots[i], t.slots[i]);
        nodes := nodes + below;
      }
      assert t.slots[..16] == t.slots;
    }

    /** The same for a child, if there is one. */
    method ChildDbNodes(ref: Ref, ghost t: Tree) returns (nodes: Db)
      requires Stored() && WellFormed(t) && Kept(s, View().Keys, t) && ref == RefOf(s, t)
      ensures Addressed(s, nodes) && nodes.Keys == KeysOf(s, t)
      decreases t, 2
    {
      if ref == Nil { return map[]; }
      nodes := FindDbNodes(ref, t);
    }

    /** Every key with a value at or below a node, `prefix` being the way to it. */
    method FindValueNodes(ref: Ref, prefix: Path, ghost t: Tree) returns (found: map<Path, Value>)
      requires Stored() && WellFormed(t) && t != Null && KeptBelow(s, View().Keys, t)
      requires ref == Hashed(RootOf(s, t)) || ref == RefOf(s, t)
      requires ref.Hashed? ==> ref.digest in View()
      ensures Lists(found, prefix, t, 16)
      decreases t
    {
      if ref.Hashed? { StoredNode(ref.digest, NodeOf(s, t)); }
      var looked := LookupNode(ref);
      var node := looked.value;
      match node
      case LeafNode(key, value) =>
        found := map[prefix + key := value];
        ListsLeaf(prefix, t);
      case ExtNode(key, child) =>
        found := FindValueNodes(child, prefix + key, t.child);
        ListsExt(found, prefix, t);
      case BranchNode(slots, leftover) =>
        found := if leftover.Some? then map[prefix := leftover.value] else map[];
        ListsNothing(found, prefix, t);
        for i := 0 to 16
          invariant Lists(found, prefix, t, i)
        {
          if slots[i] != Nil {
            assert Kept(s, View().Keys, t.slots[i]) && slots[i] == RefOf(s, t.slots[i]);
            var below := FindValueNodes(slots[i], prefix + [i], t.slots[i]);
            ListsSlot(found, below, prefix, t, i);
            found := found + below;
          } else {
            ListsSlot(found, map[], prefix, t, i);
            assert found + map[] == found;
          }
        }
    }

    /** The whole contents. */
    method Contents() returns (found: map<Path, Value>)
      requires Valid()
      ensures forall k :: At(found, k) == Read(k)
    {
      if root == s.empty { return map[]; }
      found := FindValueNodes(Hashed(root), [], tree);
      forall k ensures At(found, k) == Read(k) { assert ListsAt(found, [], tree, 16, k); assert k[0..] == k; }
    }

    /** Every node that the current root reaches. */
    method RootDbNodes() returns (nodes: Db)
      requires Valid()
      ensures Addressed(s, nodes) && nodes.Keys == Reached(s, tree)
    {
      if root == s.empty { return map[]; }
      nodes := FindDbNodes(Hashed(root), tree);
    }

    /** Closes the latest checkpoint and keeps the changes; the outermost one copies what the
        current root reaches into the main store. */
    method Commit() returns (outcome: Outcome)
      requires Valid()
      modifies this
      ensures Valid() && tree == old(tree) && root == old(root)
      ensures mainDb.Keys == old(mainDb).Keys + if |old(saved)| == 1 then Reached(s, tree) else {}
      ensures outcome == if old(saved) == [] then NotCheckpointed else Done
      ensures saved == if old(saved) == [] then [] else old(saved)[..|old(saved)| - 1]
      ensures View() == if saved == [] then mainDb else old(View())
    {
      if checkpoints == [] { return NotCheckpointed; }
      outcome := Done;
      if |checkpoints| == 1 {
        var nodes := RootDbNodes();
        mainDb := mainDb + nodes;
        scratch, checkpoints, saved := None, [], [];
        ResolvesExactly(s, mainDb, root, tree);
      } else {
        checkpoints, saved := checkpoints[..|checkpoints| - 1], saved[..|saved| - 1];
      }
    }

    /** Goes back to the root of the latest checkpoint and closes it. */
    method Revert()
      requires Valid()
      modifies this
      ensures Valid() && mainDb == old(mainDb) && View() == if saved == [] then mainDb else old(View())
      ensures old(saved) == [] ==> tree == old(tree) && saved == [] && root == old(root)
      ensures old(saved) != [] ==> tree == old(saved)[|old(saved)| - 1] && saved == old(saved)[..|old(saved)| - 1]
    {
      if checkpoints != [] {
        root, tree := checkpoints[|checkpoints| - 1], saved[|saved| - 1];
        checkpoints, saved := checkpoints[..|checkpoints| - 1], saved[..|saved| - 1];
        if checkpoints == [] { scratch := None; }
      }
    }
  }
  /** All that the roots of a history reach, one root after the other. */
  ghost function Written(s: Scheme, t: Tree, ops: seq<Op>): set<Digest>
    requires WellFormed(t)
  {
    if ops == [] then {} else Written(s, t, ops[..|ops| - 1]) + Reached(s, ApplyAll(t, ops))
  }

  lemma WrittenStep(s: Scheme, t: Tree, ops: seq<Op>, i: nat)
    requires WellFormed(t) && i < |ops|
    ensures ApplyAll(t, ops[..i + 1]) == Apply(ApplyAll(t, ops[..i]), ops[i])
    ensures Written(s, t, ops[..i + 1]) == Written(s, t, ops[..i]) + Reached(s, ApplyAll(t, ops[..i + 1]))
  {
    assert ops[..i + 1][..i] == ops[..i];
  }

  // ---------- the main store ----------

  /** A change writes to the main store when no checkpoint is open, a commit when it closes the last. */
  ghost predicate WritesMain(v: Versions, a: Action) {
    match a
    case Change(_) => v.saved == []
    case Commit => |v.saved| == 1
    case _ => false
  }

  /** What the main store holds after some actions from the empty root. */
  ghost function MainKeys(s: Scheme, actions: seq<Action>): set<Digest> {
    if actions == [] then {}
    else
      var before := actions[..|actions| - 1];
      MainKeys(s, before) +
      if WritesMain(Replay(before), actions[|actions| - 1]) then Reached(s, Replay(actions).tree) else {}
  }

  /** Two stores with the same keys are the same. */
  lemma KeysDetermineStore(s: Scheme, db: Db, db': Db)
    requires Ideal(s) && Addressed(s, db) && Addressed(s, db') && db.Keys == db'.Keys
    ensures db == db'
  {
    forall d | d in db ensures d in db' && db[d] == db'[d] {
      assert d in db.Keys && d in db'.Keys;
      assert s.hash(db[d]) == d == s.hash(db'[d]);
    }
  }

  lemma MainStep(s: Scheme, actions: seq<Action>, a: Action)
    ensures Replay(actions + [a]) == Act(Replay(actions), a)
    ensures MainKeys(s, actions + [a]) == MainKeys(s, actions) +
            if WritesMain(Replay(actions), a) then Reached(s, Replay(actions + [a]).tree) else {}
  {
    assert (actions + [a])[..|actions|] == actions;
  }

  /** After each of the actions `during` some checkpoint is open. */
  ghost predicate StaysOpen(before: seq<Action>, during: seq<Action>) {
    during != [] ==> Replay(before + during).saved != [] && StaysOpen(before, during[..|during| - 1])
  }

  lemma LastOf<T>(before: seq<T>, during: seq<T>)
    requires during != []
    ensures before + during == before + during[..|during| - 1] + [during[|during| - 1]]
  {}

  lemma {:induction false} OpenAddsNothing(s: Scheme, before: seq<Action>, during: seq<Action>)
    requires Replay(before).saved == [] && StaysOpen(before, during)
    ensures MainKeys(s, before + during) == MainKeys(s, before)
    decreases |during|
  {
    if during == [] {
      assert before + during == before;
    } else {
      var init, a := during[..|during| - 1], during[|during| - 1];
      OpenAddsNothing(s, before, init);
      LastOf(before, during);
      MainStep(s, before + init, a);
      if init == [] { assert before + init == before; }
    }
  }

  /** While a checkpoint stays open nothing is added to the main store, and a revert leaves it as it was
      before the outermost checkpoint. */
  lemma OpenKeepsMain(s: Scheme, before: seq<Action>, during: seq<Action>)
    requires Replay(before).saved == [] && StaysOpen(before, during)
    ensures MainKeys(s, before + during) == MainKeys(s, before)
    ensures MainKeys(s, before + during + [Revert]) == MainKeys(s, before)
  {
    OpenAddsNothing(s, before, during);
    MainStep(s, before + during, Revert);
  }

  /** A trie after a safe history from the empty root. */
  method RunHistory(s: Scheme, ops: seq<Op>) returns (trie: CheckpointTrie)
    requires Ideal(s) && Safe(ops)
    ensures fresh(trie) && trie.Valid() && trie.s == s && trie.tree == Run(ops) && trie.saved == []
  {
    trie := new CheckpointTrie(s, map[], s.empty, Null);
    var outcome, ran := trie.Batch(ops);
    if ran < |ops| {
      SafeSoFar(ops, ran);
      DeleteIsExact(trie.tree, ops[ran].key);
      assert false;
    }
    assert ops[..|ops|] == ops;
  }

  /** From the empty root, after any safe history, `get` over the store returns what a plain map
      returns, and the root is that of the tree. */
  method RunAndGet(s: Scheme, ops: seq<Op>, key: Path) returns (value: Option<Value>, root: Digest)
    requires Ideal(s) && Safe(ops)
    ensures value == At(RunMap(ops), key) && root == RootOf(s, Run(ops))
  {
    var trie := RunHistory(s, ops);
    RunIsAMap(ops);
    value := trie.Get(key);
    root := trie.root;
  }

  /** After any further operations, even ones that go wrong or fail, an earlier root gives back its
      earlier contents. */
  method RunGoBackAndGet(s: Scheme, ops: seq<Op>, more: seq<Op>, key: Path) returns (value: Option<Value>)
    requires Ideal(s) && Safe(ops)
    ensures value == At(RunMap(ops), key)
  {
    var trie := RunHistory(s, ops);
    RunIsAMap(ops);
    var earlier := trie.root;
    ghost var db := trie.View();
    var outcome, ran := trie.Batch(more);
    ResolvesForever(s, db, trie.View(), earlier, Run(ops));
    trie.SetRoot(earlier, Run(ops));
    value := trie.Get(key);
  }

  /** Any mix of safe changes, nested checkpoints, commits and reverts, run on the store: `get`
      answers as the stack of maps does, and when no checkpoint is open the contents can be read from
      the main store alone. */
  method ReplayAndGet(s: Scheme, actions: seq<Action>, key: Path) returns (value: Option<Value>, root: Digest, main: Db)
    requires Ideal(s) && SafeActions(actions)
    ensures value == At(ReplayMap(actions).current, key) && root == RootOf(s, Replay(actions).tree)
    ensures ReplayMap(actions).saved == [] ==> Resolves(s, main, root, Replay(actions).tree)
    ensures Addressed(s, main) && main.Keys == MainKeys(s, actions)
  {
    var trie := new CheckpointTrie(s, map[], s.empty, Null);
    for i := 0 to |actions|
      invariant trie.Valid() && trie.s == s && Versions(trie.tree, trie.saved) == Replay(actions[..i])
      invariant trie.mainDb.Keys == MainKeys(s, actions[..i])
    {
      assert actions[..i + 1][..i] == actions[..i];
      var outcome := Perform(trie, actions[i]);
    }
    assert actions[..|actions|] == actions;
    CheckpointsAreAStackOfMaps(actions);
    value := trie.Get(key);
    root, main := trie.root, trie.mainDb;
  }

  method Perform(trie: CheckpointTrie, a: Action) returns (outcome: Outcome)
    requires trie.Valid()
    modifies trie
    ensures trie.Valid() && Versions(trie.tree, trie.saved) == Act(old(Versions(trie.tree, trie.saved)), a)
    ensures trie.mainDb.Keys == old(trie.mainDb).Keys +
                                if WritesMain(old(Versions(trie.tree, trie.saved)), a) then Reached(trie.s, trie.tree) else {}
  {
    match a
    case Change(Put(k, v)) => outcome := trie.Put(k, v);
    case Change(Del(k)) => outcome := trie.Del(k);
    case Checkpoint => outcome := Done; trie.Checkpoint();
    case Commit => outcome := trie.Commit();
    case Revert => outcome := Done; trie.Revert();
  }
}
