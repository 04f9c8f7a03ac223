/** Canonical form and history independence: the tree, and so the root, depends on the
    contents alone. */
module History {
  import opened Wrappers
  import opened Nibbles
  import opened Trie

  /** No branch holds fewer than two entries; extensions join a non-empty key to a branch. */
  ghost predicate Canonical(t: Tree): (canonical: bool)
    ensures canonical ==> WellFormed(t)
  {
    match t
    case Null => true
    case Leaf(_, _) => true
    case Ext(key, child) => key != [] && child.Branch? && Canonical(child)
    case Branch(slots, _) => |slots| == 16 && AtLeastTwo(t) && forall i | 0 <= i < 16 :: Canonical(slots[i])
  }

  /** Every key of the tree has length `n`. */
  ghost predicate Uniform(t: Tree, n: int) {
    match t
    case Null => true
    case Leaf(key, _) => |key| == n
    case Ext(key, child) => |key| <= n && Uniform(child, n - |key|)
    case Branch(slots, leftover) => n > 0 && leftover == None && forall i | 0 <= i < |slots| :: Uniform(slots[i], n - 1)
  }

  // ---------- put and del keep the canonical form ----------

  lemma {:induction false} InsertCanonical(t: Tree, k: Path, v: Value)
    requires Canonical(t)
    ensures Canonical(Insert(t, k, v))
  {
    InsertWellFormed(t, k, v);
    match t
    case Null =>
    case Leaf(key, _) => if key != k { ForkCanonical(t, k, v); }
    case Ext(key, child) =>
      if key <= k {
        InsertCanonical(child, k[|key|..], v);
        InsertWellFormed(child, k[|key|..], v);
      } else { ForkCanonical(t, k, v); }
    case Branch(slots, _) =>
      var r := Insert(t, k, v);
      if k != [] { InsertCanonical(slots[k[0]], k[1..], v); }
      var i, j :| i < j && Filled(t, i) && Filled(t, j);
      assert Filled(r, i) && Filled(r, j);
  }

  lemma ForkCanonical(t: Tree, k: Path, v: Value)
    requires Canonical(t) && (t.Leaf? || t.Ext?)
    requires if t.Leaf? then t.key != k else !(t.key <= k)
    ensures var n := MatchLen(t.key, k);
            (t.Ext? ==> n < |t.key|) && Canonical(Under(k[..n], AddTo(Divide(t, n), k[n..], v)))
  {
    var n := MatchLen(t.key, k);
    assert k[..|k|] == k && t.key[..|t.key|] == t.key;
    assert n == |t.key| ==> t.key <= k;
    var fork := Divide(t, n);
    assert forall i | 0 <= i < 16 :: Canonical(fork.slots[i]);
    var b := AddTo(fork, k[n..], v);
    assert forall i | 0 <= i < 16 :: Canonical(b.slots[i]);
    ForkIsFull(t, k, v, n);
  }

  lemma ForkIsFull(t: Tree, k: Path, v: Value, n: nat)
    requires t.Leaf? || t.Ext?
    requires n <= |t.key| && n <= |k| && (t.Ext? ==> n < |t.key|)
    requires n < |t.key| && n < |k| ==> t.key[n] != k[n]
    requires n < |t.key| || n < |k|
    requires WellFormed(t)
    ensures AtLeastTwo(AddTo(Divide(t, n), k[n..], v))
  {
    var b := AddTo(Divide(t, n), k[n..], v);
    var i: int := if n == |t.key| then 16 else t.key[n];
    var j: int := if n == |k| then 16 else k[n];
    assert Filled(b, i);
    assert Filled(b, j);
    if j < i { assert Filled(b, j) && Filled(b, i); }
  }

  lemma DivideUniform(t: Tree, m: nat, n: int)
    requires WellFormed(t) && Uniform(t, n) && (t.Leaf? || t.Ext?) && m < |t.key|
    ensures Uniform(Divide(t, m), n - m)
  {
    assert Uniform(Shorten(t, m + 1), n - m - 1);
  }

  lemma AddToUniform(b: Tree, k: Path, v: Value, n: int)
    requires b.Branch? && |b.slots| == 16 && Uniform(b, n) && |k| == n
    ensures Uniform(AddTo(b, k, v), n)
  {}

  lemma ForkUniform(t: Tree, k: Path, v: Value, n: int)
    requires WellFormed(t) && Uniform(t, n) && |k| == n && (t.Leaf? || t.Ext?)
    requires if t.Leaf? then t.key != k else !(t.key <= k)
    ensures var m := MatchLen(t.key, k);
            (t.Ext? ==> m < |t.key|) && Uniform(Under(k[..m], AddTo(Divide(t, m), k[m..], v)), n)
  {
    var m := MatchLen(t.key, k);
    assert k[..|k|] == k && t.key[..|t.key|] == t.key;
    DivideUniform(t, m, n);
    AddToUniform(Divide(t, m), k[m..], v, n - m);
  }

  lemma {:induction false} InsertUniform(t: Tree, k: Path, v: Value, n: int)
    requires WellFormed(t) && Uniform(t, n) && |k| == n
    ensures Uniform(Insert(t, k, v), n)
  {
    match t
    case Null =>
    case Leaf(key, _) => if key != k { ForkUniform(t, k, v, n); }
    case Ext(key, child) =>
      if key <= k { InsertUniform(child, k[|key|..], v, n - |key|); } else { ForkUniform(t, k, v, n); }
    case Branch(slots, _) => InsertUniform(slots[k[0]], k[1..], v, n - 1);
  }

  lemma PrependCanonical(prefix: Path, t: Tree, n: int)
    requires Canonical(t) && t != Null && prefix != [] && Uniform(t, n)
    ensures Canonical(Prepend(prefix, t)) && Uniform(Prepend(prefix, t), n + |prefix|)
  {}

  lemma CollapseCanonical(t: Tree, n: int)
    requires t.Branch? && |t.slots| == 16 && forall i | 0 <= i < 16 :: Canonical(t.slots[i])
    requires Uniform(t, n) && exists i :: Filled(t, i)
    ensures Collapse(t).Some? && Canonical(Collapse(t).value) && Uniform(Collapse(t).value, n)
  {
    if exists i :: Lone(t, i) {
      var i :| Lone(t, i);
      PrependCanonical([i], t.slots[i], n - 1);
    } else {
      var i :| Filled(t, i);
      assert !Lone(t, i);
      var j :| Filled(t, j) && j != i;
      assert AtLeastTwo(t) by { if j < i { assert Filled(t, j); } }
    }
  }

  lemma {:induction false} EraseCanonical(t: Tree, k: Path, n: int)
    requires Canonical(t) && Uniform(t, n) && |k| == n && Found(t, k)
    ensures Erase(t, k).Some? && Canonical(Erase(t, k).value) && Uniform(Erase(t, k).value, n)
  {
    match t
    case Leaf(_, _) =>
    case Ext(key, child) =>
      EraseCanonical(child, k[|key|..], n - |key|);
      PrependCanonical(key, Erase(child, k[|key|..]).value, n - |key|);
    case Branch(slots, _) =>
      EraseCanonical(slots[k[0]], k[1..], n - 1);
      var c := Erase(slots[k[0]], k[1..]).value;
      var b := t.(slots := slots[k[0] := c]);
      var i, j :| i < j && Filled(t, i) && Filled(t, j);
      if c == Null {
        assert Filled(b, if i == k[0] then j else i);
        CollapseCanonical(b, n);
      } else {
        assert Filled(b, i) && Filled(b, j);
      }
  }

  // ---------- a canonical tree is determined by its contents ----------

  lemma {:induction false} SomeKey(t: Tree) returns (k: Path)
    requires Canonical(t) && t != Null
    ensures Lookup(t, k).Some?
    decreases t, 1
  {
    match t
    case Leaf(key, _) => k := key;
    case Ext(key, child) =>
      var r := SomeKey(child);
      k := key + r;
      assert k[|key|..] == r;
    case Branch(slots, _) =>
      var other;
      k, other := TwoKeys(t);
  }

  /** A canonical branch holds two keys that part at once. */
  lemma {:induction false} TwoKeys(t: Tree) returns (a: Path, b: Path)
    requires Canonical(t) && t.Branch?
    ensures Lookup(t, a).Some? && Lookup(t, b).Some? && a != [] && (b != [] ==> a[0] != b[0])
    decreases t, 0
  {
    var i, j :| i < j && Filled(t, i) && Filled(t, j);
    var r := SomeKey(t.slots[i]);
    a := [i] + r;
    assert a[1..] == r;
    if j == 16 {
      b := [];
    } else {
      var r' := SomeKey(t.slots[j]);
      b := [j] + r';
      assert b[1..] == r';
    }
  }

  ghost predicate SameContents(t: Tree, u: Tree)
    requires WellFormed(t) && WellFormed(u)
  {
    forall k :: Lookup(t, k) == Lookup(u, k)
  }

  lemma LookupExt(t: Tree, k: Path)
    requires WellFormed(t) && t.Ext?
    ensures Lookup(t, t.key + k) == Lookup(t.child, k)
  {
    assert (t.key + k)[|t.key|..] == k;
  }

  lemma ExtKeysAgree(t: Tree, u: Tree)
    requires Canonical(t) && t.Ext? && Canonical(u) && u.Ext?
    requires SameContents(t, u) && |t.key| <= |u.key|
    ensures t.key == u.key
  {
    var a, b := TwoKeys(t.child);
    LookupExt(t, a);
    LookupExt(t, b);
    assert Lookup(u, t.key + a).Some? && Lookup(u, t.key + b).Some?;
    var n := |t.key|;
    SplitKey(u.key, t.key + a);
    SplitKey(u.key, t.key + b);
    if n < |u.key| {
      assert false;
    }
  }

  lemma PartedKeys(key: Path, a: Path, b: Path)
    requires key != [] && a != [] && (b != [] ==> a[0] != b[0])
    ensures !(key <= a && key <= b)
  {}

  lemma NotAnExtension(t: Tree, u: Tree)
    requires Canonical(t) && t.Branch? && Canonical(u)
    requires SameContents(t, u)
    ensures u.Branch?
  {
    var a, b := TwoKeys(t);
    assert Lookup(u, a).Some? && Lookup(u, b).Some?;
    if u.Ext? { PartedKeys(u.key, a, b); }
  }

  lemma NotALeaf(t: Tree, u: Tree)
    requires Canonical(t) && t.Ext? && Canonical(u)
    requires SameContents(t, u)
    ensures u.Ext?
  {
    var a, b := TwoKeys(t.child);
    LookupExt(t, a);
    LookupExt(t, b);
    assert Lookup(u, t.key + a).Some? && Lookup(u, t.key + b).Some?;
    assert t.key + a != t.key + b by { assert (t.key + a)[|t.key|..] == a && (t.key + b)[|t.key|..] == b; }
    if u.Branch? { NotAnExtension(u, t); }
  }

  /** Two canonical trees with the same contents are the same tree. */
  lemma {:induction false} ContentsDetermineTree(t: Tree, u: Tree)
    requires Canonical(t) && Canonical(u)
    requires SameContents(t, u)
    ensures t == u
  {
    match t
    case Null => if u != Null { var k := SomeKey(u); }
    case Leaf(key, value) =>
      assert Lookup(u, key) == Some(value);
      if u.Ext? { NotALeaf(u, t); }
      if u.Branch? { NotAnExtension(u, t); }
    case Ext(key, child) =>
      NotALeaf(t, u);
      if |t.key| <= |u.key| { ExtKeysAgree(t, u); } else { ExtKeysAgree(u, t); }
      forall k ensures Lookup(t.child, k) == Lookup(u.child, k) {
        LookupExt(t, k);
        LookupExt(u, k);
        assert Lookup(t, t.key + k) == Lookup(u, t.key + k);
      }
      ContentsDetermineTree(t.child, u.child);
    case Branch(slots, leftover) =>
      NotAnExtension(t, u);
      assert Lookup(t, []) == Lookup(u, []);
      forall i: int | 0 <= i < 16 ensures t.slots[i] == u.slots[i] {
        forall k ensures Lookup(t.slots[i], k) == Lookup(u.slots[i], k) {
          var q: Path := [i] + k;
          assert q[1..] == k;
          assert Lookup(t, q) == Lookup(u, q);
        }
        ContentsDetermineTree(t.slots[i], u.slots[i]);
      }
      assert t.slots == u.slots;
  }

  // ---------- whole histories ----------

  datatype Op = Put(key: Path, value: Value) | Del(key: Path)

  /** Histories the claims cover: puts with any keys, or puts and deletes on keys of one length. */
  ghost predicate Covered(ops: seq<Op>, n: nat) {
    forall i | 0 <= i < |ops| :: |ops[i].key| == n
  }

  ghost predicate OnlyPuts(ops: seq<Op>) {
    forall i | 0 <= i < |ops| :: ops[i].Put?
  }

  /** A deletion that fails leaves the tree as it was. */
  ghost function Apply(t: Tree, op: Op): Tree
    requires WellFormed(t)
  {
    match op
    case Put(k, v) => Insert(t, k, v)
    case Del(k) => if Delete(t, k).None? then t else Delete(t, k).value
  }

  lemma ApplyWellFormed(t: Tree, op: Op)
    requires WellFormed(t)
    ensures WellFormed(Apply(t, op))
  {
    match op
    case Put(k, v) => InsertWellFormed(t, k, v);
    case Del(k) => if Found(t, k) && Erase(t, k).Some? { LookupErase(t, k, k); }
  }

  ghost function ApplyAll(t: Tree, ops: seq<Op>): (r: Tree)
    requires WellFormed(t)
    ensures WellFormed(r)
  {
    if ops == [] then t
    else
      var r := ApplyAll(t, ops[..|ops| - 1]);
      ApplyWellFormed(r, ops[|ops| - 1]);
      Apply(r, ops[|ops| - 1])
  }

  /** A history from the empty trie. */
  ghost function Run(ops: seq<Op>): (t: Tree)
    ensures WellFormed(t)
  {
    ApplyAll(Null, ops)
  }

  function OnMap(m: map<Path, Value>, op: Op): map<Path, Value> {
    match op
    case Put(k, v) => m[k := v]
    case Del(k) => m - {k}
  }

  /** The same history on a plain map. */
  function RunMap(ops: seq<Op>): map<Path, Value> {
    if ops == [] then map[] else OnMap(RunMap(ops[..|ops| - 1]), ops[|ops| - 1])
  }

  function At(m: map<Path, Value>, k: Path): Option<Value> {
    if k in m then Some(m[k]) else None
  }

  /** Every lookup, of present and absent keys alike, answers as the map does. */
  ghost predicate Agrees(t: Tree, m: map<Path, Value>)
    requires WellFormed(t)
  {
    forall k :: Lookup(t, k) == At(m, k)
  }

  /** A deletion meets neither of the two places where the code goes wrong. */
  ghost predicate SafeAt(t: Tree, op: Op)
    requires WellFormed(t)
  {
    op.Del? ==> !Wipes(t, op.key) && !(Found(t, op.key) && Stuck(t, op.key))
  }

  ghost predicate Safe(ops: seq<Op>) {
    ops != [] ==> Safe(ops[..|ops| - 1]) && SafeAt(Run(ops[..|ops| - 1]), ops[|ops| - 1])
  }

  /** An operation keeps the agreement with a map exactly when it is safe. */
  lemma ApplyAgreesExactly(t: Tree, m: map<Path, Value>, op: Op)
    requires WellFormed(t) && Agrees(t, m)
    ensures WellFormed(Apply(t, op)) && (Agrees(Apply(t, op), OnMap(m, op)) <==> SafeAt(t, op))
  {
    ApplyWellFormed(t, op);
    match op
    case Put(k, v) =>
      forall q ensures Lookup(Apply(t, op), q) == At(OnMap(m, op), q) { LookupInsert(t, k, v, q); }
    case Del(k) =>
      DeleteIsExact(t, k);
      var r := Apply(t, op);
      if DeletesExactly(t, k) {
        assert forall q :: Lookup(r, q) == At(OnMap(m, op), q);
      } else if Delete(t, k).None? {
        EraseFailsWhenStuck(t, k);
        StuckIsPresent(t, k);
        assert Lookup(r, k) != At(OnMap(m, op), k);
      } else {
        var q :| Lookup(r, q) != if q == k then None else Lookup(t, q);
        assert Lookup(r, q) != At(OnMap(m, op), q);
      }
  }

  /** A history of safe operations is a map. */
  lemma {:induction false} RunIsAMap(ops: seq<Op>)
    requires Safe(ops)
    ensures Agrees(Run(ops), RunMap(ops))
  {
    if ops != [] {
      var prior := ops[..|ops| - 1];
      RunIsAMap(prior);
      ApplyAgreesExactly(Run(prior), RunMap(prior), ops[|ops| - 1]);
    }
  }

  ghost predicate IsAMap(ops: seq<Op>) { Agrees(Run(ops), RunMap(ops)) }

  lemma LastOpExactly(ops: seq<Op>)
    requires ops != [] && IsAMap(ops[..|ops| - 1])
    ensures IsAMap(ops) <==> SafeAt(Run(ops[..|ops| - 1]), ops[|ops| - 1])
  {
    var prior := ops[..|ops| - 1];
    ApplyAgreesExactly(Run(prior), RunMap(prior), ops[|ops| - 1]);
  }

  lemma {:induction false} AgreedIsSafe(ops: seq<Op>)
    requires forall i | 0 <= i <= |ops| :: IsAMap(ops[..i])
    ensures Safe(ops)
  {
    if ops != [] {
      var prior := ops[..|ops| - 1];
      forall i | 0 <= i <= |prior| ensures IsAMap(prior[..i]) { assert prior[..i] == ops[..i]; }
      AgreedIsSafe(prior);
      assert IsAMap(ops[..|ops| - 1]) && ops[..|ops|] == ops;
      LastOpExactly(ops);
    }
  }

  /** A history agrees with its map throughout if and only if each of its deletions is safe. */
  lemma AgreesThroughoutExactly(ops: seq<Op>)
    ensures (forall i | 0 <= i <= |ops| :: IsAMap(ops[..i])) <==> Safe(ops)
  {
    if Safe(ops) {
      forall i | 0 <= i <= |ops| ensures IsAMap(ops[..i]) {
        if i < |ops| { SafeSoFar(ops, i); } else { assert ops[..i] == ops; }
        RunIsAMap(ops[..i]);
      }
    } else if forall i | 0 <= i <= |ops| :: IsAMap(ops[..i]) {
      AgreedIsSafe(ops);
    }
  }

  lemma {:induction false} SafeSoFar(ops: seq<Op>, i: nat)
    requires Safe(ops) && i < |ops|
    ensures Safe(ops[..i]) && SafeAt(Run(ops[..i]), ops[i])
    decreases |ops|
  {
    if i < |ops| - 1 {
      assert ops[..|ops| - 1][..i] == ops[..i];
      SafeSoFar(ops[..|ops| - 1], i);
    }
  }

  /** Histories of puts, and histories on keys of one length, are safe and leave a canonical tree. */
  lemma {:induction false} RunIsCanonical(ops: seq<Op>, n: nat)
    requires OnlyPuts(ops) || Covered(ops, n)
    ensures Safe(ops) && Canonical(Run(ops)) && (Covered(ops, n) ==> Uniform(Run(ops), n))
  {
    if ops != [] {
      var prior, op := ops[..|ops| - 1], ops[|ops| - 1];
      RunIsCanonical(prior, n);
      ApplyCanonical(Run(prior), op, n, Covered(ops, n));
    }
  }

  lemma ApplyCanonical(t: Tree, op: Op, n: nat, covered: bool)
    requires Canonical(t) && (covered ==> Uniform(t, n) && |op.key| == n) && (covered || op.Put?)
    ensures SafeAt(t, op) && Canonical(Apply(t, op)) && (covered ==> Uniform(Apply(t, op), n))
  {
    match op
    case Put(k, v) =>
      InsertCanonical(t, k, v);
      if covered { InsertUniform(t, k, v, n); }
    case Del(k) => DeleteUniform(t, k, n);
  }

  /** On keys of one length deletion never fails, keeps the form, and removes just that key. */
  lemma DeleteUniform(t: Tree, k: Path, n: nat)
    requires Canonical(t) && Uniform(t, n) && |k| == n
    ensures DeletesExactly(t, k) && Canonical(Delete(t, k).value) && Uniform(Delete(t, k).value, n)
    ensures !Wipes(t, k) && !(Found(t, k) && Stuck(t, k))
  {
    if Found(t, k) {
      EraseCanonical(t, k, n);
      EraseFailsWhenStuck(t, k);
    }
    assert !Wipes(t, k);
    DeleteIsExact(t, k);
  }

  /** Two safe histories that leave canonical trees leave the same tree exactly when they leave the
      same map. */
  lemma CanonicalIsIndependent(ops: seq<Op>, ops': seq<Op>)
    requires Safe(ops) && Canonical(Run(ops)) && Safe(ops') && Canonical(Run(ops'))
    ensures Run(ops) == Run(ops') <==> RunMap(ops) == RunMap(ops')
  {
    RunIsAMap(ops);
    RunIsAMap(ops');
    if RunMap(ops) == RunMap(ops') { ContentsDetermineTree(Run(ops), Run(ops')); }
    if Run(ops) == Run(ops') { SameMap(Run(ops), RunMap(ops), RunMap(ops')); }
  }

  lemma SameMap(t: Tree, m: map<Path, Value>, m': map<Path, Value>)
    requires WellFormed(t) && Agrees(t, m) && Agrees(t, m')
    ensures m == m'
  {
    forall k ensures (k in m <==> k in m') && (k in m ==> m[k] == m'[k]) { assert At(m, k) == Lookup(t, k) == At(m', k); }
    assert m.Keys == m'.Keys;
  }

  /** In particular those of puts, and those on keys of one length. */
  lemma HistoryIndependence(ops: seq<Op>, ops': seq<Op>, n: nat, n': nat)
    requires OnlyPuts(ops) || Covered(ops, n)
    requires OnlyPuts(ops') || Covered(ops', n')
    ensures Run(ops) == Run(ops') <==> RunMap(ops) == RunMap(ops')
  {
    RunIsCanonical(ops, n);
    RunIsCanonical(ops', n');
    CanonicalIsIndependent(ops, ops');
  }

  // ---------- histories with checkpoints ----------

  datatype Action = Change(op: Op) | Checkpoint | Commit | Revert

  /** The current tree and the trees at the open checkpoints, oldest first. */
  datatype Versions = Versions(tree: Tree, saved: seq<Tree>)

  /** The same with maps. */
  datatype Maps = Maps(current: map<Path, Value>, saved: seq<map<Path, Value>>)

  ghost predicate VersionsOk(v: Versions) {
    WellFormed(v.tree) && forall i | 0 <= i < |v.saved| :: WellFormed(v.saved[i])
  }

  ghost function Act(v: Versions, a: Action): (r: Versions)
    requires VersionsOk(v)
    ensures VersionsOk(r)
  {
    var last := |v.saved| - 1;
    match a
    case Change(op) => ApplyWellFormed(v.tree, op); v.(tree := Apply(v.tree, op))
    case Checkpoint => v.(saved := v.saved + [v.tree])
    case Commit => if v.saved == [] then v else v.(saved := v.saved[..last])
    case Revert => if v.saved == [] then v else Versions(v.saved[last], v.saved[..last])
  }

  function ActMap(m: Maps, a: Action): Maps {
    var last := |m.saved| - 1;
    match a
    case Change(op) => m.(current := OnMap(m.current, op))
    case Checkpoint => m.(saved := m.saved + [m.current])
    case Commit => if m.saved == [] then m else m.(saved := m.saved[..last])
    case Revert => if m.saved == [] then m else Maps(m.saved[last], m.saved[..last])
  }

  ghost function Replay(actions: seq<Action>): (v: Versions)
    ensures VersionsOk(v)
  {
    if actions == [] then Versions(Null, []) else Act(Replay(actions[..|actions| - 1]), actions[|actions| - 1])
  }

  function ReplayMap(actions: seq<Action>): Maps {
    if actions == [] then Maps(map[], []) else ActMap(ReplayMap(actions[..|actions| - 1]), actions[|actions| - 1])
  }

  /** The current contents and those at every open checkpoint agree with the maps. */
  ghost predicate AllAgree(v: Versions, m: Maps)
    requires VersionsOk(v)
  {
    Agrees(v.tree, m.current) && |v.saved| == |m.saved| && forall i | 0 <= i < |v.saved| :: Agrees(v.saved[i], m.saved[i])
  }

  ghost predicate SafeAct(v: Versions, a: Action)
    requires VersionsOk(v)
  {
    a.Change? ==> SafeAt(v.tree, a.op)
  }

  ghost predicate SafeActions(actions: seq<Action>) {
    actions != [] ==> SafeActions(actions[..|actions| - 1]) && SafeAct(Replay(actions[..|actions| - 1]), actions[|actions| - 1])
  }

  lemma ActAgreesExactly(v: Versions, m: Maps, a: Action)
    requires VersionsOk(v) && AllAgree(v, m)
    ensures AllAgree(Act(v, a), ActMap(m, a)) <==> SafeAct(v, a)
  {
    if a.Change? { ApplyAgreesExactly(v.tree, m.current, a.op); }
  }

  /** Any mix of safe changes, nested checkpoints, commits and reverts behaves like a stack of maps. */
  lemma {:induction false} CheckpointsAreAStackOfMaps(actions: seq<Action>)
    requires SafeActions(actions)
    ensures AllAgree(Replay(actions), ReplayMap(actions))
  {
    if actions != [] {
      var prior := actions[..|actions| - 1];
      CheckpointsAreAStackOfMaps(prior);
      ActAgreesExactly(Replay(prior), ReplayMap(prior), actions[|actions| - 1]);
    }
  }

  ghost predicate IsAStackOfMaps(actions: seq<Action>) { AllAgree(Replay(actions), ReplayMap(actions)) }

  ghost predicate StackThroughout(actions: seq<Action>) { forall i | 0 <= i <= |actions| :: IsAStackOfMaps(actions[..i]) }

  lemma StackThroughoutLast(actions: seq<Action>)
    requires actions != []
    ensures StackThroughout(actions) <==> StackThroughout(actions[..|actions| - 1]) && IsAStackOfMaps(actions)
  {
    var prior := actions[..|actions| - 1];
    forall i | 0 <= i <= |prior| ensures prior[..i] == actions[..i] {}
    assert actions[..|actions|] == actions;
    if StackThroughout(actions) {
      forall i | 0 <= i <= |prior| ensures IsAStackOfMaps(prior[..i]) { assert IsAStackOfMaps(actions[..i]); }
    }
  }

  /** It does so throughout if and only if each of its deletions is safe. */
  lemma {:induction false} StackOfMapsExactly(actions: seq<Action>)
    ensures StackThroughout(actions) <==> SafeActions(actions)
  {
    if actions == [] {
      CheckpointsAreAStackOfMaps(actions);
      assert actions[..0] == actions;
    } else {
      var n, prior := |actions|, actions[..|actions| - 1];
      StackOfMapsExactly(prior);
      StackThroughoutLast(actions);
      assert prior[..n - 1] == prior;
      if IsAStackOfMaps(prior) { ActAgreesExactly(Replay(prior), ReplayMap(prior), actions[n - 1]); }
    }
  }

  ghost predicate CoveredActions(actions: seq<Action>, n: nat) {
    forall i | 0 <= i < |actions| :: actions[i].Change? ==> |actions[i].op.key| == n
  }

  ghost predicate PutActions(actions: seq<Action>) {
    forall i | 0 <= i < |actions| :: actions[i].Change? ==> actions[i].op.Put?
  }

  /** The current tree and those at the checkpoints are canonical, and of one key length if covered. */
  ghost predicate AllCanonical(v: Versions, n: nat, covered: bool) {
    && Canonical(v.tree) && (covered ==> Uniform(v.tree, n))
    && forall i | 0 <= i < |v.saved| :: Canonical(v.saved[i]) && (covered ==> Uniform(v.saved[i], n))
  }

  /** With puts only, or keys of one length, everything is safe, and every version is canonical, so
      that its root depends on its contents alone. */
  lemma {:induction false} CheckpointsKeepForm(actions: seq<Action>, n: nat)
    requires PutActions(actions) || CoveredActions(actions, n)
    ensures SafeActions(actions) && AllCanonical(Replay(actions), n, CoveredActions(actions, n))
  {
    if actions != [] {
      var prior, a := actions[..|actions| - 1], actions[|actions| - 1];
      CheckpointsKeepForm(prior, n);
      if a.Change? { ApplyCanonical(Replay(prior).tree, a.op, n, CoveredActions(actions, n)); }
    }
  }
}
