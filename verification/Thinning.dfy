/** When a deletion keeps the canonical form: the code clears the value of a branch without looking at
    what is left of it. */
module Thinning {
  import opened Wrappers
  import opened Nibbles
  import opened Trie
  import opened History

  /** Slot `i` is the only one in use, whatever the branch's own value. */
  predicate OnlySlot(t: Tree, i: int)
    requires t.Branch? && |t.slots| == 16
  {
    0 <= i < 16 && t.slots[i] != Null && forall j | 0 <= j < 16 && j != i :: t.slots[j] == Null
  }

  /** The key ends at a branch that has a value and one used slot besides. */
  ghost predicate Thins(t: Tree, k: Path)
    requires WellFormed(t)
  {
    match t
    case Null => false
    case Leaf(_, _) => false
    case Ext(key, child) => key <= k && Thins(child, k[|key|..])
    case Branch(slots, leftover) =>
      if k == [] then leftover.Some? && exists i :: OnlySlot(t, i) else Thins(slots[k[0]], k[1..])
  }

  lemma PrependCanonicalExactly(prefix: Path, t: Tree)
    requires WellFormed(t) && t != Null && prefix != []
    ensures Canonical(Prepend(prefix, t)) <==> Canonical(t)
  {}

  /** Clearing the value of a canonical branch leaves at least two entries, unless it had the value and
      one slot only. */
  lemma ClearedExactly(t: Tree)
    requires Canonical(t) && t.Branch?
    ensures Canonical(t.(leftover := None)) <==> !(t.leftover.Some? && exists i :: OnlySlot(t, i))
  {
    var b := t.(leftover := None);
    var i, j :| i < j && Filled(t, i) && Filled(t, j);
    if j == 16 && !OnlySlot(t, i) {
      var l :| 0 <= l < 16 && l != i && t.slots[l] != Null;
      assert Filled(b, i) && Filled(b, l);
      assert AtLeastTwo(b) by { if l < i { assert Filled(b, l) && Filled(b, i); } }
    }
    if j < 16 { assert Filled(b, i) && Filled(b, j); }
  }

  /** A branch that loses a leaf collapses if it has one entry left, and is canonical either way. */
  lemma CollapseIsCanonical(t: Tree, i: nat)
    requires Canonical(t) && t.Branch? && i < 16 && t.slots[i] != Null
    ensures var r := Collapse(t.(slots := t.slots[i := Null])); r.Some? ==> Canonical(r.value)
  {
    var b := t.(slots := t.slots[i := Null]);
    if exists l :: Lone(b, l) {
      var l :| Lone(b, l);
      if l < 16 { PrependCanonicalExactly([l], b.slots[l]); }
    } else {
      var x, y :| x < y && Filled(t, x) && Filled(t, y);
      var l := if x == i then y else x;
      assert Filled(b, l) && !Lone(b, l);
      var m :| Filled(b, m) && m != l;
      assert AtLeastTwo(b) by { if m < l { assert Filled(b, m) && Filled(b, l); } }
    }
  }

  lemma {:induction false} EraseCanonicalExactly(t: Tree, k: Path)
    requires Canonical(t) && Found(t, k) && Erase(t, k).Some?
    ensures Canonical(Erase(t, k).value) <==> !Thins(t, k)
  {
    match t
    case Leaf(_, _) =>
    case Ext(key, child) =>
      EraseCanonicalExactly(child, k[|key|..]);
      LookupErase(child, k[|key|..], []);
      PrependCanonicalExactly(key, Erase(child, k[|key|..]).value);
    case Branch(slots, _) =>
      if k == [] {
        ClearedExactly(t);
      } else {
        var c, rest := slots[k[0]], k[1..];
        EraseCanonicalExactly(c, rest);
        var r := Erase(c, rest).value;
        if r == Null {
          CollapseIsCanonical(t, k[0]);
        } else {
          ReplacedExactly(t, k[0], r);
        }
      }
  }

  lemma ReplacedExactly(t: Tree, i: nat, c: Tree)
    requires Canonical(t) && t.Branch? && i < 16 && t.slots[i] != Null && c != Null
    ensures Canonical(t.(slots := t.slots[i := c])) <==> Canonical(c)
  {
    var b := t.(slots := t.slots[i := c]);
    var x, y :| x < y && Filled(t, x) && Filled(t, y);
    assert Filled(b, x) && Filled(b, y);
    assert b.slots[i] == c;
  }

  /** A put, a deletion that fails and one of the whole root keep the form; any other deletion does so
      exactly when it leaves no branch with a single entry. */
  ghost predicate Thinning(t: Tree, op: Op)
    requires WellFormed(t)
  {
    op.Del? && op.key != [] && Thins(t, op.key)
  }

  lemma {:induction false} ThinnedIsFound(t: Tree, k: Path)
    requires WellFormed(t) && Thins(t, k)
    ensures Found(t, k) && Erase(t, k).Some? && !t.Leaf? && Erase(t, k).value != Null
  {
    match t
    case Ext(key, child) => ThinnedIsFound(child, k[|key|..]);
    case Branch(slots, _) => if k != [] { ThinnedIsFound(slots[k[0]], k[1..]); }
  }

  /** An operation keeps the canonical form exactly when it does not thin a branch. */
  lemma ApplyCanonicalExactly(t: Tree, op: Op)
    requires Canonical(t)
    ensures Canonical(Apply(t, op)) <==> !Thinning(t, op)
  {
    match op
    case Put(k, v) => InsertCanonical(t, k, v);
    case Del(k) =>
      if k != [] && Thins(t, k) { ThinnedIsFound(t, k); }
      if Found(t, k) && !t.Leaf? && k != [] && Erase(t, k).Some? { EraseCanonicalExactly(t, k); }
  }

  ghost predicate NeverThins(ops: seq<Op>) {
    ops != [] ==> NeverThins(ops[..|ops| - 1]) && !Thinning(Run(ops[..|ops| - 1]), ops[|ops| - 1])
  }

  ghost predicate LeavesCanonical(ops: seq<Op>) { Canonical(Run(ops)) }

  lemma LastKeepsFormExactly(ops: seq<Op>)
    requires ops != [] && LeavesCanonical(ops[..|ops| - 1])
    ensures LeavesCanonical(ops) <==> !Thinning(Run(ops[..|ops| - 1]), ops[|ops| - 1])
  {
    ApplyCanonicalExactly(Run(ops[..|ops| - 1]), ops[|ops| - 1]);
  }

  ghost predicate CanonicalThroughout(ops: seq<Op>) { forall i | 0 <= i <= |ops| :: LeavesCanonical(ops[..i]) }

  lemma ThroughoutFirst(ops: seq<Op>)
    requires ops != []
    ensures CanonicalThroughout(ops) <==> CanonicalThroughout(ops[..|ops| - 1]) && LeavesCanonical(ops)
  {
    var prior := ops[..|ops| - 1];
    forall i | 0 <= i <= |prior| ensures prior[..i] == ops[..i] {}
    assert ops[..|ops|] == ops;
    if CanonicalThroughout(ops) {
      forall i | 0 <= i <= |prior| ensures LeavesCanonical(prior[..i]) { assert LeavesCanonical(ops[..i]); }
    }
  }

  /** A history, of keys of any lengths, keeps the form throughout if and only if no deletion thins. */
  lemma {:induction false} CanonicalThroughoutExactly(ops: seq<Op>)
    ensures CanonicalThroughout(ops) <==> NeverThins(ops)
  {
    if ops != [] {
      var prior := ops[..|ops| - 1];
      CanonicalThroughoutExactly(prior);
      ThroughoutFirst(ops);
      assert prior[..|prior|] == prior;
      if LeavesCanonical(prior) { LastKeepsFormExactly(ops); }
    }
  }

  // ---------- what the form is good for ----------

  /** Some history of puts leaves any given map. */
  lemma {:induction false} PutsOf(m: map<Path, Value>) returns (ops: seq<Op>)
    ensures OnlyPuts(ops) && RunMap(ops) == m
    decreases |m|
  {
    ops := [];
    if m != map[] {
      var k :| k in m;
      var less := PutsOf(m - {k});
      ops := less + [Put(k, m[k])];
      assert ops[..|ops| - 1] == less;
      assert (m - {k})[k := m[k]] == m;
    }
  }

  /** The tree of a safe history is the one that any puts of the same map leave, so that its root
      depends on its contents alone, if and only if it is canonical. */
  lemma IndependentExactly(ops: seq<Op>)
    requires Safe(ops)
    ensures (forall puts :: OnlyPuts(puts) && RunMap(puts) == RunMap(ops) ==> Run(puts) == Run(ops)) <==> Canonical(Run(ops))
  {
    if Canonical(Run(ops)) {
      forall puts | OnlyPuts(puts) && RunMap(puts) == RunMap(ops) ensures Run(puts) == Run(ops) {
        RunIsCanonical(puts, 0);
        CanonicalIsIndependent(puts, ops);
      }
    } else {
      var puts := PutsOf(RunMap(ops));
      RunIsCanonical(puts, 0);
    }
  }

  lemma OneMoreOp(prior: seq<Op>, op: Op, ops: seq<Op>)
    requires ops == prior + [op]
    ensures Run(ops) == Apply(Run(prior), op) && RunMap(ops) == OnMap(RunMap(prior), op)
    ensures Safe(ops) <==> Safe(prior) && SafeAt(Run(prior), op)
  {
    assert ops[..|ops| - 1] == prior;
  }

  lemma ThreeOps(x: Op, y: Op, z: Op)
    ensures Run([x]) == Apply(Null, x) && RunMap([x]) == OnMap(map[], x) && (Safe([x]) <==> SafeAt(Null, x))
    ensures Run([x, y]) == Apply(Run([x]), y) && RunMap([x, y]) == OnMap(RunMap([x]), y)
    ensures Run([x, y, z]) == Apply(Run([x, y]), z) && RunMap([x, y, z]) == OnMap(RunMap([x, y]), z)
    ensures Safe([x, y, z]) <==> SafeAt(Null, x) && SafeAt(Run([x]), y) && SafeAt(Run([x, y]), z)
  {
    OneMoreOp([], x, [x]);
    OneMoreOp([x], y, [x, y]);
    OneMoreOp([x, y], z, [x, y, z]);
  }

  /** The deletion of a key at a branch with one slot in use, below an extension. */
  lemma ClearsOnly(a: Path, slots: seq<Tree>, v: Value)
    requires a != [] && |slots| == 16 && forall i | 0 <= i < 16 :: WellFormed(slots[i])
    ensures var t := Ext(a, Branch(slots, Some(v)));
            WellFormed(t) && SafeAt(t, Del(a)) && Apply(t, Del(a)) == Ext(a, Branch(slots, None))
  {
    var b := Branch(slots, Some(v));
    assert a[|a|..] == [] && Found(b, []) && !Stuck(b, []);
    assert Erase(b, []) == Some(Branch(slots, None));
  }

  /** A thinned tree: of a key and a longer one the shorter is deleted again. */
  lemma ThinnedDiffers(a: Path, i: Nibble, rest: Path, v: Value, w: Value)
    requires a != []
    ensures var long := a + ([i] + rest);
            var ops, puts := [Put(a, v), Put(long, w), Del(a)], [Put(long, w)];
            Safe(ops) && RunMap(ops) == RunMap(puts) && Run(ops) != Run(puts)
  {
    var long := a + ([i] + rest);
    ThreeOps(Put(a, v), Put(long, w), Del(a));
    OneMoreOp([], Put(long, w), [Put(long, w)]);
    TwoPuts(a, i, rest, v, w);
    ClearsOnly(a, NoSlots()[i := Leaf(rest, w)], v);
    assert |long| > |a|;
    assert map[a := v, long := w] - {a} == map[long := w];
  }

  lemma TwoPuts(a: Path, i: Nibble, rest: Path, v: Value, w: Value)
    requires a != []
    ensures Insert(Leaf(a, v), a + ([i] + rest), w) == Ext(a, Branch(NoSlots()[i := Leaf(rest, w)], Some(v)))
  {
    var more := [i] + rest;
    var long := a + more;
    assert |long| > |a|;
    var n := MatchLen(a, long);
    assert a == long[..|a|];
    assert long[..n] == a && long[n..] == more && more[1..] == rest;
  }
}
