/** The radix-16 trie as an inductive tree: lookup, insertion and deletion the way
    baseTrie.js rewrites its nodes, and the map the tree stands for. */
module Trie {
  import opened Wrappers
  import opened Bytes
  import opened Nibbles

  // A stored value is never empty: putting an empty value deletes the key.
  type Value = v: Buffer | |v| > 0 witness [0]

  datatype Tree =
    | Null
    | Leaf(key: Path, value: Value)
    | Ext(key: Path, child: Tree)
    | Branch(slots: seq<Tree>, leftover: Option<Value>)

  /** What the code relies on: sixteen slots, and an extension leads to a branch. */
  predicate WellFormed(t: Tree) {
    match t
    case Null => true
    case Leaf(_, _) => true
    case Ext(key, child) => key != [] && child.Branch? && WellFormed(child)
    case Branch(slots, _) => |slots| == 16 && forall i | 0 <= i < 16 :: WellFormed(slots[i])
  }

  function Lookup(t: Tree, k: Path): Option<Value>
    requires WellFormed(t)
  {
    match t
    case Null => None
    case Leaf(key, value) => if key == k then Some(value) else None
    case Ext(key, child) => if key <= k then Lookup(child, k[|key|..]) else None
    case Branch(slots, leftover) => if k == [] then leftover else Lookup(slots[k[0]], k[1..])
  }

  // ---------- put ----------

  function NoSlots(): seq<Tree> { seq(16, _ => Null) }

  /** What remains of a leaf or extension when the first `n` nibbles of its key are taken off. */
  function Shorten(t: Tree, n: nat): Tree
    requires t.Leaf? || t.Ext?
    requires n <= |t.key|
  {
    if t.Leaf? then Leaf(t.key[n..], t.value)
    else if n == |t.key| then t.child
    else Ext(t.key[n..], t.child)
  }

  /** The branch that separates an old leaf or extension from everything else after `n` nibbles. */
  function Divide(t: Tree, n: nat): Tree
    requires t.Leaf? || t.Ext?
    requires n <= |t.key| && (t.Ext? ==> n < |t.key|)
  {
    if n == |t.key| then Branch(NoSlots(), Some(t.value))
    else Branch(NoSlots()[t.key[n] := Shorten(t, n + 1)], None)
  }

  function AddTo(branch: Tree, k: Path, v: Value): Tree
    requires branch.Branch? && |branch.slots| == 16
  {
    if k == [] then branch.(leftover := Some(v))
    else branch.(slots := branch.slots[k[0] := Leaf(k[1..], v)])
  }

  function Under(prefix: Path, t: Tree): Tree {
    if prefix == [] then t else Ext(prefix, t)
  }

  function Insert(t: Tree, k: Path, v: Value): (r: Tree)
    requires WellFormed(t)
    ensures r.Null? == false
    decreases t
  {
    match t
    case Null => Leaf(k, v)
    case Leaf(key, _) =>
      if key == k then Leaf(k, v)
      else
        var n := MatchLen(key, k);
        Under(k[..n], AddTo(Divide(t, n), k[n..], v))
    case Ext(key, child) =>
      if key <= k then Ext(key, Insert(child, k[|key|..], v))
      else
        var n := MatchLen(key, k);
        assert n == |key| ==> key <= k;
        Under(k[..n], AddTo(Divide(t, n), k[n..], v))
    case Branch(slots, _) =>
      if k == [] then t.(leftover := Some(v))
      else t.(slots := slots[k[0] := Insert(slots[k[0]], k[1..], v)])
  }

  // ---------- del ----------

  /** The walk ends at a node that the code takes for the key's own. */
  predicate Found(t: Tree, k: Path)
    requires WellFormed(t)
  {
    match t
    case Null => false
    case Leaf(key, _) => key == k
    case Ext(key, child) => key <= k && Found(child, k[|key|..])
    case Branch(slots, _) => k == [] || Found(slots[k[0]], k[1..])
  }

  /** Slot `i` of a branch is in use; slot 16 is the value. */
  predicate Filled(t: Tree, i: int)
    requires t.Branch? && |t.slots| == 16
  {
    if 0 <= i < 16 then t.slots[i] != Null else i == 16 && t.leftover.Some?
  }

  ghost predicate Lone(t: Tree, i: int)
    requires t.Branch? && |t.slots| == 16
  {
    Filled(t, i) && forall j :: Filled(t, j) ==> j == i
  }

  ghost predicate AtLeastTwo(t: Tree)
    requires t.Branch? && |t.slots| == 16
  {
    exists i, j :: i < j && Filled(t, i) && Filled(t, j)
  }

  /** A node moved up by `prefix`: keys are joined, a branch gets an extension above it. */
  function Prepend(prefix: Path, t: Tree): Tree {
    match t
    case Null => Null
    case Leaf(key, value) => Leaf(prefix + key, value)
    case Ext(key, child) => Ext(prefix + key, child)
    case Branch(_, _) => Ext(prefix, t)
  }

  /** A branch left with one used slot is replaced by that slot's node. When the one slot is
      the value, the code looks the value up as if it were a child and fails. */
  ghost function Collapse(t: Tree): Option<Tree>
    requires t.Branch? && |t.slots| == 16
  {
    if exists i :: Lone(t, i) then
      var i :| Lone(t, i);
      if i == 16 then None else Some(Prepend([i], t.slots[i]))
    else Some(t)
  }

  /** Deletion below the root, for a key the walk has found; None stands for the failed lookup. */
  ghost function Erase(t: Tree, k: Path): (r: Option<Tree>)
    requires WellFormed(t) && Found(t, k)
    ensures r.Some? ==> (r.value == Null <==> t.Leaf?)
  {
    match t
    case Leaf(_, _) => Some(Null)
    case Ext(key, child) =>
      var r := Erase(child, k[|key|..]);
      if r.None? then None else Some(Prepend(key, r.value))
    case Branch(slots, _) =>
      if k == [] then Some(t.(leftover := None))
      else
        var r := Erase(slots[k[0]], k[1..]);
        if r.None? then None
        else if r.value == Null then Collapse(t.(slots := slots[k[0] := Null]))
        else Some(t.(slots := slots[k[0] := r.value]))
  }

  /** Deletion: a key found at the root node itself empties the whole tree. */
  ghost function Delete(t: Tree, k: Path): Option<Tree>
    requires WellFormed(t)
  {
    if !Found(t, k) then Some(t)
    else if t.Leaf? || k == [] then Some(Null)
    else Erase(t, k)
  }

  // ---------- what put does ----------

  lemma SplitKey(key: Path, k: Path)
    ensures key <= k <==> |key| <= |k| && key == k[..|key|]
    ensures key <= k ==> k == key + k[|key|..]
  {}

  lemma {:induction false} InsertWellFormed(t: Tree, k: Path, v: Value)
    requires WellFormed(t)
    ensures WellFormed(Insert(t, k, v))
    ensures t.Branch? ==> Insert(t, k, v).Branch?
  {
    match t
    case Null =>
    case Leaf(_, _) =>
    case Ext(key, child) => if key <= k { InsertWellFormed(child, k[|key|..], v); }
    case Branch(slots, _) => if k != [] { InsertWellFormed(slots[k[0]], k[1..], v); }
  }

  /** Looking a key up after a put: the new value for that key, the old answer for any other. */
  lemma {:induction false} LookupInsert(t: Tree, k: Path, v: Value, q: Path)
    requires WellFormed(t)
    ensures WellFormed(Insert(t, k, v))
    ensures Lookup(Insert(t, k, v), q) == if q == k then Some(v) else Lookup(t, q)
  {
    InsertWellFormed(t, k, v);
    match t
    case Null =>
    case Leaf(key, _) =>
      if key != k { LookupFork(t, k, v, q); }
    case Ext(key, child) =>
      if key <= k {
        SplitKey(key, k);
        SplitKey(key, q);
        if key <= q { LookupInsert(child, k[|key|..], v, q[|key|..]); }
      } else { LookupFork(t, k, v, q); }
    case Branch(slots, _) =>
      if k != [] && q != [] {
        SplitKey(k[..1], k);
        SplitKey(q[..1], q);
        if q[0] == k[0] { LookupInsert(slots[k[0]], k[1..], v, q[1..]); }
      }
  }

  lemma LookupUnder(prefix: Path, t: Tree, q: Path)
    requires WellFormed(t) && t.Branch?
    ensures WellFormed(Under(prefix, t))
    ensures Lookup(Under(prefix, t), q) == if prefix <= q then Lookup(t, q[|prefix|..]) else None
  {}

  /** Dividing a node after `n` nibbles keeps every key that starts with those nibbles. */
  lemma LookupDivide(t: Tree, n: nat, r: Path)
    requires WellFormed(t) && (t.Leaf? || t.Ext?) && n <= |t.key| && (t.Ext? ==> n < |t.key|)
    ensures WellFormed(Divide(t, n))
    ensures Lookup(Divide(t, n), r) == Lookup(t, t.key[..n] + r)
  {
    var q := t.key[..n] + r;
    assert q[n..] == r;
    assert t.key == q <==> t.key[n..] == r by { assert t.key == t.key[..n] + t.key[n..]; }
    if n < |t.key| && r != [] {
      var rest := t.key[n + 1..];
      assert t.key[n..] == [t.key[n]] + rest && r == [r[0]] + r[1..];
      assert t.key <= q <==> t.key[n] == r[0] && rest <= r[1..] by { SplitKey(t.key, q); SplitKey(rest, r[1..]); }
      assert rest <= r[1..] ==> r[1..][|rest|..] == q[|t.key|..];
    }
  }

  lemma LookupAddTo(b: Tree, k: Path, v: Value, q: Path)
    requires WellFormed(b) && b.Branch? && (k != [] ==> b.slots[k[0]] == Null)
    ensures WellFormed(AddTo(b, k, v))
    ensures Lookup(AddTo(b, k, v), q) == if q == k then Some(v) else Lookup(b, q)
  {
    if k != [] && q != [] {
      assert k == [k[0]] + k[1..] && q == [q[0]] + q[1..];
    }
  }

  /** A leaf or extension that does not lead to `k`, pushed under a new branch with `k` beside it. */
  lemma LookupFork(t: Tree, k: Path, v: Value, q: Path)
    requires WellFormed(t) && (t.Leaf? || t.Ext?)
    requires if t.Leaf? then t.key != k else !(t.key <= k)
    ensures var n := MatchLen(t.key, k);
            (t.Ext? ==> n < |t.key|) && WellFormed(Under(k[..n], AddTo(Divide(t, n), k[n..], v)))
            && Lookup(Under(k[..n], AddTo(Divide(t, n), k[n..], v)), q) == if q == k then Some(v) else Lookup(t, q)
  {
    var n := MatchLen(t.key, k);
    SplitKey(k[..n], q);
    SplitKey(k[..n], k);
    assert n == |t.key| ==> t.key <= k;
    var fork := Divide(t, n);
    LookupDivide(t, n, k[n..]);
    var grown := AddTo(fork, k[n..], v);
    LookupAddTo(fork, k[n..], v, k[n..]);
    LookupUnder(k[..n], grown, q);
    if k[..n] <= q {
      LookupDivide(t, n, q[n..]);
      LookupAddTo(fork, k[n..], v, q[n..]);
    } else {
      assert Lookup(t, q) == None by { SplitKey(t.key, q); }
    }
  }

  // ---------- what del does ----------

  lemma {:induction false} FoundWhenPresent(t: Tree, k: Path)
    requires WellFormed(t) && Lookup(t, k).Some?
    ensures Found(t, k)
  {
    match t
    case Null =>
    case Leaf(_, _) =>
    case Ext(key, child) => FoundWhenPresent(child, k[|key|..]);
    case Branch(slots, _) => if k != [] { FoundWhenPresent(slots[k[0]], k[1..]); }
  }

  lemma LookupPrepend(prefix: Path, t: Tree, q: Path)
    requires WellFormed(t) && t != Null && prefix != []
    ensures WellFormed(Prepend(prefix, t)) && Prepend(prefix, t) != Null
    ensures Lookup(Prepend(prefix, t), q) == if prefix <= q then Lookup(t, q[|prefix|..]) else None
  {
    SplitKey(prefix, q);
    if t.Leaf? || t.Ext? {
      var key := prefix + t.key;
      SplitKey(key, q);
      if prefix <= q {
        var r := q[|prefix|..];
        SplitKey(t.key, r);
        assert q == key <==> r == t.key;
        assert key <= q <==> t.key <= r;
        assert key <= q ==> q[|key|..] == r[|t.key|..];
      } else {
        assert key <= q ==> prefix <= q;
      }
    }
  }

  lemma LookupCollapse(t: Tree, q: Path)
    requires WellFormed(t) && t.Branch? && Collapse(t).Some?
    ensures WellFormed(Collapse(t).value) && Collapse(t).value != Null
    ensures Lookup(Collapse(t).value, q) == Lookup(t, q)
  {
    if exists i :: Lone(t, i) {
      var i :| Lone(t, i);
      LookupPrepend([i], t.slots[i], q);
      if q != [] {
        SplitKey([i], q);
        assert q == [q[0]] + q[1..];
        if q[0] != i { assert !Filled(t, q[0]); }
      } else { assert !Filled(t, 16); }
    }
  }

  lemma {:induction false} LookupErase(t: Tree, k: Path, q: Path)
    requires WellFormed(t) && Found(t, k) && Erase(t, k).Some?
    ensures WellFormed(Erase(t, k).value)
    ensures Lookup(Erase(t, k).value, q) == if q == k then None else Lookup(t, q)
  {
    match t
    case Leaf(_, _) =>
    case Ext(key, child) =>
      SplitKey(key, k);
      SplitKey(key, q);
      var rest := if key <= q then q[|key|..] else [];
      LookupErase(child, k[|key|..], rest);
      LookupPrepend(key, Erase(child, k[|key|..]).value, q);
    case Branch(slots, _) =>
      if k != [] {
        var rest := if q != [] then q[1..] else [];
        LookupErase(slots[k[0]], k[1..], rest);
        var c := Erase(slots[k[0]], k[1..]).value;
        var b := t.(slots := slots[k[0] := c]);
        if c == Null { LookupCollapse(b, q); }
        assert k == [k[0]] + k[1..];
        if q != [] { assert q == [q[0]] + q[1..]; }
      }
  }

  /** The key's leaf hangs in a branch whose only other entry is the branch's own value. */
  predicate Stuck(t: Tree, k: Path)
    requires WellFormed(t) && Found(t, k)
  {
    match t
    case Leaf(_, _) => false
    case Ext(key, child) => Stuck(child, k[|key|..])
    case Branch(slots, leftover) =>
      k != [] &&
      if slots[k[0]].Leaf? then leftover.Some? && forall j | 0 <= j < 16 && j != k[0] :: slots[j] == Null
      else Stuck(slots[k[0]], k[1..])
  }

  lemma {:induction false} EraseFailsWhenStuck(t: Tree, k: Path)
    requires WellFormed(t) && Found(t, k)
    ensures Erase(t, k).None? <==> Stuck(t, k)
  {
    match t
    case Leaf(_, _) =>
    case Ext(key, child) => EraseFailsWhenStuck(child, k[|key|..]);
    case Branch(slots, leftover) =>
      if k != [] {
        EraseFailsWhenStuck(slots[k[0]], k[1..]);
        if slots[k[0]].Leaf? {
          var b := t.(slots := slots[k[0] := Null]);
          if Stuck(t, k) {
            assert Lone(b, 16);
          } else if Lone(b, 16) {
            forall j | 0 <= j < 16 && j != k[0] ensures slots[j] == Null { assert !Filled(b, j); }
          }
        }
      }
  }

  lemma {:induction false} StuckIsPresent(t: Tree, k: Path)
    requires WellFormed(t) && Found(t, k) && Stuck(t, k)
    ensures Lookup(t, k).Some?
  {
    match t
    case Leaf(_, _) =>
    case Ext(key, child) => StuckIsPresent(child, k[|key|..]);
    case Branch(slots, _) => if !slots[k[0]].Leaf? { StuckIsPresent(slots[k[0]], k[1..]); }
  }

  /** Delete answers like a map without `k`, and nothing else changed. */
  ghost predicate DeletesExactly(t: Tree, k: Path)
    requires WellFormed(t)
  {
    Delete(t, k).Some? && WellFormed(Delete(t, k).value) &&
    forall q :: Lookup(Delete(t, k).value, q) == if q == k then None else Lookup(t, q)
  }

  /** Deleting the empty key at a root branch discards every other key. */
  ghost predicate Wipes(t: Tree, k: Path)
    requires WellFormed(t)
  {
    t.Branch? && k == [] && exists q :: q != [] && Lookup(t, q).Some?
  }

  /** Deletion is right for exactly the keys that neither wipe the root nor are stuck. */
  lemma DeleteIsExact(t: Tree, k: Path)
    requires WellFormed(t)
    ensures DeletesExactly(t, k) <==> !Wipes(t, k) && !(Found(t, k) && Stuck(t, k))
  {
    if !Found(t, k) {
      assert Lookup(t, k) == None by { if Lookup(t, k).Some? { FoundWhenPresent(t, k); } }
    } else if t.Leaf? || k == [] {
      assert t.Leaf? || t.Branch?;
      if t.Leaf? {
        assert DeletesExactly(t, k);
      } else if Wipes(t, k) {
        var q :| q != [] && Lookup(t, q).Some?;
        assert Lookup(Null, q) == None;
      } else {
        assert forall q: Path | q != [] :: Lookup(t, q) == None;
      }
    } else {
      EraseFailsWhenStuck(t, k);
      if Erase(t, k).Some? {
        forall q ensures Lookup(Delete(t, k).value, q) == if q == k then None else Lookup(t, q) {
          LookupErase(t, k, q);
        }
        LookupErase(t, k, k);
      }
    }
  }

  /** With keys of different lengths deletion can empty the trie, and it can fail. */
  lemma DeletionOfMixedLengths(v: Value, w: Value)
    ensures var t := Insert(Insert(Null, [], v), [1, 2], w);
            WellFormed(t) && Lookup(t, [1, 2]) == Some(w) && Delete(t, []) == Some(Null)
    ensures var t := Insert(Insert(Null, [1, 2], v), [1, 2, 3, 4], w);
            WellFormed(t) && Lookup(t, [1, 2, 3, 4]) == Some(w) && Delete(t, [1, 2, 3, 4]) == None
  {
    var t := Insert(Leaf([], v), [1, 2], w);
    LookupInsert(Leaf([], v), [1, 2], w, [1, 2]);
    assert t == AddTo(Divide(Leaf([], v), 0), [1, 2], w);
    var long: Path := [1, 2, 3, 4];
    var u := Insert(Leaf([1, 2], v), long, w);
    LookupInsert(Leaf([1, 2], v), long, w, long);
    FoundWhenPresent(u, long);
    LongIsStuck(v, w);
    EraseFailsWhenStuck(u, long);
  }

  lemma LongIsStuck(v: Value, w: Value)
    ensures var u := Insert(Leaf([1, 2], v), [1, 2, 3, 4], w);
            WellFormed(u) && Found(u, [1, 2, 3, 4]) && u.Ext? && Stuck(u, [1, 2, 3, 4])
  {
    var short: Path, long: Path := [1, 2], [1, 2, 3, 4];
    assert short <= long && long[1..][1..] == [3, 4] && short[1..][1..] == [];
    assert MatchLen(short[1..], long[1..]) == 1;
    assert MatchLen(short, long) == 2;
    assert long[..2] == [1, 2] && long[2..] == [3, 4] && [3, 4][1..] == [4];
  }
}
