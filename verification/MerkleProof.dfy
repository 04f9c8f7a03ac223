/** Merkle proofs: the list of nodes on the way to a key, and the check of such a list. */
module MerkleProof {
  import opened Wrappers
  import opened Nibbles
  import opened Trie
  import opened History
  import opened Store
  import opened MerkleTrie

  /** How a check ends: with a value or the absence of one, with something that is not a value
      but is returned as if it were, or with an error or exception. */
  datatype Verdict = Accepted(value: Option<Value>) | AcceptedNode(ref: Ref) | Rejected

  /** A node that holds a hash is too long to be kept inside its parent. */
  ghost predicate HashesAreLong(s: Scheme) {
    forall n: Node :: HoldsHash(n) ==> s.size(n) >= INLINE_LIMIT
  }

  predicate HoldsHash(n: Node) {
    match n
    case LeafNode(_, _) => false
    case ExtNode(_, child) => child.Hashed?
    case BranchNode(slots, _) => exists i | 0 <= i < |slots| :: slots[i].Hashed?
  }

  /** What indexing the slot of an inlined branch with [1] yields. */
  function SecondItem(ref: Ref): Verdict {
    match ref
    case Nil => Accepted(None)
    case Inline(LeafNode(_, value)) => Accepted(Some(value))
    case _ => AcceptedNode(ref)
  }

  function IfLast(proof: seq<Element>, v: Verdict): Verdict {
    if |proof| == 1 then v else Rejected
  }

  /** What the check does with a node: it ends, or goes on to the next node of the proof. */
  datatype Next = End(verdict: Verdict) | Onward(expected: Ref, key: Path)

  /** What the bytes of a value are taken for when the next node is compared with them. */
  function RefOfValue(s: Scheme, value: Value): Ref {
    match s.digestOf(value)
    case Some(d) => Hashed(d)
    case None => Nil
  }

  function CheckNode(s: Scheme, node: Node, key: Path): Next {
    match node
    case BranchNode(slots, leftover) =>
      if key == [] then End(Accepted(leftover))
      else if |slots| != 16 then End(Rejected)
      else
        var rest := key[1..];
        (match slots[key[0]]
         case Inline(LeafNode(k, value)) => End(if k == rest then Accepted(Some(value)) else Rejected)
         case Inline(ExtNode(k, child)) => End(if k == rest then AcceptedNode(child) else Rejected)
         case ref => Onward(ref, rest))
    case LeafNode(k, value) =>
      if !(k <= key) then End(Rejected)
      else
        var rest := key[|k|..];
        if rest == [] then End(if |value| == 17 then Rejected else Accepted(Some(value)))
        else if |value| == 17 && |rest| == 1 then End(Accepted(None))
        else Onward(RefOfValue(s, value), rest)
    case ExtNode(k, child) =>
      if !(k <= key) then End(Rejected)
      else
        var rest := key[|k|..];
        if child.Inline? && child.node.BranchNode? && |rest| <= 1 then
          End(if rest == [] || |child.node.slots| != 16 then Rejected else SecondItem(child.node.slots[rest[0]]))
        else if rest == [] then End(AcceptedNode(child))
        else Onward(child, rest)
  }

  // Bytes that are no node in the form the trie writes: other lists, or nothing that decodes at all.
  type Raw(==, !new)

  /** An element of a proof, which can be any bytes. */
  datatype Element = Plain(node: Node) | Foreign(raw: Raw)

  /** Hash of other bytes, and what the check does with them, whatever it is. */
  datatype Forms = Forms(hash: Raw -> Digest, check: (Raw, Path) -> Next)

  /** Other bytes have not the hash of a node; and those whose hash stands for the empty trie, which
      are the encoding of nothing, are refused. */
  ghost predicate Apart(s: Scheme, f: Forms) {
    && (forall r, n :: f.hash(r) != s.hash(n))
    && forall r, key | f.hash(r) == s.empty :: f.check(r, key) == End(Rejected)
  }

  function HashOf(s: Scheme, f: Forms, e: Element): Digest {
    match e
    case Plain(node) => s.hash(node)
    case Foreign(raw) => f.hash(raw)
  }

  function CheckElement(s: Scheme, f: Forms, e: Element, key: Path): Next {
    match e
    case Plain(node) => CheckNode(s, node, key)
    case Foreign(raw) => f.check(raw, key)
  }

  /** The check of a proof against what the next element is expected to be. */
  function Verify(s: Scheme, f: Forms, expected: Ref, key: Path, proof: seq<Element>): Verdict
    decreases |proof|
  {
    if proof == [] || expected != Hashed(HashOf(s, f, proof[0])) then Rejected
    else
      match CheckElement(s, f, proof[0], key)
      case End(v) => IfLast(proof, v)
      case Onward(next, rest) => Verify(s, f, next, rest, proof[1..])
  }

  /** The branches on the node. */
  method ReadNode(s: Scheme, node: Node, key: Path) returns (next: Next)
    ensures next == CheckNode(s, node, key)
  {
    match node {
      case BranchNode(slots, leftover) =>
        if key == [] { return End(Accepted(leftover)); }
        if |slots| != 16 { return End(Rejected); }
        var child, k := slots[key[0]], key[1..];
        match child {
          case Inline(LeafNode(childKey, value)) => return End(if childKey == k then Accepted(Some(value)) else Rejected);
          case Inline(ExtNode(childKey, below)) => return End(if childKey == k then AcceptedNode(below) else Rejected);
          case _ => return Onward(child, k);
        }
      case LeafNode(nodeKey, value) =>
        if !(nodeKey <= key) { return End(Rejected); }
        var k := key[|nodeKey|..];
        if k == [] { return End(if |value| == 17 then Rejected else Accepted(Some(value))); }
        if |value| == 17 && |k| == 1 { return End(Accepted(None)); }
        return Onward(RefOfValue(s, value), k);
      case ExtNode(nodeKey, child) =>
        if !(nodeKey <= key) { return End(Rejected); }
        var k := key[|nodeKey|..];
        if child.Inline? && child.node.BranchNode? && |k| <= 1 {
          if k == [] || |child.node.slots| != 16 { return End(Rejected); }
          return End(SecondItem(child.node.slots[k[0]]));
        }
        if k == [] { return End(AcceptedNode(child)); }
        return Onward(child, k);
    }
  }

  /** The loop of the check. */
  method VerifyProof(s: Scheme, f: Forms, rootHash: Digest, key: Path, proof: seq<Element>) returns (verdict: Verdict)
    ensures verdict == Verify(s, f, Hashed(rootHash), key, proof)
  {
    var expected, k := Hashed(rootHash), key;
    for i := 0 to |proof|
      invariant Verify(s, f, Hashed(rootHash), key, proof) == Verify(s, f, expected, k, proof[i..])
    {
      assert proof[i..][0] == proof[i] && proof[i..][1..] == proof[i + 1..];
      if expected != Hashed(HashOf(s, f, proof[i])) { return Rejected; }
      var next;
      match proof[i] {
        case Plain(node) => next := ReadNode(s, node, k);
        case Foreign(raw) => next := f.check(raw, k);
      }
      match next {
        case End(v) => return if i == |proof| - 1 then v else Rejected;
        case Onward(child, rest) => expected, k := child, rest;
      }
    }
    verdict := Rejected;
  }

  // ---------- soundness ----------

  lemma ChildRefs(s: Scheme, t: Tree)
    requires WellFormed(t) && t.Branch?
    ensures NodeOf(s, t).BranchNode? && |NodeOf(s, t).slots| == 16 && NodeOf(s, t).leftover == t.leftover
    ensures forall i | 0 <= i < 16 :: NodeOf(s, t).slots[i] == RefOf(s, t.slots[i])
  {}

  lemma InlineHoldsNoHash(s: Scheme, t: Tree, i: int)
    requires HashesAreLong(s) && WellFormed(t) && t.Branch? && 0 <= i < 16 && RefOf(s, t).Inline?
    ensures !RefOf(s, t.slots[i]).Hashed?
  {
    ChildRefs(s, t);
    if RefOf(s, t.slots[i]).Hashed? { assert HoldsHash(NodeOf(s, t)); }
  }

  /** The verdict says nothing false about a key: it rejects, or it gives what the trie gives. */
  predicate Truthful(v: Verdict, answer: Option<Value>) { v == Rejected || v == Accepted(answer) }

  function SlotOf(b: Tree, i: Nibble): Tree
    requires WellFormed(b) && b.Branch?
  {
    b.slots[i]
  }

  /** From the element with this hash, whatever it is, at most `n` more lead to an answer for the key
      other than absence. */
  ghost predicate Answers(s: Scheme, f: Forms, d: Digest, key: Path, n: nat)
    decreases n
  {
    exists e :: HashOf(s, f, e) == d &&
      match CheckElement(s, f, e, key)
      case End(v) => v != Rejected && v != Accepted(None)
      case Onward(next, rest) => next.Hashed? && n > 0 && Answers(s, f, next.digest, rest, n - 1)
  }

  /** The walk of the check for this key comes to an extension with the key used up, whose child
      reference it takes for a value; or to an inlined branch with one nibble left, where it takes the
      second item of the slot, of whatever kind, for the value; or to an inlined extension for the
      rest of the key; or to a leaf with some of the key left over, whose value is the hash of a node
      that leads to an answer for that rest. */
  ghost predicate Misleads(s: Scheme, f: Forms, t: Tree, key: Path)
    requires WellFormed(t)
  {
    match t
    case Null => false
    case Leaf(k, value) =>
      k < key &&
      s.digestOf(value).Some? && exists n :: Answers(s, f, s.digestOf(value).value, key[|k|..], n)
    case Ext(k, child) =>
      k <= key &&
      var rest := key[|k|..];
      if RefOf(s, child).Hashed? then rest == [] || Misleads(s, f, child, rest)
      else |rest| == 1 && OtherItem(SlotOf(child, rest[0]))
    case Branch(slots, _) =>
      key != [] &&
      var c, rest := slots[key[0]], key[1..];
      if RefOf(s, c).Hashed? then Misleads(s, f, c, rest) else c.Ext? && c.key == rest
  }

  /** What an inlined branch holds in a slot, when it is not a leaf that ends there. */
  predicate OtherItem(c: Tree) { c != Null && !(c.Leaf? && c.key == []) }

  /** A list of nodes that answers, where there are nodes that do. */
  lemma {:induction false} AnswerWithin(s: Scheme, f: Forms, d: Digest, key: Path, n: nat) returns (proof: seq<Element>)
    requires Answers(s, f, d, key, n)
    ensures !Truthful(Verify(s, f, Hashed(d), key, proof), None)
    decreases n
  {
    var e :| HashOf(s, f, e) == d &&
      match CheckElement(s, f, e, key)
      case End(v) => v != Rejected && v != Accepted(None)
      case Onward(next, rest) => next.Hashed? && n > 0 && Answers(s, f, next.digest, rest, n - 1);
    match CheckElement(s, f, e, key)
    case End(v) => proof := [e];
    case Onward(next, rest) =>
      var more := AnswerWithin(s, f, next.digest, rest, n - 1);
      proof := [e] + more;
      assert proof[1..] == more;
  }

  /** A list of nodes that answers shows that there are such nodes. */
  lemma {:induction false} AnsweredWithin(s: Scheme, f: Forms, d: Digest, key: Path, proof: seq<Element>)
    requires !Truthful(Verify(s, f, Hashed(d), key, proof), None)
    ensures Answers(s, f, d, key, |proof|)
    decreases |proof|
  {
    assert HashOf(s, f, proof[0]) == d;
    match CheckElement(s, f, proof[0], key)
    case End(_) =>
    case Onward(next, rest) => AnsweredWithin(s, f, next.digest, rest, proof[1..]);
  }

  /** The check at a branch, for a key that goes on. */
  lemma AtBranch(s: Scheme, f: Forms, t: Tree, expected: Ref, key: Path, proof: seq<Element>)
    requires WellFormed(t) && t.Branch? && key != []
    requires proof != [] && proof[0] == Plain(NodeOf(s, t)) && expected == Hashed(s.hash(NodeOf(s, t)))
    ensures var c, rest := t.slots[key[0]], key[1..];
            Verify(s, f, expected, key, proof) ==
            if RefOf(s, c).Hashed? then Verify(s, f, RefOf(s, c), rest, proof[1..])
            else if c.Leaf? && c.key == rest then IfLast(proof, Accepted(Some(c.value)))
            else if c.Ext? && c.key == rest then IfLast(proof, AcceptedNode(RefOf(s, c.child)))
            else Rejected
  {
    ChildRefs(s, t);
    var c, rest := t.slots[key[0]], key[1..];
    assert WellFormed(c);
    assert !RefOf(s, c).Hashed? ==> Verify(s, f, RefOf(s, c), rest, proof[1..]) == Rejected;
  }

  /** The check at a leaf that the key passes. */
  lemma AtLeaf(s: Scheme, f: Forms, t: Tree, expected: Ref, key: Path, proof: seq<Element>)
    requires t.Leaf? && t.key < key
    requires proof != [] && proof[0] == Plain(NodeOf(s, t)) && expected == Hashed(s.hash(NodeOf(s, t)))
    ensures var rest := key[|t.key|..];
            Verify(s, f, expected, key, proof) ==
            if |t.value| == 17 && |rest| == 1 then IfLast(proof, Accepted(None))
            else
              match s.digestOf(t.value)
              case Some(d) => Verify(s, f, Hashed(d), rest, proof[1..])
              case None => Rejected
  {
    assert t.key <= key && key[|t.key|..] != [];
  }

  /** The check at an extension that the key passes. */
  lemma AtExt(s: Scheme, f: Forms, t: Tree, expected: Ref, key: Path, proof: seq<Element>)
    requires HashesAreLong(s) && WellFormed(t) && t.Ext? && t.key <= key
    requires proof != [] && proof[0] == Plain(NodeOf(s, t)) && expected == Hashed(s.hash(NodeOf(s, t)))
    ensures var c, rest := t.child, key[|t.key|..];
            Verify(s, f, expected, key, proof) ==
            if RefOf(s, c).Hashed? then
              if rest == [] then IfLast(proof, AcceptedNode(RefOf(s, c))) else Verify(s, f, RefOf(s, c), rest, proof[1..])
            else if |rest| == 1 then IfLast(proof, SecondItem(RefOf(s, SlotOf(c, rest[0]))))
            else Rejected
  {
    var c, rest := t.child, key[|t.key|..];
    ChildRefs(s, c);
    assert !RefOf(s, c).Hashed? ==> Verify(s, f, RefOf(s, c), rest, proof[1..]) == Rejected;
  }

  /** The item that an inlined branch yields for a slot. */
  lemma SlotItem(s: Scheme, t: Tree, k: Path)
    requires HashesAreLong(s) && WellFormed(t) && t.Branch? && |k| == 1 && RefOf(s, t).Inline?
    ensures |NodeOf(s, t).slots| == 16 && NodeOf(s, t).slots[k[0]] == RefOf(s, t.slots[k[0]])
    ensures Truthful(SecondItem(RefOf(s, t.slots[k[0]])), Lookup(t, k)) <==> !OtherItem(t.slots[k[0]])
    ensures SecondItem(RefOf(s, t.slots[k[0]])) == Accepted(Lookup(t, k)) <==> !OtherItem(t.slots[k[0]])
  {
    ChildRefs(s, t);
    InlineHoldsNoHash(s, t, k[0]);
    assert k[1..] == [] && WellFormed(t.slots[k[0]]);
  }

  /** Where the walk does not mislead, no list of nodes, whoever made it, gives a false answer. */
  lemma {:induction false} VerifiedIsTrue(s: Scheme, f: Forms, t: Tree, expected: Ref, key: Path, proof: seq<Element>)
    requires Ideal(s) && Apart(s, f) && HashesAreLong(s) && WellFormed(t) && !Misleads(s, f, t, key)
    requires expected == RefOf(s, t) || expected == Hashed(RootOf(s, t))
    ensures Truthful(Verify(s, f, expected, key, proof), Lookup(t, key))
    decreases t
  {
    if t != Null && proof != [] && expected == Hashed(HashOf(s, f, proof[0])) {
      assert proof[0] == Plain(NodeOf(s, t));
      match t
      case Leaf(k, value) =>
        if k < key {
          var rest := key[|k|..];
          AtLeaf(s, f, t, expected, key, proof);
          if s.digestOf(value).Some? && !Truthful(Verify(s, f, Hashed(s.digestOf(value).value), rest, proof[1..]), None) {
            AnsweredWithin(s, f, s.digestOf(value).value, rest, proof[1..]);
          }
        }
      case Ext(k, child) =>
        if k <= key {
          var rest := key[|k|..];
          AtExt(s, f, t, expected, key, proof);
          if RefOf(s, child).Hashed? {
            VerifiedIsTrue(s, f, child, RefOf(s, child), rest, proof[1..]);
          } else if |rest| == 1 {
            SlotItem(s, child, rest);
          }
        }
      case Branch(slots, _) =>
        if key != [] {
          var c, rest := slots[key[0]], key[1..];
          AtBranch(s, f, t, expected, key, proof);
          if RefOf(s, c).Hashed? { VerifiedIsTrue(s, f, c, RefOf(s, c), rest, proof[1..]); }
        }
    }
  }

  /** Where it does, there is a list of nodes for which the answer is false. */
  lemma {:induction false} MisleadingProof(s: Scheme, f: Forms, t: Tree, key: Path) returns (proof: seq<Element>)
    requires Ideal(s) && DigestsHaveLength(s) && HashesAreLong(s) && WellFormed(t) && Misleads(s, f, t, key)
    ensures !Truthful(Verify(s, f, Hashed(RootOf(s, t)), key, proof), Lookup(t, key))
    decreases t
  {
    var more := [];
    match t
    case Leaf(k, value) =>
      var d, rest := s.digestOf(value).value, key[|k|..];
      var n :| Answers(s, f, d, rest, n);
      more := AnswerWithin(s, f, d, rest, n);
      proof := [Plain(NodeOf(s, t))] + more;
      AtLeaf(s, f, t, Hashed(RootOf(s, t)), key, proof);
      assert proof[1..] == more;
    case Ext(k, child) =>
      var rest := key[|k|..];
      if RefOf(s, child).Hashed? && rest != [] { more := MisleadingProof(s, f, child, rest); }
      proof := [Plain(NodeOf(s, t))] + more;
      AtExt(s, f, t, Hashed(RootOf(s, t)), key, proof);
      if RefOf(s, child).Inline? { SlotItem(s, child, rest); }
      assert proof[1..] == more;
    case Branch(slots, _) =>
      var c := slots[key[0]];
      if RefOf(s, c).Hashed? { more := MisleadingProof(s, f, c, key[1..]); }
      proof := [Plain(NodeOf(s, t))] + more;
      AtBranch(s, f, t, Hashed(RootOf(s, t)), key, proof);
      assert proof[1..] == more;
  }

  /** For every trie and every key: every accepted proof, whoever made it, gives the trie's answer if
      and only if the walk for the key does not mislead. */
  lemma ProofSoundnessExactly(s: Scheme, f: Forms, t: Tree, key: Path)
    requires Ideal(s) && Apart(s, f) && DigestsHaveLength(s) && HashesAreLong(s) && WellFormed(t)
    ensures (forall proof :: Truthful(Verify(s, f, Hashed(RootOf(s, t)), key, proof), Lookup(t, key))) <==> !Misleads(s, f, t, key)
  {
    if Misleads(s, f, t, key) {
      var proof := MisleadingProof(s, f, t, key);
    } else {
      forall proof ensures Truthful(Verify(s, f, Hashed(RootOf(s, t)), key, proof), Lookup(t, key)) {
        VerifiedIsTrue(s, f, t, Hashed(RootOf(s, t)), key, proof);
      }
    }
  }

  lemma ForgeryAnswers(s: Scheme, f: Forms, more: Path, forged: Value)
    requires |forged| != 17
    ensures var forgery := LeafNode(more, forged);
            && Answers(s, f, s.hash(forgery), more, 0)
            && Verify(s, f, Hashed(s.hash(forgery)), more, [Plain(forgery)]) == Accepted(Some(forged))
  {
    var e := Plain(LeafNode(more, forged));
    assert more[|more|..] == [] && CheckElement(s, f, e, more) == End(Accepted(Some(forged)));
    assert HashOf(s, f, e) == s.hash(LeafNode(more, forged)) && [e][0] == e;
  }

  /** A value that is the hash of a leaf makes the check answer longer keys from that leaf, which
      needs to be in no store: the sender of the proof has chosen both. */
  lemma ForgedAnswer(s: Scheme, f: Forms, t: Tree, more: Path, forged: Value)
    requires DigestsHaveLength(s) && t.Leaf? && more != [] && |forged| != 17
    requires s.digestOf(t.value) == Some(s.hash(LeafNode(more, forged)))
    ensures var key := t.key + more;
            && Misleads(s, f, t, key) && Lookup(t, key) == None
            && Verify(s, f, Hashed(RootOf(s, t)), key, [Plain(NodeOf(s, t)), Plain(LeafNode(more, forged))]) == Accepted(Some(forged))
  {
    var key, proof, forgery := t.key + more, [Plain(NodeOf(s, t)), Plain(LeafNode(more, forged))], LeafNode(more, forged);
    assert key[|t.key|..] == more && t.key < key && proof[1..] == [Plain(forgery)];
    AtLeaf(s, f, t, Hashed(RootOf(s, t)), key, proof);
    ForgeryAnswers(s, f, more, forged);
  }

  /** All that is assumed of hashes, sizes, digests and other bytes can hold together, and with a value
      that is the hash of any given node: for every hash that keeps nodes apart, and from the empty
      root, there are such a scheme and such a value. */
  lemma SchemesExist(hash: Node -> Digest, empty: Digest, forgery: Node) returns (s: Scheme, f: Forms, value: Value)
    requires (forall m, n :: hash(m) == hash(n) ==> m == n) && forall n :: hash(n) != empty
    ensures s.hash == hash && s.empty == empty
    ensures Ideal(s) && DigestsHaveLength(s) && HashesAreLong(s) && Apart(s, f)
    ensures s.digestOf(value) == Some(hash(forgery))
  {
    value := seq(DIGEST_LENGTH, _ => 0);
    var own := value;
    s := Scheme(hash, n => if HoldsHash(n) then INLINE_LIMIT else 0, empty, v => if v == own then Some(hash(forgery)) else None);
    f := Forms(_ => empty, (_, _) => End(Rejected));
  }

  /** So that a false answer is possible under all of it: for any two keys and any forged value. */
  lemma ForgeryExists(hash: Node -> Digest, empty: Digest, key: Path, more: Path, forged: Value)
    returns (s: Scheme, f: Forms, t: Tree, proof: seq<Element>)
    requires (forall m, n :: hash(m) == hash(n) ==> m == n) && (forall n :: hash(n) != empty) && more != [] && |forged| != 17
    ensures Ideal(s) && DigestsHaveLength(s) && HashesAreLong(s) && Apart(s, f) && s.hash == hash && WellFormed(t)
    ensures Lookup(t, key + more) == None && Verify(s, f, Hashed(RootOf(s, t)), key + more, proof) == Accepted(Some(forged))
  {
    var value;
    s, f, value := SchemesExist(hash, empty, LeafNode(more, forged));
    t := Leaf(key, value);
    proof := [Plain(NodeOf(s, t)), Plain(LeafNode(more, forged))];
    ForgedAnswer(s, f, t, more, forged);
  }

  lemma {:induction false} OneLengthNeverMisleads(s: Scheme, f: Forms, t: Tree, n: nat, key: Path)
    requires WellFormed(t) && Uniform(t, n) && |key| == n
    ensures !Misleads(s, f, t, key)
    decreases t
  {
    match t
    case Null =>
    case Leaf(_, _) =>
    case Ext(k, child) =>
      if k <= key {
        var rest := key[|k|..];
        assert child.Branch? && Uniform(child, n - |k|) && |rest| == n - |k|;
        if RefOf(s, child).Hashed? {
          OneLengthNeverMisleads(s, f, child, n - |k|, rest);
        } else if |rest| == 1 {
          assert Uniform(child.slots[rest[0]], 0) && WellFormed(child.slots[rest[0]]);
        }
      }
    case Branch(slots, _) =>
      var c := slots[key[0]];
      assert Uniform(c, n - 1) && WellFormed(c);
      if RefOf(s, c).Hashed? {
        OneLengthNeverMisleads(s, f, c, n - 1, key[1..]);
      } else if c.Ext? {
        assert Uniform(c.child, n - 1 - |c.key|);
      }
  }

  /** Soundness at the root, for keys of the trie's one length. */
  lemma ProofSoundness(s: Scheme, f: Forms, t: Tree, n: nat, key: Path, proof: seq<Element>)
    requires Ideal(s) && Apart(s, f) && DigestsHaveLength(s) && HashesAreLong(s) && WellFormed(t) && Uniform(t, n) && |key| == n
    ensures Truthful(Verify(s, f, Hashed(RootOf(s, t)), key, proof), Lookup(t, key))
  {
    OneLengthNeverMisleads(s, f, t, n, key);
    ProofSoundnessExactly(s, f, t, key);
  }

  /** The worst case: the check answers a key with the value of a longer one. */
  lemma AnotherKeysValue(s: Scheme, f: Forms, t: Tree, i: Nibble)
    requires Ideal(s) && HashesAreLong(s) && WellFormed(t) && t.Ext? && RefOf(s, t.child).Inline?
    requires SlotOf(t.child, i).Leaf? && SlotOf(t.child, i).key != []
    ensures var key := t.key + [i];
            && Verify(s, f, Hashed(RootOf(s, t)), key, [Plain(NodeOf(s, t))]) == Accepted(Lookup(t, key + SlotOf(t.child, i).key))
            && Lookup(t, key) == None && Lookup(t, key + SlotOf(t.child, i).key).Some?
  {
    var key, more := t.key + [i], SlotOf(t.child, i).key;
    ChildRefs(s, t.child);
    assert RefOf(s, SlotOf(t.child, i)) == Inline(LeafNode(more, SlotOf(t.child, i).value));
    assert NodeOf(s, t) == ExtNode(t.key, Inline(NodeOf(s, t.child)));
    InlineHoldsNoHash(s, t.child, i);
    assert key[|t.key|..] == [i] && key + more == t.key + ([i] + more) && ([i] + more)[1..] == more && [i][1..] == [];
    LookupExt(t, [i]);
    LookupExt(t, [i] + more);
    assert Lookup(t.child, [i]) == Lookup(SlotOf(t.child, i), []) == None;
    assert Lookup(t.child, [i] + more) == Lookup(SlotOf(t.child, i), more);
  }

  /** Of the lists that begin alike at most one is accepted: a proof that is longer or shorter than an
      accepted one is rejected. */
  lemma {:induction false} NothingToSpare(s: Scheme, f: Forms, expected: Ref, key: Path, proof: seq<Element>, more: seq<Element>)
    requires Verify(s, f, expected, key, proof) != Rejected && more != []
    ensures Verify(s, f, expected, key, proof + more) == Rejected
    decreases |proof|
  {
    assert (proof + more)[0] == proof[0] && (proof + more)[1..] == proof[1..] + more;
    match CheckElement(s, f, proof[0], key)
    case End(_) =>
    case Onward(next, rest) => NothingToSpare(s, f, next, rest, proof[1..], more);
  }

  // ---------- making proofs ----------

  function IfLong(s: Scheme, n: Node): seq<Node> { if s.size(n) >= INLINE_LIMIT then [n] else [] }

  function Long(s: Scheme, nodes: seq<Node>): seq<Node> {
    if nodes == [] then [] else IfLong(s, nodes[0]) + Long(s, nodes[1..])
  }

  /** The root node and every later node of the walk that is stored on its own. */
  ghost function ProofOf(s: Scheme, t: Tree, k: Path): seq<Node>
    requires WellFormed(t) && t != Null
  {
    [NodeOf(s, t)] + Long(s, PathNodes(s, t, k)[1..])
  }

  lemma LongFirst(s: Scheme, n: Node, rest: seq<Node>)
    ensures Long(s, [n] + rest) == IfLong(s, n) + Long(s, rest)
  {
    assert ([n] + rest)[1..] == rest;
  }

  lemma Joined<T>(a: seq<T>, b: seq<T>, c: seq<T>)
    ensures a + (b + c) == a + b + c && [] + a == a == a + []
  {}

  lemma {:induction false} LongSnoc(s: Scheme, nodes: seq<Node>, n: Node)
    ensures Long(s, nodes + [n]) == Long(s, nodes) + IfLong(s, n)
  {
    if nodes == [] {
      Joined([n], [], []);
      LongFirst(s, n, []);
      Joined(IfLong(s, n), [], []);
    } else {
      var first, rest := nodes[0], nodes[1..];
      LongSnoc(s, rest, n);
      LongFirst(s, first, rest + [n]);
      Joined([first], rest, [n]);
      Joined(IfLong(s, first), Long(s, rest), IfLong(s, n));
      assert nodes == [first] + rest;
    }
  }

  /** What of a key is left over where its walk stops. */
  ghost function LeftOver(t: Tree, k: Path): Path
    requires WellFormed(t)
  {
    if t == Null || Stops(t, k) then k else LeftOver(ChildOf(t, k), k[|Step(StepInto(t, k))|..])
  }

  lemma LeftOverBelow(f: Frame, t: Tree, k: Path)
    requires FrameOk(f) && WellFormed(Fill(f, t)) && WellFormed(t) && t != Null
    ensures LeftOver(Fill(f, t), Step(f) + k) == LeftOver(t, k)
  {
    assert (Step(f) + k)[|Step(f)|..] == k;
  }

  lemma {:induction false} LeftOverAtPath(ctx: seq<Frame>, t: Tree, k: Path)
    requires PathOk(ctx) && WellFormed(Plug(ctx, t)) && WellFormed(t) && t != Null
    ensures LeftOver(Plug(ctx, t), PathKey(ctx) + k) == LeftOver(t, k)
  {
    if ctx == [] {
      assert PathKey(ctx) + k == k;
    } else {
      var init, f := ctx[..|ctx| - 1], ctx[|ctx| - 1];
      PlugWellFormed(ctx, t);
      PathSplit(ctx, k);
      LeftOverAtPath(init, Fill(f, t), Step(f) + k);
      LeftOverBelow(f, t, k);
    }
  }

  /** A proof is given exactly when the walk finds a node for the key or uses the key up: for every
      present key, and for some absent ones. It fails on the empty trie. */
  method Prove(trie: CheckpointTrie, key: Path) returns (proof: Option<seq<Node>>)
    requires trie.Valid()
    ensures proof == if trie.tree != Null && (Found(trie.tree, key) || LeftOver(trie.tree, key) == [])
                     then Some(ProofOf(trie.s, trie.tree, key)) else None
    ensures trie.Read(key).Some? ==> proof.Some?
  {
    if trie.root == trie.s.empty { return None; }
    var found, remainder, stack, ctx, sub, rest := trie.FindPath(key);
    LookupAtPath(ctx, sub, rest);
    LeftOverAtPath(ctx, sub, rest);
    if Lookup(sub, rest).Some? { FoundWhenPresent(sub, rest); }
    if remainder != [] { return None; }
    var p := LongNodes(trie.s, stack);
    proof := Some(p);
  }

  /** Keeps the first node and every later one that is stored on its own. */
  method LongNodes(s: Scheme, stack: seq<Node>) returns (p: seq<Node>)
    requires stack != []
    ensures p == [stack[0]] + Long(s, stack[1..])
  {
    p := [stack[0]];
    for i := 1 to |stack|
      invariant p == [stack[0]] + Long(s, stack[1..i])
    {
      ghost var before, n := stack[1..i], stack[i];
      assert stack[1..i + 1] == before + [n];
      LongSnoc(s, before, n);
      Joined([stack[0]], Long(s, before), IfLong(s, n));
      Joined(p, [], []);
      if s.size(stack[i]) >= INLINE_LIMIT { p := p + [stack[i]]; }
    }
    assert stack[1..|stack|] == stack[1..];
  }

  // ---------- completeness ----------

  /** The walk for the key ends at a branch kept by hash with the key used up, not below an extension;
      or at a leaf kept by hash that ends there, whose value has not the 17 bytes that the check
      mistakes for a branch, or has them with one nibble too many in the key; or at an inlined leaf
      of a branch kept by hash that ends there; or one nibble into an inlined branch below an
      extension, in whose slot is nothing or a leaf that ends there. All before is kept by hash. */
  ghost predicate Checkable(s: Scheme, t: Tree, k: Path)
    requires WellFormed(t)
  {
    match t
    case Null => false
    case Leaf(key, value) => if |value| == 17 then key <= k && |k| == |key| + 1 else key == k
    case Ext(key, child) =>
      key <= k &&
      var rest := k[|key|..];
      if RefOf(s, child).Hashed? then rest != [] && Checkable(s, child, rest)
      else |rest| == 1 && !OtherItem(SlotOf(child, rest[0]))
    case Branch(slots, _) =>
      k == [] ||
      var c, rest := slots[k[0]], k[1..];
      if RefOf(s, c).Hashed? then Checkable(s, c, rest) else c.Leaf? && c.key == rest
  }

  function Own(nodes: seq<Node>): seq<Element> {
    seq(|nodes|, i requires 0 <= i < |nodes| => Plain(nodes[i]))
  }

  lemma OwnRest(nodes: seq<Node>)
    requires nodes != []
    ensures |Own(nodes)| == |nodes| && Own(nodes)[0] == Plain(nodes[0]) && Own(nodes)[1..] == Own(nodes[1..])
  {}

  lemma {:induction false} NothingLongInside(s: Scheme, t: Tree, k: Path)
    requires HashesAreLong(s) && WellFormed(t) && t != Null && RefOf(s, t).Inline?
    ensures Long(s, PathNodes(s, t, k)) == []
    decreases t
  {
    if !Stops(t, k) {
      if t.Branch? { InlineHoldsNoHash(s, t, k[0]); } else { assert !HoldsHash(NodeOf(s, t)); }
      NothingLongInside(s, ChildOf(t, k), k[|Step(StepInto(t, k))|..]);
      assert PathNodes(s, t, k)[1..] == PathNodes(s, ChildOf(t, k), k[|Step(StepInto(t, k))|..]);
    }
  }

  /** For every key, present or absent, the nodes that a proof for it consists of are answered with what
      the trie holds, exactly when the path is of the form the check can follow. */
  lemma {:induction false} ProofCompleteness(s: Scheme, f: Forms, t: Tree, key: Path)
    requires HashesAreLong(s) && WellFormed(t) && t != Null
    ensures Verify(s, f, Hashed(RootOf(s, t)), key, Own(ProofOf(s, t, key))) == Accepted(Lookup(t, key)) <==> Checkable(s, t, key)
    decreases t
  {
    match t
    case Leaf(_, _) => CompletenessAtLeaf(s, f, t, key);
    case Ext(k, child) =>
      CompletenessAtExt(s, f, t, key);
      if k <= key && RefOf(s, child).Hashed? { ProofCompleteness(s, f, child, key[|k|..]); }
    case Branch(slots, _) =>
      CompletenessAtBranch(s, f, t, key);
      if key != [] && RefOf(s, slots[key[0]]).Hashed? { ProofCompleteness(s, f, slots[key[0]], key[1..]); }
  }

  lemma CompletenessAtLeaf(s: Scheme, f: Forms, t: Tree, key: Path)
    requires t.Leaf?
    ensures Verify(s, f, Hashed(RootOf(s, t)), key, Own(ProofOf(s, t, key))) == Accepted(Lookup(t, key)) <==> Checkable(s, t, key)
  {
    assert ProofOf(s, t, key) == [NodeOf(s, t)];
    OwnRest([NodeOf(s, t)]);
    if t.key < key { AtLeaf(s, f, t, Hashed(RootOf(s, t)), key, Own([NodeOf(s, t)])); }
  }

  lemma CompletenessAtExt(s: Scheme, f: Forms, t: Tree, key: Path)
    requires HashesAreLong(s) && WellFormed(t) && t.Ext?
    ensures var v := Verify(s, f, Hashed(RootOf(s, t)), key, Own(ProofOf(s, t, key)));
            if t.key <= key then
              var c, rest := t.child, key[|t.key|..];
              if RefOf(s, c).Hashed? then
                if rest == [] then v != Accepted(Lookup(t, key))
                else v == Verify(s, f, Hashed(RootOf(s, c)), rest, Own(ProofOf(s, c, rest)))
              else v == Accepted(Lookup(t, key)) <==> |rest| == 1 && !OtherItem(SlotOf(c, rest[0]))
            else v == Rejected
  {
    var proof := ProofOf(s, t, key);
    OwnRest(proof);
    if t.key <= key {
      var c, rest := t.child, key[|t.key|..];
      assert PathNodes(s, t, key)[1..] == PathNodes(s, c, rest);
      AtExt(s, f, t, Hashed(RootOf(s, t)), key, Own(proof));
      if RefOf(s, c).Hashed? {
        assert proof[1..] == ProofOf(s, c, rest);
      } else {
        NothingLongInside(s, c, rest);
        assert proof == [NodeOf(s, t)];
        if |rest| == 1 { SlotItem(s, c, rest); }
      }
    }
  }

  lemma CompletenessAtBranch(s: Scheme, f: Forms, t: Tree, key: Path)
    requires HashesAreLong(s) && WellFormed(t) && t.Branch?
    ensures var v := Verify(s, f, Hashed(RootOf(s, t)), key, Own(ProofOf(s, t, key)));
            if key == [] then v == Accepted(Lookup(t, key))
            else
              var c, rest := t.slots[key[0]], key[1..];
              if RefOf(s, c).Hashed? then v == Verify(s, f, Hashed(RootOf(s, c)), rest, Own(ProofOf(s, c, rest)))
              else v == Accepted(Lookup(t, key)) <==> c.Leaf? && c.key == rest
  {
    var proof := ProofOf(s, t, key);
    ChildRefs(s, t);
    OwnRest(proof);
    if key == [] {
      assert proof == [NodeOf(s, t)];
    } else {
      AtBranch(s, f, t, Hashed(RootOf(s, t)), key, Own(proof));
      var c, rest := t.slots[key[0]], key[1..];
      if c == Null {
        assert proof == [NodeOf(s, t)];
      } else {
        assert PathNodes(s, t, key)[1..] == PathNodes(s, c, rest);
        if RefOf(s, c).Hashed? {
          assert proof[1..] == ProofOf(s, c, rest);
        } else {
          NothingLongInside(s, c, rest);
          assert proof == [NodeOf(s, t)];
        }
      }
    }
  }

  /** What a caller gets who has a proof made and checked: whenever there is a proof, the answer of `get`
      exactly when the path is of that form. */
  method ProveAndVerify(trie: CheckpointTrie, f: Forms, key: Path) returns (verdict: Option<Verdict>)
    requires trie.Valid() && HashesAreLong(trie.s)
    ensures verdict.Some? <==> trie.tree != Null && (Found(trie.tree, key) || LeftOver(trie.tree, key) == [])
    ensures verdict.Some? ==> (verdict.value == Accepted(trie.Read(key)) <==> Checkable(trie.s, trie.tree, key))
  {
    var proof := Prove(trie, key);
    if proof.None? { return None; }
    ProofCompleteness(trie.s, f, trie.tree, key);
    var v := VerifyProof(trie.s, f, trie.root, key, Own(proof.value));
    verdict := Some(v);
  }
}
