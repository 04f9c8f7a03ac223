/** Nibble paths, hex-prefix encoding (Appendix C of the Ethereum Yellow Paper) and the
    key accessors of a key/value trie node. */
module Nibbles {
  import opened Bytes

  type Nibble = n: int | 0 <= n < 16
  type Path = seq<Nibble>

  // ---------- what the loops compute ----------

  /** The two nibbles of every byte, high nibble first. */
  function Spread(bytes: Buffer): (path: Path)
    ensures |path| == 2 * |bytes|
  {
    if bytes == [] then [] else [bytes[0] / 16, bytes[0] % 16] + Spread(bytes[1..])
  }

  function Join(high: Nibble, low: Nibble): Byte {
    var h: int, l: int := high, low;
    16 * h + l
  }

  /** Pairs of nibbles packed into bytes; a trailing odd nibble is dropped. */
  function Pack(path: Path): (bytes: Buffer)
    ensures |bytes| == |path| / 2
  {
    if |path| < 2 then [] else [Join(path[0], path[1])] + Pack(path[2..])
  }

  /** Length of the longest common prefix. */
  function MatchLen(a: Path, b: Path): (n: nat)
    ensures n <= |a| && n <= |b| && a[..n] == b[..n]
    ensures n < |a| && n < |b| ==> a[n] != b[n]
  {
    if a == [] || b == [] || a[0] != b[0] then 0
    else
      var n := MatchLen(a[1..], b[1..]);
      assert a[..n + 1] == [a[0]] + a[1..][..n] && b[..n + 1] == [b[0]] + b[1..][..n];
      n + 1
  }

  // ---------- the loops ----------

  method BufferToNibbles(key: Buffer) returns (nibbles: Path)
    ensures nibbles == Spread(key)
  {
    nibbles := [];
    for i := 0 to |key|
      invariant nibbles + Spread(key[i..]) == Spread(key)
    {
      var pair: Path := [key[i] / 16, key[i] % 16];
      assert key[i..][1..] == key[i + 1..];
      assert Spread(key[i..]) == pair + Spread(key[i + 1..]);
      assert nibbles + (pair + Spread(key[i + 1..])) == (nibbles + pair) + Spread(key[i + 1..]);
      nibbles := nibbles + pair;
    }
  }

  method NibblesToBuffer(key: Path) returns (buf: Buffer)
    ensures buf == Pack(key)
  {
    buf := [];
    for i := 0 to |key| / 2
      invariant buf + Pack(key[2 * i..]) == Pack(key)
    {
      var q := 2 * i;
      buf := buf + [Join(key[q], key[q + 1])];
      assert key[q..][2..] == key[q + 2..];
    }
  }

  method MatchingNibbleLength(a: Path, b: Path) returns (i: nat)
    ensures i == MatchLen(a, b)
  {
    i := 0;
    while i < |a| && i < |b| && a[i] == b[i]
      invariant i <= |a| && i <= |b|
      invariant MatchLen(a, b) == i + MatchLen(a[i..], b[i..])
    {
      assert a[i..][1..] == a[i + 1..] && b[i..][1..] == b[i + 1..];
      i := i + 1;
    }
  }

  method DoKeysMatch(a: Path, b: Path) returns (same: bool)
    ensures same <==> a == b
  {
    var length := MatchingNibbleLength(a, b);
    same := length == |a| && length == |b|;
    assert a[..|a|] == a && b[..|b|] == b;
  }

  // ---------- hex prefix ----------

  function AddHexPrefix(key: Path, terminator: bool): Path {
    var flag := if terminator then 2 else 0;
    if |key| % 2 == 1 then [1 + flag] + key else [flag, 0] + key
  }

  function RemoveHexPrefix(key: Path): Path
    requires |key| >= 2
  {
    if key[0] % 2 == 1 then key[1..] else key[2..]
  }

  predicate IsTerminator(key: Path)
    requires |key| >= 1
  {
    key[0] > 1
  }

  /** The first byte of an encoded key has the node type and the parity in its high nibble, 2 or 3 for a
      leaf and 0 or 1 for an extension, and below it the first nibble of an odd key or zero; the rest of
      the key follows. */
  lemma HexPrefixBytes(key: Path, terminator: bool)
    ensures var bytes, odd := Pack(AddHexPrefix(key, terminator)), |key| % 2 == 1;
            && |bytes| == |key| / 2 + 1
            && bytes[0] as int == (if terminator then 32 else 0) + (if odd then 16 + key[0] as int else 0)
            && Spread(bytes[1..]) == if odd then key[1..] else key
  {
    var prefixed := AddHexPrefix(key, terminator);
    var rest := if |key| % 2 == 1 then key[1..] else key;
    assert prefixed[2..] == rest && Pack(prefixed)[1..] == Pack(rest);
    SpreadPack(rest);
    PackLength(rest);
  }

  lemma {:induction false} PackLength(path: Path)
    requires |path| % 2 == 0
    ensures |Pack(path)| == |path| / 2
  {
    if path != [] { PackLength(path[2..]); }
  }

  lemma {:induction false} SpreadPack(path: Path)
    requires |path| % 2 == 0
    ensures Spread(Pack(path)) == path
  {
    if path != [] {
      SpreadPack(path[2..]);
      assert path == [path[0], path[1]] + path[2..];
      assert Pack(path)[1..] == Pack(path[2..]);
    }
  }

  lemma {:induction false} PackSpread(bytes: Buffer)
    ensures Pack(Spread(bytes)) == bytes
  {
    if bytes != [] {
      PackSpread(bytes[1..]);
      assert Spread(bytes)[2..] == Spread(bytes[1..]);
    }
  }

  /** Encoding a nibble list and a leaf flag to bytes loses neither. */
  lemma HexPrefixRoundTrip(key: Path, terminator: bool)
    ensures var raw := Spread(Pack(AddHexPrefix(key, terminator)));
            |raw| >= 2 && RemoveHexPrefix(raw) == key && IsTerminator(raw) == terminator
  {
    SpreadPack(AddHexPrefix(key, terminator));
  }

  /** Equal encoded keys mean equal paths and equal node types. */
  lemma HexPrefixInjective(key: Path, leaf: bool, key': Path, leaf': bool)
    requires Pack(AddHexPrefix(key, leaf)) == Pack(AddHexPrefix(key', leaf'))
    ensures key == key' && leaf == leaf'
  {
    HexPrefixRoundTrip(key, leaf);
    HexPrefixRoundTrip(key', leaf');
  }

  datatype NodeType = LeafType | ExtensionType

  /** The key half of a key/value node: its type and the encoded key `raw[0]`. */
  class KeyNode {
    var nodeType: NodeType
    var raw: Buffer

    /** The nibbles the encoded key stands for. */
    ghost function KeyPath(): Path
      reads this
      requires |raw| >= 1
    {
      RemoveHexPrefix(Spread(raw))
    }

    constructor (nodeType: NodeType, key: Path)
      ensures this.nodeType == nodeType && |raw| >= 1 && KeyPath() == key
      ensures raw == Pack(AddHexPrefix(key, nodeType.LeafType?))
    {
      this.nodeType := nodeType;
      new;
      SetKey(key);
    }

    /** A node read back from its encoding: the flag nibble decides the type. */
    constructor Parse(rawKey: Buffer)
      requires |rawKey| >= 1
      ensures raw == rawKey && nodeType == if IsTerminator(Spread(rawKey)) then LeafType else ExtensionType
    {
      raw := rawKey;
      new;
      var key := BufferToNibbles(rawKey);
      nodeType := if IsTerminator(key) then LeafType else ExtensionType;
    }

    method SetKey(key: Path)
      modifies this`raw
      ensures |raw| >= 1 && KeyPath() == key
      ensures raw == Pack(AddHexPrefix(key, nodeType.LeafType?))
    {
      raw := NibblesToBuffer(AddHexPrefix(key, nodeType.LeafType?));
      HexPrefixRoundTrip(key, nodeType.LeafType?);
    }

    method GetKey() returns (key: Path)
      requires |raw| >= 1
      ensures key == KeyPath()
    {
      var nibbles := BufferToNibbles(raw);
      key := RemoveHexPrefix(nibbles);
    }
  }

  /** Storing a node's key and parsing the stored bytes gives back type and key. */
  method StoreAndParse(nodeType: NodeType, key: Path) returns (nodeType': NodeType, key': Path)
    ensures nodeType' == nodeType && key' == key
  {
    var node := new KeyNode(nodeType, key);
    var parsed := new KeyNode.Parse(node.raw);
    HexPrefixRoundTrip(key, nodeType.LeafType?);
    nodeType' := parsed.nodeType;
    key' := parsed.GetKey();
  }
}
