/** Reassembly of length-prefixed messages from a byte stream that arrives in chunks. */
module Frames {
  import opened Bytes
  import opened Wrappers

  const CMD_DATA_SIZE := 4

  /** How many numbers k bytes can hold. */
  function Capacity(k: nat): nat {
    if k == 0 then 1 else 256 * Capacity(k - 1)
  }

  const MAX_LENGTH := Capacity(CMD_DATA_SIZE)

  const MAX_MSG_LENGTH := 1024 * 1024 * 1024 * 1024

  /** The big-endian form of n in k bytes. */
  function Encode(n: nat, k: nat): (bytes: Buffer)
    ensures |bytes| == k
  {
    if k == 0 then [] else Encode(n / 256, k - 1) + [n % 256]
  }

  lemma {:induction false} EncodeNumber(bytes: Buffer)
    ensures Number(bytes) < Capacity(|bytes|) && Encode(Number(bytes), |bytes|) == bytes
  {
    if bytes != [] {
      EncodeNumber(bytes[..|bytes| - 1]);
      assert bytes == bytes[..|bytes| - 1] + [bytes[|bytes| - 1]];
    }
  }

  lemma {:induction false} NumberEncode(n: nat, k: nat)
    requires n < Capacity(k)
    ensures Number(Encode(n, k)) == n
  {
    if k > 0 {
      NumberEncode(n / 256, k - 1);
      assert Encode(n, k)[..k - 1] == Encode(n / 256, k - 1);
    }
  }

  /** The four-byte header of a message of length n. */
  function Header(n: nat): (h: Buffer)
    ensures |h| == CMD_DATA_SIZE
  {
    Encode(n, CMD_DATA_SIZE)
  }

  /** A message on the wire. */
  function Frame(body: Buffer): Buffer
    requires |body| < MAX_LENGTH
  {
    Header(|body|) + body
  }

  predicate Sendable(bodies: seq<Buffer>) {
    forall i | 0 <= i < |bodies| :: |bodies[i]| < MAX_LENGTH
  }

  function Wire(bodies: seq<Buffer>): Buffer
    requires Sendable(bodies)
  {
    if bodies == [] then [] else Frame(bodies[0]) + Wire(bodies[1..])
  }

  lemma {:induction false} WireAppend(bodies: seq<Buffer>, last: Buffer)
    requires Sendable(bodies) && |last| < MAX_LENGTH
    ensures Sendable(bodies + [last]) && Wire(bodies + [last]) == Wire(bodies) + Frame(last)
  {
    if bodies == [] {
      assert (bodies + [last])[1..] == [];
    } else {
      assert (bodies + [last])[1..] == bodies[1..] + [last];
      WireAppend(bodies[1..], last);
      Associate(Frame(bodies[0]), Wire(bodies[1..]), Frame(last));
    }
  }

  lemma Associate(a: Buffer, b: Buffer, c: Buffer)
    ensures (a + b) + c == a + (b + c)
  {}

  lemma FrameIsPrefixFree(a: Buffer, x: Buffer, b: Buffer, y: Buffer)
    requires |a| < MAX_LENGTH && |b| < MAX_LENGTH && Frame(a) + x <= Frame(b) + y
    ensures a == b && x <= y
  {
    var l, r := Frame(a) + x, Frame(b) + y;
    assert l[..4] == Header(|a|) && r[..4] == Header(|b|) && l[..4] == r[..4];
    NumberEncode(|a|, CMD_DATA_SIZE);
    NumberEncode(|b|, CMD_DATA_SIZE);
    var n := 4 + |a|;
    assert a == l[4..n] && b == r[4..n] && l[4..n] == r[4..n];
    assert x == l[n..] && y == r[n..] && l[n..] == r[n..][..|x|];
  }

  /** A wire that starts with the frames of `a` was made from a list that starts with `a`. */
  lemma {:induction false} WireDeterminesBodies(a: seq<Buffer>, rest: Buffer, b: seq<Buffer>)
    requires Sendable(a) && Sendable(b) && Wire(a) + rest <= Wire(b)
    ensures a <= b && rest <= Wire(b[|a|..])
  {
    if a == [] {
      assert b[0..] == b && Wire(a) + rest == rest;
    } else {
      assert Wire(a) + rest == Frame(a[0]) + (Wire(a[1..]) + rest);
      assert b != [];
      FrameIsPrefixFree(a[0], Wire(a[1..]) + rest, b[0], Wire(b[1..]));
      WireDeterminesBodies(a[1..], rest, b[1..]);
      assert a == [a[0]] + a[1..] && b == [b[0]] + b[1..] && b[1..][|a| - 1..] == b[|a|..];
    }
  }

  class MessageChunk {
    const data: Buffer
    var readPos: nat

    ghost predicate Valid()
      reads this
    {
      readPos <= |data|
    }

    ghost function Remaining(): Buffer
      reads this
      requires Valid()
    {
      data[readPos..]
    }

    constructor (data: Buffer)
      ensures Valid() && Remaining() == data && fresh(this)
    {
      this.data, readPos := data, 0;
    }

    function RemainDataSize(): nat
      reads this
      requires Valid()
      ensures RemainDataSize() == |Remaining()|
    {
      |data| - readPos
    }

    method Read(count: nat) returns (bytes: Buffer)
      requires Valid() && count <= |Remaining()|
      modifies this
      ensures Valid() && bytes == old(Remaining())[..count] && Remaining() == old(Remaining())[count..]
    {
      bytes := data[readPos..readPos + count];
      readPos := readPos + count;
    }
  }

  function Concat(parts: seq<Buffer>): Buffer {
    if parts == [] then [] else parts[0] + Concat(parts[1..])
  }

  lemma {:induction false} ConcatAppend(parts: seq<Buffer>, last: Buffer)
    ensures Concat(parts + [last]) == Concat(parts) + last
  {
    if parts == [] {
      assert (parts + [last])[1..] == [];
    } else {
      assert (parts + [last])[1..] == parts[1..] + [last];
      ConcatAppend(parts[1..], last);
    }
  }

  /** The pending bytes, when they begin with a whole message, move over to the delivered ones. */
  lemma DeliveredOne(delivered: seq<Buffer>, received: Buffer, unread: Buffer, body: Buffer)
    requires Sendable(delivered) && |body| < MAX_LENGTH && |body| <= |unread| && body == unread[..|body|]
    requires received == Wire(delivered) + (Header(|body|) + unread)
    ensures Header(|body|) + unread == Frame(body) + unread[|body|..]
    ensures Sendable(delivered + [body]) && received == Wire(delivered + [body]) + unread[|body|..]
  {
    var rest := unread[|body|..];
    assert unread == body + rest;
    assert Header(|body|) + (body + rest) == Frame(body) + rest;
    WireAppend(delivered, body);
    assert Wire(delivered) + (Frame(body) + rest) == (Wire(delivered) + Frame(body)) + rest;
  }

  class MessageChunkQueue {
    var data: seq<MessageChunk>
    var curMessageLength: nat
    ghost var parts: seq<Buffer>       // the unread bytes of each chunk
    ghost var received: Buffer         // everything pushed so far
    ghost var delivered: seq<Buffer>   // everything returned so far

    ghost function Chunks(): set<object>
      reads this
    {
      set c | c in data
    }

    ghost predicate ChunksOk()
      reads this, data
    {
      && |parts| == |data|
      && (forall i | 0 <= i < |data| :: data[i].Valid() && data[i].Remaining() == parts[i])
      && (forall i, j | 0 <= i < j < |data| :: data[i] != data[j])
    }

    /** Bytes not yet returned: those of a header already read off, and the unread ones. */
    ghost function Pending(): Buffer
      reads this
    {
      (if curMessageLength == 0 then [] else Header(curMessageLength)) + Concat(parts)
    }

    /** Nothing is lost, made up or reordered. */
    ghost predicate Accounted()
      reads this
    {
      curMessageLength < MAX_LENGTH && Sendable(delivered) && received == Wire(delivered) + Pending()
    }

    ghost predicate Valid()
      reads this, data
    {
      ChunksOk() && Accounted()
    }

    constructor ()
      ensures Valid() && received == [] && delivered == [] && fresh(data)
    {
      data, curMessageLength, parts := [], 0, [];
      received, delivered := [], [];
    }

    method AddChunk(bytes: Buffer)
      requires ChunksOk()
      modifies this`data, this`parts
      ensures ChunksOk() && parts == old(parts) + [bytes]
    {
      var chunk := new MessageChunk(bytes);
      assert chunk !in data;
      data, parts := data + [chunk], parts + [bytes];
    }

    /** The pending bytes, and all bytes, with more at the end. */
    lemma PendingGrows(bytes: Buffer)
      requires Accounted()
      ensures (if curMessageLength == 0 then [] else Header(curMessageLength)) + Concat(parts + [bytes]) == Pending() + bytes
      ensures received + bytes == Wire(delivered) + (Pending() + bytes)
    {
      ConcatAppend(parts, bytes);
      Associate(if curMessageLength == 0 then [] else Header(curMessageLength), Concat(parts), bytes);
      Associate(Wire(delivered), Pending(), bytes);
    }

    method Push(bytes: Buffer)
      requires Valid()
      modifies this
      ensures Valid() && received == old(received) + bytes && delivered == old(delivered)
      ensures Pending() == old(Pending()) + bytes && curMessageLength == old(curMessageLength)
    {
      PendingGrows(bytes);
      AddChunk(bytes);
      received := received + bytes;
    }

    method Length() returns (n: nat)
      requires ChunksOk()
      ensures n == |Concat(parts)|
    {
      n := 0;
      for i := 0 to |data|
        invariant n + |Concat(parts[i..])| == |Concat(parts)|
      {
        assert parts[i..][1..] == parts[i + 1..];
        n := n + data[i].RemainDataSize();
      }
    }

    /** Reads up to `limit` bytes from the first chunk; a chunk that is read up is dropped. */
    method ReadHead(limit: nat) returns (bytes: Buffer)
      requires ChunksOk() && data != []
      modifies this`data, this`parts, data[0]
      ensures ChunksOk() && old(Concat(parts)) == bytes + Concat(parts)
      ensures |bytes| <= limit && (|bytes| < limit ==> |data| < |old(data)|) && |data| <= |old(data)|
      ensures Chunks() <= old(Chunks())
    {
      var chunk := data[0];
      ghost var first, rest := parts[0], parts[1..];
      if chunk.RemainDataSize() > limit {
        bytes := chunk.Read(limit);
        parts := [first[limit..]] + rest;
        assert parts[1..] == rest && first == bytes + first[limit..];
      } else {
        bytes := chunk.Read(chunk.RemainDataSize());
        assert bytes == first;
        data, parts := data[1..], rest;
      }
    }

    /** Takes `count` bytes off the front of the queue. */
    method Take(count: nat) returns (bytes: Buffer)
      requires ChunksOk() && count <= |Concat(parts)|
      modifies this`data, this`parts, Chunks()
      ensures ChunksOk() && bytes == old(Concat(parts))[..count] && Concat(parts) == old(Concat(parts))[count..]
      ensures Chunks() <= old(Chunks())
    {
      bytes := [];
      ghost var all := Concat(parts);
      while |bytes| < count
        invariant ChunksOk() && |bytes| <= count && all == bytes + Concat(parts)
        invariant Chunks() <= old(Chunks())
        decreases |data|, count - |bytes|
      {
        assert data != [] && data[0] in Chunks();
        ghost var before := bytes;
        var more := ReadHead(count - |bytes|);
        bytes := bytes + more;
        assert before + (more + Concat(parts)) == bytes + Concat(parts);
      }
    }

    /** Reads the header of the next message off the queue. */
    method ReadLength()
      requires Valid() && curMessageLength == 0 && |Concat(parts)| >= CMD_DATA_SIZE
      modifies this, Chunks()
      ensures ChunksOk() && delivered == old(delivered) && received == old(received)
      ensures curMessageLength == Number(old(Concat(parts))[..CMD_DATA_SIZE]) < MAX_LENGTH
      ensures old(Concat(parts)) == Header(curMessageLength) + Concat(parts)
      ensures Chunks() <= old(Chunks())
    {
      var header := Take(CMD_DATA_SIZE);
      EncodeNumber(header);
      curMessageLength := Number(header);
      if curMessageLength > MAX_MSG_LENGTH { assert false; }
    }

    /** The next message that has fully arrived, if any. */
    method GetMessage() returns (message: Option<Buffer>)
      requires Valid()
      modifies this, Chunks()
      ensures Valid() && received == old(received)
      ensures message.Some? ==> delivered == old(delivered) + [message.value] && |message.value| < MAX_LENGTH &&
                                old(Pending()) == Frame(message.value) + Pending()
      ensures message.None? ==> delivered == old(delivered) && Pending() == old(Pending())
      ensures message.None? <==> old(Waits())
      ensures message.None? ==> Waits()
    {
      var length := Length();
      if length < CMD_DATA_SIZE { return None; }
      if curMessageLength == 0 { ReadLength(); }
      message := ReadRest();
    }

    /** With the header read off: the message itself, if it has fully arrived. */
    method ReadRest() returns (message: Option<Buffer>)
      requires ChunksOk() && curMessageLength < MAX_LENGTH && Sendable(delivered)
      requires received == Wire(delivered) + (Header(curMessageLength) + Concat(parts))
      modifies this, Chunks()
      ensures Valid() && received == old(received)
      ensures message.None? <==> old(|Concat(parts)| < curMessageLength)
      ensures message.None? ==> delivered == old(delivered) && curMessageLength == old(curMessageLength) && parts == old(parts)
      ensures message.Some? ==> delivered == old(delivered) + [message.value] && |message.value| < MAX_LENGTH
                                && old(Header(curMessageLength) + Concat(parts)) == Frame(message.value) + Pending()
    {
      var length := Length();
      if length < curMessageLength { return None; }
      ghost var unread := Concat(parts);
      var body := ReadBody();
      DeliveredOne(delivered, received, unread, body);
      delivered := delivered + [body];
      assert Pending() == Concat(parts);
      message := Some(body);
    }

    /** Reads the message itself off the queue. */
    method ReadBody() returns (body: Buffer)
      requires ChunksOk() && curMessageLength <= |Concat(parts)|
      modifies this, Chunks()
      ensures ChunksOk() && curMessageLength == 0 && delivered == old(delivered) && received == old(received)
      ensures body == old(Concat(parts))[..old(curMessageLength)] && Concat(parts) == old(Concat(parts))[old(curMessageLength)..]
    {
      body := Take(curMessageLength);
      curMessageLength := 0;
    }

    /** Nothing can be returned yet: fewer than four unread bytes, or too few for the message. */
    ghost predicate Waits()
      reads this
    {
      |Concat(parts)| < CMD_DATA_SIZE || |Concat(parts)| < BodyLength() + (if curMessageLength == 0 then CMD_DATA_SIZE else 0)
    }

    /** The length of the message that comes next. */
    ghost function BodyLength(): nat
      reads this
      requires |Concat(parts)| >= CMD_DATA_SIZE
    {
      if curMessageLength == 0 then Number(Concat(parts)[..CMD_DATA_SIZE]) else curMessageLength
    }
  }

  // ---------- whole streams ----------

  /** Whatever the chunks, the messages returned so far are the first of those sent, in order. */
  lemma DeliveredInOrder(q: MessageChunkQueue, sent: seq<Buffer>)
    requires q.Valid() && Sendable(sent) && q.received <= Wire(sent)
    ensures q.delivered <= sent && q.Pending() <= Wire(sent[|q.delivered|..])
  {
    WireDeterminesBodies(q.delivered, q.Pending(), sent);
  }

  /** A complete frame is pending. */
  ghost predicate HasFrame(pending: Buffer) {
    exists body: Buffer | |body| < MAX_LENGTH :: Frame(body) <= pending
  }

  /** A complete frame at the front of the pending bytes has the length the queue works with. */
  lemma FrameInFront(q: MessageChunkQueue, body: Buffer)
    requires q.curMessageLength < MAX_LENGTH && |body| < MAX_LENGTH && Frame(body) <= q.Pending()
    ensures q.curMessageLength != 0 ==> |body| == q.curMessageLength <= |Concat(q.parts)|
    ensures q.curMessageLength == 0 ==> |Concat(q.parts)| >= CMD_DATA_SIZE + |body| && q.BodyLength() == |body|
  {
    var pending := q.Pending();
    assert Frame(body)[..4] == Header(|body|) && pending[..4] == Frame(body)[..4];
    NumberEncode(|body|, CMD_DATA_SIZE);
    if q.curMessageLength != 0 {
      assert pending[..4] == Header(q.curMessageLength);
      NumberEncode(q.curMessageLength, CMD_DATA_SIZE);
    } else {
      assert pending == Concat(q.parts);
    }
  }

  lemma StartOf(a: Buffer, b: Buffer, n: nat)
    requires n <= |b|
    ensures a + b[..n] <= a + b
  {
    assert b == b[..n] + b[n..];
  }

  lemma FrameAtFront(length: nat, unread: Buffer)
    requires length <= |unread| && length < MAX_LENGTH
    ensures HasFrame(Header(length) + unread)
  {
    var body := unread[..length];
    StartOf(Header(length), unread, length);
    assert Frame(body) == Header(length) + body;
  }

  /** The queue holds back a complete message exactly when its header has been read off and the
      message itself is shorter than a header, with nothing long enough after it. */
  lemma HoldsBackExactly(q: MessageChunkQueue)
    requires q.Valid()
    ensures q.Waits() && HasFrame(q.Pending()) <==>
            0 < q.curMessageLength <= |Concat(q.parts)| < CMD_DATA_SIZE
  {
    if 0 < q.curMessageLength <= |Concat(q.parts)| { FrameAtFront(q.curMessageLength, Concat(q.parts)); }
    if HasFrame(q.Pending()) {
      var body: Buffer :| |body| < MAX_LENGTH && Frame(body) <= q.Pending();
      FrameInFront(q, body);
    }
  }

  /** When every body has at least four bytes, a queue that has received all and waits has
      returned all. */
  lemma AllDelivered(q: MessageChunkQueue, sent: seq<Buffer>)
    requires q.Valid() && Sendable(sent) && q.received == Wire(sent) && q.Waits()
    requires forall i | 0 <= i < |sent| :: |sent[i]| >= CMD_DATA_SIZE
    ensures q.delivered == sent
  {
    DeliveredInOrder(q, sent);
    var rest := sent[|q.delivered|..];
    if rest != [] {
      assert q.Pending() == Wire(rest) by { WholeRest(q.delivered, q.Pending(), sent); }
      assert Frame(rest[0]) <= q.Pending() && |rest[0]| >= CMD_DATA_SIZE;
      FrameInFront(q, rest[0]);
    }
  }

  lemma {:induction false} WholeRest(a: seq<Buffer>, rest: Buffer, b: seq<Buffer>)
    requires Sendable(a) && Sendable(b) && Wire(a) + rest == Wire(b) && a <= b
    ensures rest == Wire(b[|a|..])
  {
    if a == [] {
      assert b[0..] == b && Wire(a) + rest == rest;
    } else {
      var x, y := Wire(a[1..]) + rest, Wire(b[1..]);
      assert Wire(a) + rest == Frame(a[0]) + x && Wire(b) == Frame(b[0]) + y;
      assert (Frame(a[0]) + x)[|Frame(a[0])|..] == x && (Frame(b[0]) + y)[|Frame(b[0])|..] == y;
      WholeRest(a[1..], rest, b[1..]);
      assert b[1..][|a| - 1..] == b[|a|..];
    }
  }
}
