/** The length of a recursive length-prefix encoding (Appendix B of the Ethereum Yellow Paper). */
module Rlp {
  import opened Bytes

  /** How many bytes a number takes. */
  function ByteLength(n: nat): nat {
    if n == 0 then 0 else 1 + ByteLength(n / 256)
  }

  function HeaderSize(payload: nat): nat {
    if payload <= 55 then 1 else 1 + ByteLength(payload)
  }

  function ItemSize(item: Buffer): nat {
    if |item| == 1 && item[0] < 128 then 1 else HeaderSize(|item|) + |item|
  }

  function Payload(items: seq<Buffer>): nat {
    if items == [] then 0 else ItemSize(items[0]) + Payload(items[1..])
  }

  function ListSize(payload: nat): nat { HeaderSize(payload) + payload }

  lemma {:induction false} ByteLengthGrows(m: nat, n: nat)
    requires m <= n
    ensures ByteLength(m) <= ByteLength(n)
  {
    if m > 0 { ByteLengthGrows(m / 256, n / 256); }
  }

  lemma ListSizeGrows(m: nat, n: nat)
    requires m <= n
    ensures ListSize(m) <= ListSize(n)
  {
    ByteLengthGrows(m, n);
  }

  lemma {:induction false} PayloadSplit(a: seq<Buffer>, b: seq<Buffer>)
    ensures Payload(a + b) == Payload(a) + Payload(b)
  {
    if a == [] {
      assert a + b == b;
    } else {
      assert (a + b)[1..] == a[1..] + b;
      PayloadSplit(a[1..], b);
    }
  }

  /** Different members of a list take no more room than the list. */
  lemma {:induction false} SomeFit(some: seq<Buffer>, list: seq<Buffer>)
    requires forall i, j | 0 <= i < j < |some| :: some[i] != some[j]
    requires forall x | x in some :: x in list
    ensures Payload(some) <= Payload(list)
  {
    if some != [] {
      assert some[0] in list;
      var i :| 0 <= i < |list| && list[i] == some[0];
      var rest := list[..i] + list[i + 1..];
      forall x | x in some[1..] ensures x in rest {
        assert x in some && x in list;
        var j :| 0 <= j < |list| && list[j] == x;
        assert rest[if j < i then j else j - 1] == x;
      }
      SomeFit(some[1..], rest);
      PayloadSplit(list[..i], list[i + 1..]);
      PayloadSplit(list[..i], list[i..]);
      assert list == list[..i] + list[i..] && list[i..][1..] == list[i + 1..];
    }
  }
}
