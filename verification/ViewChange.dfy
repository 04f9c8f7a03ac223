/** The two tables of viewChangeForTimeout.js: the latest view change of each address, and the
    number of addresses per view-change content. */
module ViewChange {
  import opened Quorum
  import opened Wrappers
  import WaterLine

  /** The signed content of a view change; its hash leaves out the signature. */
  datatype Content = Content(sequence: nat, blockHash: nat, number: nat, view: nat)

  datatype ViewChange = ViewChange(content: Content, sender: NodeId)

  function Agreeing(latest: map<NodeId, ViewChange>, content: Content): set<NodeId> {
    set a | a in latest && latest[a].content == content
  }

  lemma AgreeingWithout(latest: map<NodeId, ViewChange>, a: NodeId, content: Content)
    requires a in latest
    ensures |Agreeing(latest, content)| == |Agreeing(latest - {a}, content)| + if latest[a].content == content then 1 else 0
  {
    var all, rest := Agreeing(latest, content), Agreeing(latest - {a}, content);
    assert all == if latest[a].content == content then rest + {a} else rest;
  }

  /** The first view change with a content, and how many addresses have that content now. */
  datatype Detail = Detail(data: ViewChange, count: nat)

  /** A content is counted exactly when some address has it as its latest, and by how many. */
  ghost predicate Counted(latest: map<NodeId, ViewChange>, byHash: map<Content, Detail>) {
    forall x :: CountedAt(latest, byHash, x)
  }

  ghost predicate CountedAt(latest: map<NodeId, ViewChange>, byHash: map<Content, Detail>, x: Content) {
    if x in byHash then byHash[x].count == |Agreeing(latest, x)| > 0 && byHash[x].data.content == x else Agreeing(latest, x) == {}
  }

  class ViewChangeForTimeout {
    const threshold: nat
    var byAddress: map<NodeId, ViewChange>
    var byHash: map<Content, Detail>
    var consensusViewChange: Option<ViewChange>
    var view: nat
    var sequence: nat

    ghost predicate Valid()
      reads this
    {
      (forall a | a in byAddress :: byAddress[a].sender == a) && Counted(byAddress, byHash)
    }

    constructor (threshold: nat, view: nat, sequence: nat)
      ensures Valid() && byAddress == map[] && this.threshold == threshold
      ensures this.view == view && this.sequence == sequence
    {
      this.threshold, this.view, this.sequence := threshold, view, sequence;
      byAddress, byHash, consensusViewChange := map[], map[], None;
    }

    method Reset()
      modifies this
      ensures Valid() && byAddress == map[] && consensusViewChange == None
      ensures view == old(view) && sequence == old(sequence)
    {
      byAddress, byHash, consensusViewChange := map[], map[], None;
    }

    /** The quorum is reached: go to the next view, at its low water line. */
    method Handler(v: ViewChange)
      modifies this`consensusViewChange, this`view, this`sequence
      ensures consensusViewChange == Some(v) && view == v.content.view + 1 && sequence == view * WaterLine.STEP
    {
      consensusViewChange := Some(v);
      view := v.content.view + 1;
      sequence := view * WaterLine.STEP;
    }

    /** Takes an address's earlier view change out of the counts. The branch that reports an inner
        exception, a content to take out that is not counted, is dead. */
    method Uncount(v: ViewChange, ghost latest: map<NodeId, ViewChange>)
      requires v.sender in latest && latest[v.sender] == v && Counted(latest, byHash)
      modifies this`byHash
      ensures Counted(latest - {v.sender}, byHash)
    {
      assert CountedAt(latest, byHash, v.content) && v.sender in Agreeing(latest, v.content);
      ghost var before := byHash;
      if v.content in byHash {
        var detail := byHash[v.content];
        if detail.count == 1 {
          byHash := byHash - {v.content};
        } else {
          byHash := byHash[v.content := detail.(count := detail.count - 1)];
        }
      } else {
        assert false;
      }
      forall x ensures CountedAt(latest - {v.sender}, byHash, x) {
        assert CountedAt(latest, before, x);
        AgreeingWithout(latest, v.sender, x);
      }
    }

    /** Counts the view change of an address that is not counted yet. */
    method Count(v: ViewChange, ghost latest: map<NodeId, ViewChange>) returns (detail: Detail)
      requires v.sender !in latest && Counted(latest, byHash)
      modifies this`byHash
      ensures Counted(latest[v.sender := v], byHash)
      ensures detail.count == |Agreeing(latest[v.sender := v], v.content)| && detail.data.content == v.content
    {
      ghost var before, after := byHash, latest[v.sender := v];
      assert CountedAt(latest, byHash, v.content);
      detail := if v.content in byHash then byHash[v.content] else Detail(v, 0);
      detail := detail.(count := detail.count + 1);
      byHash := byHash[v.content := detail];
      assert after - {v.sender} == latest;
      AgreeingWithout(after, v.sender, v.content);
      forall x ensures CountedAt(after, byHash, x) {
        assert CountedAt(latest, before, x);
        AgreeingWithout(after, v.sender, x);
      }
    }

    /** Records a validated view change. The view moves on exactly when, with it, enough distinct
        addresses have this content as their latest view change. */
    method ProcessExchangeData(v: ViewChange) returns (fired: bool)
      requires Valid()
      modifies this
      ensures Valid() && byAddress == old(byAddress)[v.sender := v]
      ensures fired <==> |Agreeing(byAddress, v.content)| >= threshold
      ensures fired ==> view == v.content.view + 1 && sequence == view * WaterLine.STEP && consensusViewChange.Some? &&
                        consensusViewChange.value.content == v.content
      ensures !fired ==> view == old(view) && sequence == old(sequence) && consensusViewChange == old(consensusViewChange)
    {
      ghost var rest := byAddress - {v.sender};
      if v.sender in byAddress {
        Uncount(byAddress[v.sender], byAddress);
      } else {
        assert rest == byAddress;
      }
      byAddress := byAddress[v.sender := v];
      assert byAddress == rest[v.sender := v];
      var detail := Count(v, rest);
      fired := detail.count >= threshold;
      if fired { Handler(detail.data); }
    }

    /** The view changes that the new leader sends with its new-view message. */
    method CollectViewChanges() returns (list: seq<ViewChange>)
      requires Valid() && consensusViewChange.Some?
      ensures Distinct(list) && |list| == |Agreeing(byAddress, consensusViewChange.value.content)|
      ensures forall i | 0 <= i < |list| :: list[i].content == consensusViewChange.value.content
    {
      var content := consensusViewChange.value.content;
      var left := byAddress.Keys;
      list := [];
      assert Agreeing(byAddress, content) * left == Agreeing(byAddress, content);
      while left != {}
        invariant left <= byAddress.Keys && Distinct(list)
        invariant forall i | 0 <= i < |list| ::
                    list[i].content == content && list[i].sender !in left && list[i].sender in byAddress
        invariant |list| + |Agreeing(byAddress, content) * left| == |Agreeing(byAddress, content)|
      {
        var a :| a in left;
        var chosen := Agreeing(byAddress, content);
        if byAddress[a].content == content {
          assert chosen * left == chosen * (left - {a}) + {a};
          list := list + [byAddress[a]];
        } else {
          assert chosen * left == chosen * (left - {a});
        }
        left := left - {a};
      }
    }
  }

  predicate Distinct(list: seq<ViewChange>) {
    forall i, j | 0 <= i < j < |list| :: list[i].sender != list[j].sender
  }

  function Senders(list: seq<ViewChange>): set<NodeId> {
    set i | 0 <= i < |list| :: list[i].sender
  }

  lemma {:induction false} DistinctSenders(list: seq<ViewChange>)
    requires Distinct(list)
    ensures |Senders(list)| == |list|
  {
    if list != [] {
      var init, last := list[..|list| - 1], list[|list| - 1];
      DistinctSenders(init);
      assert Senders(list) == Senders(init) + {last.sender};
    }
  }

  /** The list of a new-view message: enough view changes, one content, no address twice. */
  ghost predicate Acceptable(list: seq<ViewChange>, threshold: nat) {
    |list| >= threshold && Distinct(list) && forall i | 0 <= i < |list| :: list[i].content == list[0].content
  }

  /** The checks on the list of a new-view message. */
  method CheckViewChanges(list: seq<ViewChange>, threshold: nat) returns (ok: bool)
    ensures ok <==> Acceptable(list, threshold)
    ensures ok ==> |Senders(list)| >= threshold
  {
    if |list| < threshold { return false; }
    var seen: set<NodeId> := {};
    for i := 0 to |list|
      invariant seen == Senders(list[..i]) && Distinct(list[..i])
      invariant forall j | 0 <= j < i :: list[j].content == list[0].content
    {
      if list[i].content != list[0].content { return false; }
      if list[i].sender in seen {
        ghost var j :| 0 <= j < i && list[j].sender == list[i].sender;
        return false;
      }
      seen := seen + {list[i].sender};
      assert forall j | 0 <= j < i :: list[..i][j].sender in Senders(list[..i]);
      assert list[..i + 1] == list[..i] + [list[i]];
      assert Senders(list[..i + 1]) == Senders(list[..i]) + {list[i].sender};
    }
    assert list[..|list|] == list;
    DistinctSenders(list);
    ok := true;
  }

  /** A new-view message: the parent block it is about, and the view changes as received, each with
      whether its signature and fields are valid. */
  datatype NewView = NewView(blockHash: nat, number: nat, viewChanges: seq<ViewChange>, validated: seq<bool>)

  /** All checks on a new-view message, by a node with this parent block, view and sequence. */
  ghost predicate Accepts(hash: nat, number: nat, view: nat, sequence: nat, threshold: nat, m: NewView) {
    && m.blockHash == hash && m.number == number && Acceptable(m.viewChanges, threshold) && m.viewChanges != []
    && (forall i | 0 <= i < |m.validated| :: m.validated[i])
    && m.viewChanges[0].content.view + 1 > view && m.viewChanges[0].content.sequence == sequence
  }

  method HandleNewView(hash: nat, number: nat, view: nat, sequence: nat, threshold: nat, m: NewView) returns (ok: bool)
    requires threshold > 0 && |m.validated| == |m.viewChanges|
    ensures ok <==> Accepts(hash, number, view, sequence, threshold, m)
    ensures ok ==> |Senders(m.viewChanges)| >= threshold
  {
    if m.blockHash != hash { return false; }
    if m.number != number { return false; }
    for i := 0 to |m.validated|
      invariant forall j | 0 <= j < i :: m.validated[j]
    {
      if !m.validated[i] { return false; }
    }
    ok := CheckViewChanges(m.viewChanges, threshold);
    if !ok { return; }
    if m.viewChanges[0].content.view + 1 <= view { return false; }
    ok := sequence == m.viewChanges[0].content.sequence;
  }

  /** What a leader collects when its quorum is reached, every other node accepts. */
  method LeaderIsAccepted(tables: ViewChangeForTimeout, v: ViewChange) returns (fired: bool, ok: bool)
    requires tables.Valid()
    modifies tables
    ensures fired ==> ok
  {
    fired := tables.ProcessExchangeData(v);
    ok := false;
    if fired {
      var list := tables.CollectViewChanges();
      ok := CheckViewChanges(list, tables.threshold);
    }
  }
}
