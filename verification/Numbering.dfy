/**
 From the node vector to the flat tree: preorder numbering of internal nodes,
 resolution of children to records, and the set of records in use.
 */
module Numbering {
  import opened Bytes
  import opened ContentOrder
  import opened PoolModel
  import opened Trie
  import opened Nodes
  import opened SearchTree
  import Database

  /** Internal nodes of a subtree, parents before children and left before right. */
  ghost function Preorder(nodes: seq<TrieNode>, size: nat, i: nat): (order: seq<nat>)
    requires Wf(nodes, size) && i < |nodes|
    ensures !IsLeaf(nodes[i]) ==> order != [] && order[0] == i
    decreases |nodes| - i
  {
    assert NodeOk(nodes, size, i);
    if IsLeaf(nodes[i]) then []
    else
      [i] + (if nodes[i].left == 0 then [] else Preorder(nodes, size, nodes[i].left))
          + (if nodes[i].right == 0 then [] else Preorder(nodes, size, nodes[i].right))
  }

  ghost function KidOrder(nodes: seq<TrieNode>, size: nat, c: nat): seq<nat>
    requires Wf(nodes, size) && c < |nodes|
  {
    if c == 0 then [] else Preorder(nodes, size, c)
  }

  lemma PreorderOfFork(nodes: seq<TrieNode>, size: nat, i: nat)
    requires Wf(nodes, size) && i < |nodes| && !IsLeaf(nodes[i])
    ensures nodes[i].left < |nodes| && nodes[i].right < |nodes|
    ensures Preorder(nodes, size, i)
         == [i] + KidOrder(nodes, size, nodes[i].left) + KidOrder(nodes, size, nodes[i].right)
  {
    assert NodeOk(nodes, size, i);
  }

  lemma {:induction false} PreorderMembers(nodes: seq<TrieNode>, size: nat, i: nat)
    requires Wf(nodes, size) && i < |nodes|
    ensures forall j | j in Preorder(nodes, size, i) :: j in Reach(nodes, size, i) && !IsLeaf(nodes[j])
    decreases |nodes| - i
  {
    assert NodeOk(nodes, size, i);
    if nodes[i].left != 0 { PreorderMembers(nodes, size, nodes[i].left); }
    if nodes[i].right != 0 { PreorderMembers(nodes, size, nodes[i].right); }
  }

  lemma {:induction false} PreorderCount(nodes: seq<TrieNode>, es: seq<Entry>, i: nat)
    requires Closed(es) && Wf(nodes, |es|) && i < |nodes|
    ensures |Preorder(nodes, |es|, i)| == NodeCount(TreeAt(nodes, es, i))
    decreases |nodes| - i
  {
    assert NodeOk(nodes, |es|, i);
    if !IsLeaf(nodes[i]) {
      if nodes[i].left != 0 { PreorderCount(nodes, es, nodes[i].left); }
      if nodes[i].right != 0 { PreorderCount(nodes, es, nodes[i].right); }
    }
  }

  /** Numbers given to nodes; nodes without a number are leaves. */
  type Numbers = map<nat, nat>

  ghost predicate Numbered(mapping: Numbers, order: seq<nat>, id: nat) {
    forall k | 0 <= k < |order| :: order[k] in mapping && mapping[order[k]] == id + k
  }

  /** `order` holds the nodes of `part` from position `id` on. */
  ghost predicate Segment(order: seq<nat>, part: seq<nat>, id: nat) {
    id + |part| <= |order| && order[id..id + |part|] == part
  }

  lemma SegmentParts(order: seq<nat>, i: nat, ls: seq<nat>, rs: seq<nat>, id: nat)
    requires Segment(order, [i] + ls + rs, id)
    ensures order[id] == i && Segment(order, ls, id + 1) && Segment(order, rs, id + 1 + |ls|)
  {
    var all := [i] + ls + rs;
    var m := id + |all|;
    assert order[id] == order[id..m][0] == all[0];
    assert order[id + 1..id + 1 + |ls|] == order[id..m][1..1 + |ls|] == all[1..1 + |ls|] == ls;
    assert order[id + 1 + |ls|..m] == order[id..m][1 + |ls|..] == all[1 + |ls|..] == rs;
  }

  lemma ForkSegments(nodes: seq<TrieNode>, size: nat, order: seq<nat>, i: nat, id: nat) returns (right: nat)
    requires Wf(nodes, size) && i < |nodes| && !IsLeaf(nodes[i])
    requires Segment(order, Preorder(nodes, size, i), id)
    ensures NodeOk(nodes, size, i) && id < |order| && order[id] == i
    ensures right == id + 1 + |KidOrder(nodes, size, nodes[i].left)|
    ensures Segment(order, KidOrder(nodes, size, nodes[i].left), id + 1)
    ensures Segment(order, KidOrder(nodes, size, nodes[i].right), right)
  {
    PreorderOfFork(nodes, size, i);
    var ls := KidOrder(nodes, size, nodes[i].left);
    SegmentParts(order, i, ls, KidOrder(nodes, size, nodes[i].right), id);
    right := id + 1 + |ls|;
  }

  /** The record written for a child index. */
  function Resolve(nodes: seq<TrieNode>, mapping: Numbers, n: nat, offsets: map<nat, nat>, child: nat): nat
    requires child < |nodes|
  {
    if child == 0 then n
    else if child in mapping then mapping[child]
    else if nodes[child].data == 0 || nodes[child].data !in offsets then n
    else n + 16 + offsets[nodes[child].data]
  }

  /** Offsets by id and offsets by content say the same. */
  ghost predicate SameOffsets(es: seq<Entry>, byId: map<nat, nat>, byValue: Offsets)
    requires Closed(es)
  {
    forall id | 0 <= id < |es| ::
      (id in byId <==> Val(es, id) in byValue) && (id in byId ==> byId[id] == byValue[Val(es, id)])
  }

  ghost predicate OnlyForks(nodes: seq<TrieNode>, mapping: Numbers) {
    forall i | i in mapping :: i < |nodes| && !IsLeaf(nodes[i])
  }

  lemma ResolveIsRecordOf(nodes: seq<TrieNode>, es: seq<Entry>, mapping: Numbers, n: nat, byId: map<nat, nat>,
                          byValue: Offsets, c: nat, order: seq<nat>, id: nat)
    requires ValidPool(es) && Wf(nodes, |es|) && c < |nodes| && OnlyForks(nodes, mapping)
    requires SameOffsets(es, byId, byValue) && Numbered(mapping, order, 0)
    requires Segment(order, KidOrder(nodes, |es|, c), id)
    ensures Resolve(nodes, mapping, n, byId, c) == RecordOf(KidTree(nodes, es, c), id, n, byValue)
  {
    if c != 0 {
      assert NodeOk(nodes, |es|, c);
      if IsLeaf(nodes[c]) {
        IdIffContent(es, nodes[c].data, 0);
      } else {
        assert order[id] == order[id..id + |Preorder(nodes, |es|, c)|][0] == c;
      }
    }
  }

  /** The record pairs written for the numbered nodes, in order. */
  ghost predicate Written(nodes: seq<TrieNode>, mapping: Numbers, byId: map<nat, nat>, order: seq<nat>, rs: seq<(nat, nat)>)
  {
    |rs| == |order| && forall k | 0 <= k < |order| :: WrittenAt(nodes, mapping, byId, order[k], |rs|, rs[k])
  }

  predicate WrittenAt(nodes: seq<TrieNode>, mapping: Numbers, byId: map<nat, nat>, i: nat, n: nat, r: (nat, nat)) {
    && i < |nodes| && nodes[i].left < |nodes| && nodes[i].right < |nodes|
    && r.0 == Resolve(nodes, mapping, n, byId, nodes[i].left)
    && r.1 == Resolve(nodes, mapping, n, byId, nodes[i].right)
  }

  lemma WrittenOnce(nodes: seq<TrieNode>, mapping: Numbers, byId: map<nat, nat>, order: seq<nat>,
                    ps: seq<(nat, nat)>, rs: seq<(nat, nat)>)
    requires Written(nodes, mapping, byId, order, ps) && Written(nodes, mapping, byId, order, rs)
    ensures ps == rs
  {
    forall k | 0 <= k < |order| ensures ps[k] == rs[k] {
      assert WrittenAt(nodes, mapping, byId, order[k], |ps|, ps[k]);
      assert WrittenAt(nodes, mapping, byId, order[k], |rs|, rs[k]);
    }
  }

  /** Every child resolves to the record of its subtree at its place in the order. */
  ghost predicate Resolves(nodes: seq<TrieNode>, es: seq<Entry>, mapping: Numbers, n: nat, byId: map<nat, nat>,
                           byValue: Offsets, order: seq<nat>)
    requires Closed(es) && Wf(nodes, |es|)
  {
    forall c, id: nat | 0 <= c < |nodes| && Segment(order, KidOrder(nodes, |es|, c), id) ::
      Resolve(nodes, mapping, n, byId, c) == RecordOf(KidTree(nodes, es, c), id, n, byValue)
  }

  /** Resolving the children of the numbered nodes links the records of the tree. */
  lemma {:induction false} WrittenIsLinked(nodes: seq<TrieNode>, es: seq<Entry>, mapping: Numbers, byId: map<nat, nat>,
                                           byValue: Offsets, order: seq<nat>, rs: seq<(nat, nat)>, i: nat, id: nat)
    requires Closed(es) && Wf(nodes, |es|) && i < |nodes|
    requires Resolves(nodes, es, mapping, |rs|, byId, byValue, order)
    requires Written(nodes, mapping, byId, order, rs) && Segment(order, Preorder(nodes, |es|, i), id)
    ensures Linked(rs, TreeAt(nodes, es, i), id, byValue)
    decreases |nodes| - i
  {
    if !IsLeaf(nodes[i]) {
      var right := ForkSegments(nodes, |es|, order, i, id);
      KidLinked(nodes, es, mapping, byId, byValue, order, rs, i, nodes[i].left, id + 1);
      KidLinked(nodes, es, mapping, byId, byValue, order, rs, i, nodes[i].right, right);
      TreeOfFork(nodes, es, i);
      JoinKids(nodes, mapping, byId, byValue, order, rs, i, id, right,
               KidTree(nodes, es, nodes[i].left), KidTree(nodes, es, nodes[i].right));
    }
  }

  lemma JoinKids(nodes: seq<TrieNode>, mapping: Numbers, byId: map<nat, nat>, byValue: Offsets, order: seq<nat>,
                 rs: seq<(nat, nat)>, i: nat, id: nat, right: nat, lt: Tree, rt: Tree)
    requires Written(nodes, mapping, byId, order, rs) && id < |order| && order[id] == i
    requires i < |nodes| && nodes[i].left < |nodes| && nodes[i].right < |nodes| && right == id + 1 + NodeCount(lt)
    requires Resolve(nodes, mapping, |rs|, byId, nodes[i].left) == RecordOf(lt, id + 1, |rs|, byValue)
    requires Resolve(nodes, mapping, |rs|, byId, nodes[i].right) == RecordOf(rt, right, |rs|, byValue)
    requires Linked(rs, lt, id + 1, byValue) && Linked(rs, rt, right, byValue)
    ensures Linked(rs, Fork(lt, rt), id, byValue)
  {
    assert WrittenAt(nodes, mapping, byId, order[id], |rs|, rs[id]);
    LinkedFork(rs, lt, rt, id, byValue);
  }

  lemma {:induction false} KidLinked(nodes: seq<TrieNode>, es: seq<Entry>, mapping: Numbers, byId: map<nat, nat>,
                                     byValue: Offsets, order: seq<nat>, rs: seq<(nat, nat)>, i: nat, c: nat, id: nat)
    requires Closed(es) && Wf(nodes, |es|) && i < |nodes| && (c == 0 || i < c < |nodes|)
    requires Resolves(nodes, es, mapping, |rs|, byId, byValue, order)
    requires Written(nodes, mapping, byId, order, rs) && Segment(order, KidOrder(nodes, |es|, c), id)
    ensures Linked(rs, KidTree(nodes, es, c), id, byValue)
    ensures Resolve(nodes, mapping, |rs|, byId, c) == RecordOf(KidTree(nodes, es, c), id, |rs|, byValue)
    ensures |KidOrder(nodes, |es|, c)| == NodeCount(KidTree(nodes, es, c))
    decreases |nodes| - i, 0
  {
    if c != 0 {
      PreorderCount(nodes, es, c);
      WrittenIsLinked(nodes, es, mapping, byId, byValue, order, rs, c, id);
    }
  }

  lemma LinkedFork(rs: seq<(nat, nat)>, l: Tree, r: Tree, id: nat, byValue: Offsets)
    requires id < |rs|
    requires rs[id] == (RecordOf(l, id + 1, |rs|, byValue), RecordOf(r, id + 1 + NodeCount(l), |rs|, byValue))
    requires Linked(rs, l, id + 1, byValue) && Linked(rs, r, id + 1 + NodeCount(l), byValue)
    ensures Linked(rs, Fork(l, r), id, byValue)
  {
  }

  /** The pairs written for a whole numbered trie are exactly the records of its tree. */
  lemma WrittenRecords(nodes: seq<TrieNode>, es: seq<Entry>, mapping: Numbers, byId: map<nat, nat>,
                       byValue: Offsets, order: seq<nat>, rs: seq<(nat, nat)>)
    requires ValidPool(es) && |nodes| > 0 && Wf(nodes, |es|) && OnlyForks(nodes, mapping)
    requires SameOffsets(es, byId, byValue) && Numbered(mapping, order, 0) && order == Preorder(nodes, |es|, 0)
    requires Written(nodes, mapping, byId, order, rs)
    ensures |rs| == NodeCount(TreeAt(nodes, es, 0))
    ensures rs == NodeRecords(TreeAt(nodes, es, 0), 0, |rs|, byValue)
  {
    forall c, id: nat | 0 <= c < |nodes| && Segment(order, KidOrder(nodes, |es|, c), id)
      ensures Resolve(nodes, mapping, |rs|, byId, c) == RecordOf(KidTree(nodes, es, c), id, |rs|, byValue)
    {
      ResolveIsRecordOf(nodes, es, mapping, |rs|, byId, byValue, c, order, id);
    }
    PreorderCount(nodes, es, 0);
    WrittenIsLinked(nodes, es, mapping, byId, byValue, order, rs, 0, 0);
    LinkedDetermines(rs, TreeAt(nodes, es, 0), byValue);
  }

  // ---- records in use -----------------------------------------------------

  ghost function ValSet(es: seq<Entry>, ids: set<nat>): set<Value>
    requires Closed(es) && forall id | id in ids :: id < |es|
  {
    set id | id in ids :: Val(es, id)
  }

  lemma LeafRecordsOf(nodes: seq<TrieNode>, es: seq<Entry>, i: nat)
    requires ValidPool(es) && Wf(nodes, |es|) && i < |nodes|
    ensures NodeOk(nodes, |es|, i)
    ensures Elems(Database.LeafRecords(TreeAt(nodes, es, i))) ==
      if !IsLeaf(nodes[i]) then
        Elems(Database.LeafRecords(KidTree(nodes, es, nodes[i].left)))
        + Elems(Database.LeafRecords(KidTree(nodes, es, nodes[i].right)))
      else if nodes[i].data == 0 then {}
      else {Val(es, nodes[i].data)}
  {
    assert NodeOk(nodes, |es|, i);
    if IsLeaf(nodes[i]) { IdIffContent(es, nodes[i].data, 0); } else { TreeOfFork(nodes, es, i); }
  }
}
