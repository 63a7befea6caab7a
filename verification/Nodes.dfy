/**
 The trie held in a vector of nodes. A child always has a larger index than its
 parent and index 0 stands for "no child", so every node denotes an inductive
 tree; nodes are not shared, so updating a subtree changes its ancestors only
 along the path to it.
 */
module Nodes {
  import opened ContentOrder
  import opened PoolModel
  import opened Trie

  datatype TrieNode = TrieNode(left: nat, right: nat, data: nat)

  const FRESH := TrieNode(0, 0, 0)

  function Kid(n: TrieNode, bit: bool): nat {
    if bit then n.right else n.left
  }

  function SetKid(n: TrieNode, bit: bool, c: nat): TrieNode {
    if bit then n.(right := c) else n.(left := c)
  }

  predicate IsLeaf(n: TrieNode) {
    n.left == 0 && n.right == 0
  }

  /** Children lie above their parent, and a node with a child carries no data. */
  ghost predicate NodeOk(nodes: seq<TrieNode>, size: nat, i: nat) {
    && i < |nodes|
    && (nodes[i].left == 0 || i < nodes[i].left < |nodes|)
    && (nodes[i].right == 0 || i < nodes[i].right < |nodes|)
    && nodes[i].data < size
    && (IsLeaf(nodes[i]) || nodes[i].data == 0)
  }

  ghost predicate Wf(nodes: seq<TrieNode>, size: nat) {
    forall i | 0 <= i < |nodes| :: NodeOk(nodes, size, i)
  }

  /** The tree below a node. */
  ghost function TreeAt(nodes: seq<TrieNode>, es: seq<Entry>, i: nat): (t: Tree)
    requires Closed(es) && Wf(nodes, |es|) && i < |nodes|
    ensures !t.Absent?
    ensures t.Fork? <==> !IsLeaf(nodes[i])
    decreases |nodes| - i
  {
    assert NodeOk(nodes, |es|, i);
    if IsLeaf(nodes[i]) then Leaf(Val(es, nodes[i].data))
    else
      Fork(if nodes[i].left == 0 then Absent else TreeAt(nodes, es, nodes[i].left),
           if nodes[i].right == 0 then Absent else TreeAt(nodes, es, nodes[i].right))
  }

  ghost function KidTree(nodes: seq<TrieNode>, es: seq<Entry>, c: nat): Tree
    requires Closed(es) && Wf(nodes, |es|) && c < |nodes|
  {
    if c == 0 then Absent else TreeAt(nodes, es, c)
  }

  lemma TreeOfFork(nodes: seq<TrieNode>, es: seq<Entry>, i: nat)
    requires Closed(es) && Wf(nodes, |es|) && i < |nodes| && !IsLeaf(nodes[i])
    ensures nodes[i].left < |nodes| && nodes[i].right < |nodes|
    ensures TreeAt(nodes, es, i)
         == Fork(KidTree(nodes, es, nodes[i].left), KidTree(nodes, es, nodes[i].right))
  {
    assert NodeOk(nodes, |es|, i);
  }

  /** The nodes of the subtree. */
  ghost function Reach(nodes: seq<TrieNode>, size: nat, i: nat): (r: set<nat>)
    requires Wf(nodes, size) && i < |nodes|
    ensures i in r
    ensures forall k | k in r :: i <= k < |nodes|
    decreases |nodes| - i
  {
    assert NodeOk(nodes, size, i);
    {i}
    + (if nodes[i].left == 0 then {} else Reach(nodes, size, nodes[i].left))
    + (if nodes[i].right == 0 then {} else Reach(nodes, size, nodes[i].right))
  }

  ghost function KidReach(nodes: seq<TrieNode>, size: nat, c: nat): set<nat>
    requires Wf(nodes, size) && c < |nodes|
  {
    if c == 0 then {} else Reach(nodes, size, c)
  }

  /** No node of the subtree is shared. */
  ghost predicate Separate(nodes: seq<TrieNode>, size: nat, i: nat)
    requires Wf(nodes, size) && i < |nodes|
    decreases |nodes| - i
  {
    assert NodeOk(nodes, size, i);
    && KidReach(nodes, size, nodes[i].left) !! KidReach(nodes, size, nodes[i].right)
    && (nodes[i].left == 0 || Separate(nodes, size, nodes[i].left))
    && (nodes[i].right == 0 || Separate(nodes, size, nodes[i].right))
  }

  /** Nothing outside the subtree of `i` changed; new nodes may have been added. */
  ghost predicate Within(nodes: seq<TrieNode>, nodes': seq<TrieNode>, size: nat, i: nat)
    requires Wf(nodes, size) && i < |nodes|
  {
    |nodes| <= |nodes'| &&
    forall k | 0 <= k < |nodes| && k !in Reach(nodes, size, i) :: nodes'[k] == nodes[k]
  }

  /** The subtree of `i` is unshared and uses only its old nodes and new ones. */
  ghost predicate Grown(nodes: seq<TrieNode>, size: nat, nodes': seq<TrieNode>, size': nat, i: nat)
    requires Wf(nodes, size) && Wf(nodes', size') && i < |nodes| && |nodes| <= |nodes'|
  {
    Separate(nodes', size', i) &&
    forall k | k in Reach(nodes', size', i) :: k in Reach(nodes, size, i) || k >= |nodes|
  }

  // ---- frames -------------------------------------------------------------

  lemma {:induction false} Frame(nodes: seq<TrieNode>, es: seq<Entry>, nodes': seq<TrieNode>, es': seq<Entry>, i: nat)
    requires Closed(es) && Closed(es') && es <= es'
    requires Wf(nodes, |es|) && Wf(nodes', |es'|) && i < |nodes| <= |nodes'|
    requires forall k | k in Reach(nodes, |es|, i) :: nodes'[k] == nodes[k]
    ensures TreeAt(nodes', es', i) == TreeAt(nodes, es, i)
    ensures Reach(nodes', |es'|, i) == Reach(nodes, |es|, i)
    ensures Separate(nodes, |es|, i) ==> Separate(nodes', |es'|, i)
    decreases |nodes| - i
  {
    assert NodeOk(nodes, |es|, i) && NodeOk(nodes', |es'|, i);
    assert nodes'[i] == nodes[i];
    if IsLeaf(nodes[i]) { ValStableAt(es, es', nodes[i].data); }
    if nodes[i].left != 0 { Frame(nodes, es, nodes', es', nodes[i].left); }
    if nodes[i].right != 0 { Frame(nodes, es, nodes', es', nodes[i].right); }
  }

  // ---- paths --------------------------------------------------------------

  /** Walking the bits `p` from node `i` over existing children ends in node `c`. */
  ghost predicate Walks(nodes: seq<TrieNode>, i: nat, p: Bits, c: nat)
    decreases |p|
  {
    i < |nodes| &&
    if p == [] then c == i else Kid(nodes[i], p[0]) != 0 && Walks(nodes, Kid(nodes[i], p[0]), p[1..], c)
  }

  lemma {:induction false} WalkAt(nodes: seq<TrieNode>, es: seq<Entry>, i: nat, p: Bits, c: nat)
    requires Closed(es) && Wf(nodes, |es|) && Walks(nodes, i, p, c)
    ensures c < |nodes| && HasPath(TreeAt(nodes, es, i), p) && At(TreeAt(nodes, es, i), p) == TreeAt(nodes, es, c)
    ensures Reach(nodes, |es|, c) <= Reach(nodes, |es|, i)
    ensures Separate(nodes, |es|, i) ==> Separate(nodes, |es|, c)
    ensures p != [] ==> c > i
    decreases |p|
  {
    if p != [] {
      assert NodeOk(nodes, |es|, i);
      WalkAt(nodes, es, Kid(nodes[i], p[0]), p[1..], c);
    }
  }

  lemma {:induction false} WalkFurther(nodes: seq<TrieNode>, i: nat, p: Bits, c: nat, q: Bits, e: nat)
    requires Walks(nodes, i, p, c) && Walks(nodes, c, q, e)
    ensures Walks(nodes, i, p + q, e)
    decreases |p|
  {
    if p == [] {
      assert p + q == q;
    } else {
      assert (p + q)[0] == p[0] && (p + q)[1..] == p[1..] + q;
      WalkFurther(nodes, Kid(nodes[i], p[0]), p[1..], c, q, e);
    }
  }

  /** The child that is not on the path keeps its tree. */
  lemma OtherKid(nodes: seq<TrieNode>, es: seq<Entry>, nodes': seq<TrieNode>, es': seq<Entry>, i: nat, bit: bool, c: nat)
    requires Closed(es) && Closed(es') && es <= es'
    requires Wf(nodes, |es|) && Wf(nodes', |es'|) && i < c < |nodes| <= |nodes'|
    requires Separate(nodes, |es|, i) && Kid(nodes[i], bit) != 0
    requires NodeOk(nodes, |es|, i) && Reach(nodes, |es|, c) <= Reach(nodes, |es|, Kid(nodes[i], bit))
    requires Within(nodes, nodes', |es|, c)
    ensures nodes'[i] == nodes[i]
    ensures Kid(nodes[i], !bit) != 0 ==>
      && TreeAt(nodes', es', Kid(nodes[i], !bit)) == TreeAt(nodes, es, Kid(nodes[i], !bit))
      && Reach(nodes', |es'|, Kid(nodes[i], !bit)) == Reach(nodes, |es|, Kid(nodes[i], !bit))
      && Separate(nodes', |es'|, Kid(nodes[i], !bit))
  {
    var other := Kid(nodes[i], !bit);
    if other != 0 {
      forall k | k in Reach(nodes, |es|, other) ensures nodes'[k] == nodes[k] {
        assert k !in Reach(nodes, |es|, Kid(nodes[i], bit));
      }
      Frame(nodes, es, nodes', es', other);
    }
  }

  /** Replacing the subtree at the end of a path replaces it in the tree of the start. */
  lemma {:induction false} PutAtPath(nodes: seq<TrieNode>, es: seq<Entry>, nodes': seq<TrieNode>, es': seq<Entry>,
                                     i: nat, p: Bits, c: nat)
    requires Closed(es) && Closed(es') && es <= es'
    requires Wf(nodes, |es|) && Wf(nodes', |es'|) && Walks(nodes, i, p, c) && Separate(nodes, |es|, i)
    requires c < |nodes| <= |nodes'| && Within(nodes, nodes', |es|, c) && Grown(nodes, |es|, nodes', |es'|, c)
    ensures Walks(nodes', i, p, c) && HasPath(TreeAt(nodes, es, i), p)
    ensures TreeAt(nodes', es', i) == Put(TreeAt(nodes, es, i), p, TreeAt(nodes', es', c))
    ensures Within(nodes, nodes', |es|, i) && Grown(nodes, |es|, nodes', |es'|, i)
    decreases |p|
  {
    WalkAt(nodes, es, i, p, c);
    if p != [] {
      var bit := p[0];
      var k := Kid(nodes[i], bit);
      assert NodeOk(nodes, |es|, i);
      WalkAt(nodes, es, k, p[1..], c);
      PutAtPath(nodes, es, nodes', es', k, p[1..], c);
      OtherKid(nodes, es, nodes', es', i, bit, c);
      assert NodeOk(nodes', |es'|, i);
      PutKid(nodes, es, nodes', es', i, bit);
    }
  }

  lemma PutKid(nodes: seq<TrieNode>, es: seq<Entry>, nodes': seq<TrieNode>, es': seq<Entry>, i: nat, bit: bool)
    requires Closed(es) && Closed(es') && Wf(nodes, |es|) && Wf(nodes', |es'|) && i < |nodes| <= |nodes'|
    requires NodeOk(nodes, |es|, i) && NodeOk(nodes', |es'|, i) && nodes'[i] == nodes[i]
    requires Separate(nodes, |es|, i) && Kid(nodes[i], bit) != 0
    requires Grown(nodes, |es|, nodes', |es'|, Kid(nodes[i], bit))
    requires Kid(nodes[i], !bit) != 0 ==>
      && TreeAt(nodes', es', Kid(nodes[i], !bit)) == TreeAt(nodes, es, Kid(nodes[i], !bit))
      && Reach(nodes', |es'|, Kid(nodes[i], !bit)) == Reach(nodes, |es|, Kid(nodes[i], !bit))
      && Separate(nodes', |es'|, Kid(nodes[i], !bit))
    ensures TreeAt(nodes', es', i)
         == WithChild(TreeAt(nodes, es, i), bit, TreeAt(nodes', es', Kid(nodes[i], bit)))
    ensures Grown(nodes, |es|, nodes', |es'|, i)
  {
  }

  // ---- updates of single nodes --------------------------------------------

  lemma WfStays(nodes: seq<TrieNode>, size: nat, nodes': seq<TrieNode>, size': nat, c: nat)
    requires Wf(nodes, size) && size <= size' && c < |nodes| <= |nodes'|
    requires forall k | 0 <= k < |nodes| && k != c :: nodes'[k] == nodes[k]
    requires NodeOk(nodes', size', c)
    requires forall k | |nodes| <= k < |nodes'| :: IsLeaf(nodes'[k]) && nodes'[k].data < size'
    ensures Wf(nodes', size')
  {
    forall k | 0 <= k < |nodes'| ensures NodeOk(nodes', size', k) {
      if k < |nodes| && k != c { assert NodeOk(nodes, size, k) && nodes'[k] == nodes[k]; }
    }
  }

  lemma LeafTree(nodes: seq<TrieNode>, es: seq<Entry>, i: nat)
    requires Closed(es) && Wf(nodes, |es|) && i < |nodes| && IsLeaf(nodes[i])
    ensures NodeOk(nodes, |es|, i) && TreeAt(nodes, es, i) == Leaf(Val(es, nodes[i].data))
    ensures Reach(nodes, |es|, i) == {i} && Separate(nodes, |es|, i)
  {
    assert NodeOk(nodes, |es|, i);
  }

  /** Writing the record of a leaf, or turning a node into a leaf. */
  lemma SetLeaf(nodes: seq<TrieNode>, es: seq<Entry>, es': seq<Entry>, c: nat, d: nat)
    requires Closed(es) && Closed(es') && es <= es' && Wf(nodes, |es|) && c < |nodes| && d < |es'|
    ensures var nodes' := nodes[c := TrieNode(0, 0, d)];
      && Wf(nodes', |es'|) && Within(nodes, nodes', |es|, c) && Grown(nodes, |es|, nodes', |es'|, c)
      && TreeAt(nodes', es', c) == Leaf(Val(es', d))
  {
    var nodes' := nodes[c := TrieNode(0, 0, d)];
    WfStays(nodes, |es|, nodes', |es'|, c);
    LeafTree(nodes', es', c);
  }

  /** A leaf with data passes its data to two new children. */
  lemma SplitLeaf(nodes: seq<TrieNode>, es: seq<Entry>, c: nat)
    requires ValidPool(es) && Wf(nodes, |es|) && c < |nodes| && nodes[c].data != 0
    ensures var d := nodes[c].data;
      var nodes' := nodes[c := TrieNode(|nodes|, |nodes| + 1, 0)] + [TrieNode(0, 0, d), TrieNode(0, 0, d)];
      && Wf(nodes', |es|) && Within(nodes, nodes', |es|, c) && Grown(nodes, |es|, nodes', |es|, c)
      && TreeAt(nodes', es, c) == Split(TreeAt(nodes, es, c))
  {
    var d, m := nodes[c].data, |nodes|;
    var nodes' := nodes[c := TrieNode(m, m + 1, 0)] + [TrieNode(0, 0, d), TrieNode(0, 0, d)];
    assert NodeOk(nodes, |es|, c);
    assert NodeOk(nodes', |es|, c);
    WfStays(nodes, |es|, nodes', |es|, c);
    LeafTree(nodes, es, c);
    LeafTree(nodes', es, m);
    LeafTree(nodes', es, m + 1);
    IdIffContent(es, d, 0);
    TreeOfFork(nodes', es, c);
  }

  /** A missing child is created as a leaf with data `d`. */
  lemma AddKid(nodes: seq<TrieNode>, es: seq<Entry>, c: nat, bit: bool, d: nat)
    requires ValidPool(es) && Wf(nodes, |es|) && c < |nodes| && Separate(nodes, |es|, c)
    requires nodes[c].data == 0 && Kid(nodes[c], bit) == 0 && d < |es|
    ensures var nodes' := nodes[c := SetKid(nodes[c], bit, |nodes|)] + [TrieNode(0, 0, d)];
      && Wf(nodes', |es|) && Within(nodes, nodes', |es|, c) && Grown(nodes, |es|, nodes', |es|, c)
      && TreeAt(nodes', es, c) == WithChild(Split(TreeAt(nodes, es, c)), bit, Leaf(Val(es, d)))
  {
    var m, other := |nodes|, Kid(nodes[c], !bit);
    var nodes' := nodes[c := SetKid(nodes[c], bit, m)] + [TrieNode(0, 0, d)];
    assert NodeOk(nodes, |es|, c);
    assert NodeOk(nodes', |es|, c);
    WfStays(nodes, |es|, nodes', |es|, c);
    LeafTree(nodes', es, m);
    if other != 0 {
      Frame(nodes, es, nodes', es, other);
      TreeOfFork(nodes, es, c);
    } else {
      LeafTree(nodes, es, c);
    }
    TreeOfFork(nodes', es, c);
  }

  lemma KidWalks(nodes: seq<TrieNode>, c: nat, bit: bool)
    requires c < |nodes| && Kid(nodes[c], bit) != 0 && Kid(nodes[c], bit) < |nodes|
    ensures Walks(nodes, c, [bit], Kid(nodes[c], bit))
  {
    assert [bit][1..] == [];
    assert Walks(nodes, Kid(nodes[c], bit), [], Kid(nodes[c], bit));
  }

  lemma GrowOne(t: Tree, bit: bool)
    requires t.Fork? && !Child(t, bit).Absent?
    ensures Grow(t, [bit]) == t
  {
    assert [bit][1..] == [];
  }

  lemma GrowOneMissing(t: Tree, bit: bool)
    requires Child(Split(t), bit).Absent?
    ensures Grow(t, [bit]) == WithChild(Split(t), bit, Leaf(Null))
  {
    assert [bit][1..] == [];
  }

  lemma GrownTrans(nodes: seq<TrieNode>, s: nat, nodes1: seq<TrieNode>, s1: nat, nodes2: seq<TrieNode>, s2: nat, c: nat)
    requires Wf(nodes, s) && Wf(nodes1, s1) && Wf(nodes2, s2) && c < |nodes| <= |nodes1| <= |nodes2|
    requires Within(nodes, nodes1, s, c) && Grown(nodes, s, nodes1, s1, c)
    requires Within(nodes1, nodes2, s1, c) && Grown(nodes1, s1, nodes2, s2, c)
    ensures Within(nodes, nodes2, s, c) && Grown(nodes, s, nodes2, s2, c)
  {
  }
}
