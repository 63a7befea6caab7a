/** The mutable builder: node vector, value pool and the ::/96 shortcut. */
module BuilderModel {
  import opened Bytes
  import opened ContentOrder
  import opened RecordMerge
  import opened PoolModel
  import opened Pool
  import opened Trie
  import opened Nodes
  import opened DataFormat
  import opened DataSection
  import opened SearchTree
  import opened Numbering
  import opened Database

  const WIDTH := 128
  const V4_OFFSET := 96

  /** A parsed network: 16 address bytes, a prefix length and a record id. */
  datatype NetworkEntry = NetworkEntry(bits: seq<byte>, prefixLen: nat, data: nat)

  /** (bits[depth / 8] >> (7 - depth % 8)) & 1. */
  function BitAt(bits: seq<byte>, depth: nat): bool
    requires depth < 8 * |bits|
  {
    bits[depth / 8] / Pow2(7 - depth % 8) % 2 == 1
  }

  /** The bits of an address from one depth to another, most significant first. */
  function Path(bits: seq<byte>, lo: nat, hi: nat): (p: Bits)
    requires lo <= hi <= 8 * |bits|
    ensures |p| == hi - lo
  {
    seq(hi - lo, i requires 0 <= i < hi - lo => BitAt(bits, lo + i))
  }

  const ZERO_BITS: seq<byte> := [0, 0, 0, 0, 0, 0, 0, 0, 0, 0, 0, 0, 0, 0, 0, 0]

  ghost function V4Path(): Bits {
    Path(ZERO_BITS, 0, V4_OFFSET)
  }

  lemma ZeroPrefixPath(bits: seq<byte>)
    requires |bits| == 16 && forall i | 0 <= i < 12 :: bits[i] == 0
    ensures Path(bits, 0, V4_OFFSET) == V4Path()
  {
    forall i | 0 <= i < V4_OFFSET ensures BitAt(bits, i) == BitAt(ZERO_BITS, i) {
      assert i / 8 < 12;
    }
  }

  lemma PathSplit(bits: seq<byte>, lo: nat, mid: nat, hi: nat)
    requires lo <= mid <= hi <= 8 * |bits|
    ensures Path(bits, lo, hi) == Path(bits, lo, mid) + Path(bits, mid, hi)
  {
  }

  lemma PathSnoc(bits: seq<byte>, lo: nat, hi: nat)
    requires lo <= hi < 8 * |bits|
    ensures Path(bits, lo, hi + 1) == Path(bits, lo, hi) + [BitAt(bits, hi)]
  {
  }

  /** Children that exist are never replaced. */
  ghost predicate KidsKept(nodes: seq<TrieNode>, nodes': seq<TrieNode>) {
    |nodes| <= |nodes'| &&
    forall k, bit | 0 <= k < |nodes| && Kid(nodes[k], bit) != 0 :: Kid(nodes'[k], bit) == Kid(nodes[k], bit)
  }

  lemma {:induction false} WalksKept(nodes: seq<TrieNode>, nodes': seq<TrieNode>, i: nat, p: Bits, c: nat)
    requires KidsKept(nodes, nodes') && Walks(nodes, i, p, c)
    ensures Walks(nodes', i, p, c)
    decreases |p|
  {
    if p != [] { WalksKept(nodes, nodes', Kid(nodes[i], p[0]), p[1..], c); }
  }

  /** The whole effect of an update below node `c`. */
  ghost predicate Updated(nodes: seq<TrieNode>, size: nat, nodes': seq<TrieNode>, size': nat, c: nat) {
    && Wf(nodes, size) && Wf(nodes', size') && c < |nodes| <= |nodes'|
    && Within(nodes, nodes', size, c) && Grown(nodes, size, nodes', size', c)
    && KidsKept(nodes, nodes')
  }

  lemma UpdatedTrans(nodes: seq<TrieNode>, s: nat, nodes1: seq<TrieNode>, s1: nat, nodes2: seq<TrieNode>, s2: nat, c: nat)
    requires Updated(nodes, s, nodes1, s1, c) && Updated(nodes1, s1, nodes2, s2, c)
    ensures Updated(nodes, s, nodes2, s2, c)
  {
    GrownTrans(nodes, s, nodes1, s1, nodes2, s2, c);
  }

  lemma UpdatedPath(nodes: seq<TrieNode>, es: seq<Entry>, nodes': seq<TrieNode>, es': seq<Entry>, i: nat, p: Bits, c: nat)
    requires Closed(es) && Closed(es') && es <= es' && Updated(nodes, |es|, nodes', |es'|, c)
    requires Walks(nodes, i, p, c) && Separate(nodes, |es|, i)
    ensures Updated(nodes, |es|, nodes', |es'|, i) && Walks(nodes', i, p, c)
    ensures HasPath(TreeAt(nodes, es, i), p)
    ensures TreeAt(nodes', es', i) == Put(TreeAt(nodes, es, i), p, TreeAt(nodes', es', c))
  {
    PutAtPath(nodes, es, nodes', es', i, p, c);
  }

  class Builder {
    const ipVersion: nat
    const pool: DataPool
    var nodes: seq<TrieNode>
    var ipv4Root: nat
    /** Offsets of the values already serialized, by id. */
    var emitted: map<nat, u32>
    /** Networks inserted so far, by content. */
    ghost var history: seq<Network>

    ghost predicate TrieOk()
      reads this, pool
    {
      pool.Valid() && Wf(nodes, |pool.entries|)
    }

    ghost predicate Valid()
      reads this, pool
    {
      && TrieOk() && |nodes| > 0 && Separate(nodes, |pool.entries|, 0)
      && TreeAt(nodes, pool.entries, 0) == InsertAll(pool.rowSortKey, history)
      && PrefixesWithin(history, WIDTH)
      && (ipv4Root == 0 || Walks(nodes, 0, V4Path(), ipv4Root))
    }

    constructor (version: nat, sortKey: Key)
      ensures Valid() && history == [] && ipVersion == version && pool.rowSortKey == sortKey && fresh(pool)
    {
      ipVersion := version;
      pool := new DataPool(sortKey);
      nodes := [FRESH];
      ipv4Root := 0;
      emitted := map[];
      history := [];
      new;
      assert NodeOk(nodes, 1, 0);
      LeafTree(nodes, pool.entries, 0);
    }

    method AllocNode() returns (idx: nat)
      modifies this`nodes
      ensures idx == old(|nodes|) && nodes == old(nodes) + [FRESH]
    {
      idx := |nodes|;
      nodes := nodes + [FRESH];
    }

    /** Moves the data of a node to two new children, so that it can have children. */
    method SplitNode(current: nat)
      requires TrieOk() && current < |nodes| && Separate(nodes, |pool.entries|, current)
      modifies this`nodes
      ensures TrieOk() && Updated(old(nodes), |pool.entries|, nodes, |pool.entries|, current)
      ensures nodes[current].data == 0
      ensures Split(TreeAt(nodes, pool.entries, current)) == Split(old(TreeAt(nodes, pool.entries, current)))
    {
      ghost var es, nodes0 := pool.entries, nodes;
      assert NodeOk(nodes, |es|, current);
      if nodes[current].data != 0 {
        SplitLeaf(nodes, es, current);
        WriteSplit(current);
      }
    }

    method WriteSplit(current: nat)
      requires current < |nodes| && IsLeaf(nodes[current])
      modifies this`nodes
      ensures var n, d := old(|nodes|), old(nodes[current].data);
        nodes == old(nodes)[current := TrieNode(n, n + 1, 0)] + [TrieNode(0, 0, d), TrieNode(0, 0, d)]
    {
      ghost var nodes0 := nodes;
      var d := nodes[current].data;
      nodes := nodes[current := nodes[current].(data := 0)];
      var c0 := AllocNode();
      nodes := nodes[current := nodes[current].(left := c0)];
      nodes := nodes[c0 := nodes[c0].(data := d)];
      var c1 := AllocNode();
      nodes := nodes[current := nodes[current].(right := c1)];
      nodes := nodes[c1 := nodes[c1].(data := d)];
      SplitWrites(nodes0, current, d, nodes);
    }

    /** Steps into a child, creating it when it is missing. */
    method StepInto(current: nat, bit: bool) returns (next: nat)
      requires TrieOk() && current < |nodes| && Separate(nodes, |pool.entries|, current)
      requires nodes[current].data == 0
      modifies this`nodes
      ensures TrieOk() && Updated(old(nodes), |pool.entries|, nodes, |pool.entries|, current)
      ensures Walks(nodes, current, [bit], next)
      ensures TreeAt(nodes, pool.entries, current) == Grow(old(TreeAt(nodes, pool.entries, current)), [bit])
    {
      ghost var es, nodes0 := pool.entries, nodes;
      assert NodeOk(nodes, |es|, current);
      if Kid(nodes[current], bit) == 0 {
        MissingKid(nodes, es, current, bit);
        AddKid(nodes, es, current, bit, 0);
        var c := AllocNode();
        nodes := nodes[current := SetKid(nodes[current], bit, c)];
        assert nodes == nodes0[current := SetKid(nodes0[current], bit, |nodes0|)] + [TrieNode(0, 0, 0)];
      } else {
        TreeOfFork(nodes, es, current);
        GrowOne(TreeAt(nodes, es, current), bit);
      }
      next := Kid(nodes[current], bit);
      assert NodeOk(nodes, |es|, current);
      KidWalks(nodes, current, bit);
    }

    /** One hop of descend: split a leaf with data, create the child if missing, step into it. */
    method DescendStep(current: nat, bit: bool) returns (next: nat)
      requires TrieOk() && current < |nodes| && Separate(nodes, |pool.entries|, current)
      modifies this`nodes
      ensures TrieOk() && Updated(old(nodes), |pool.entries|, nodes, |pool.entries|, current)
      ensures Walks(nodes, current, [bit], next)
      ensures TreeAt(nodes, pool.entries, current) == Grow(old(TreeAt(nodes, pool.entries, current)), [bit])
    {
      ghost var s, nodes0 := |pool.entries|, nodes;
      SplitNode(current);
      ghost var nodes1 := nodes;
      GrowSplit(TreeAt(nodes0, pool.entries, current), TreeAt(nodes1, pool.entries, current), bit);
      next := StepInto(current, bit);
      UpdatedTrans(nodes0, s, nodes1, s, nodes, s, current);
    }

    /** Walks `bits` from a node down to `toDepth`, creating and splitting nodes as needed. */
    method Descend(from: nat, fromDepth: nat, bits: seq<byte>, toDepth: nat) returns (current: nat)
      requires TrieOk() && from < |nodes| && Separate(nodes, |pool.entries|, from)
      requires |bits| == 16 && fromDepth <= toDepth <= WIDTH
      modifies this`nodes
      ensures TrieOk() && Updated(old(nodes), |pool.entries|, nodes, |pool.entries|, from)
      ensures Walks(nodes, from, Path(bits, fromDepth, toDepth), current)
      ensures TreeAt(nodes, pool.entries, from)
           == Grow(old(TreeAt(nodes, pool.entries, from)), Path(bits, fromDepth, toDepth))
    {
      ghost var es, nodes0 := pool.entries, nodes;
      current := from;
      for depth := fromDepth to toDepth
        invariant TrieOk() && Updated(nodes0, |es|, nodes, |es|, from)
        invariant Walks(nodes, from, Path(bits, fromDepth, depth), current)
        invariant TreeAt(nodes, es, from) == Grow(TreeAt(nodes0, es, from), Path(bits, fromDepth, depth))
      {
        ghost var p, nodes1 := Path(bits, fromDepth, depth), nodes;
        WalkAt(nodes1, es, from, p, current);
        var next := DescendStep(current, BitAt(bits, depth));
        DescendFurther(nodes0, nodes1, nodes, es, from, p, current, BitAt(bits, depth), next);
        PathSnoc(bits, fromDepth, depth);
        current := next;
      }
    }

    /** Merges a record into every leaf of a subtree, filling its missing children. */
    method MergeSubtree(i: nat, d: nat)
      requires TrieOk() && i < |nodes| && Separate(nodes, |pool.entries|, i) && d < |pool.entries|
      modifies this`nodes, pool
      ensures TrieOk() && old(pool.entries) <= pool.entries
      ensures Updated(old(nodes), old(|pool.entries|), nodes, |pool.entries|, i)
      ensures TreeAt(nodes, pool.entries, i)
           == Overlay(pool.rowSortKey, old(TreeAt(nodes, pool.entries, i)), old(Val(pool.entries, d)))
      decreases TreeAt(nodes, pool.entries, i), 1
    {
      ghost var es0, nodes0 := pool.entries, nodes;
      if nodes[i].left == 0 && nodes[i].right == 0 {
        MergeLeaf(i, d);
      } else {
        TreeOfFork(nodes, es0, i);
        MergeChild(i, false, d);
        ghost var es1, nodes1 := pool.entries, nodes;
        ValStableAt(es0, es1, d);
        MergeChild(i, true, d);
        UpdatedTrans(nodes0, |es0|, nodes1, |es1|, nodes, |pool.entries|, i);
      }
    }

    method MergeLeaf(i: nat, d: nat)
      requires TrieOk() && i < |nodes| && IsLeaf(nodes[i]) && d < |pool.entries|
      modifies this`nodes, pool
      ensures TrieOk() && old(pool.entries) <= pool.entries
      ensures Updated(old(nodes), old(|pool.entries|), nodes, |pool.entries|, i)
      ensures TreeAt(nodes, pool.entries, i)
           == Overlay(pool.rowSortKey, old(TreeAt(nodes, pool.entries, i)), old(Val(pool.entries, d)))
    {
      ghost var es0 := pool.entries;
      LeafTree(nodes, es0, i);
      var existing := nodes[i].data;
      IdIffContent(es0, existing, d);
      var merged := d;
      if existing != 0 && existing != d {
        merged := pool.DeepMerge(existing, d);
      }
      SetLeaf(nodes, es0, pool.entries, i, merged);
      nodes := nodes[i := nodes[i].(data := merged)];
    }

    method MergeChild(i: nat, bit: bool, d: nat)
      requires TrieOk() && i < |nodes| && Separate(nodes, |pool.entries|, i) && d < |pool.entries|
      requires !IsLeaf(nodes[i])
      modifies this`nodes, pool
      ensures TrieOk() && old(pool.entries) <= pool.entries
      ensures Updated(old(nodes), old(|pool.entries|), nodes, |pool.entries|, i) && !IsLeaf(nodes[i])
      ensures var t := old(TreeAt(nodes, pool.entries, i));
        TreeAt(nodes, pool.entries, i)
          == WithChild(t, bit, Overlay(pool.rowSortKey, Child(t, bit), old(Val(pool.entries, d))))
      decreases Child(TreeAt(nodes, pool.entries, i), bit), 2
    {
      ghost var es0, nodes0 := pool.entries, nodes;
      TreeOfFork(nodes, es0, i);
      assert NodeOk(nodes, |es0|, i);
      if Kid(nodes[i], bit) == 0 {
        AddKid(nodes, es0, i, bit, d);
        var c := AllocNode();
        nodes := nodes[i := SetKid(nodes[i], bit, c)];
        nodes := nodes[c := nodes[c].(data := d)];
        assert nodes == nodes0[i := SetKid(nodes0[i], bit, |nodes0|)] + [TrieNode(0, 0, d)];
      } else {
        var c := Kid(nodes[i], bit);
        KidWalks(nodes, i, bit);
        WalkAt(nodes, es0, i, [bit], c);
        MergeSubtree(c, d);
        UpdatedPath(nodes0, es0, nodes, pool.entries, i, [bit], c);
        PutOne(TreeAt(nodes0, es0, i), bit, TreeAt(nodes, pool.entries, c));
      }
    }

    /** Inserts one network, skipping the 96 shared hops of IPv4 networks once their node exists. */
    method InsertBits(bits: seq<byte>, prefixLen: nat, d: nat)
      requires Valid() && |bits| == 16 && prefixLen <= WIDTH && d < |pool.entries|
      modifies this, pool
      ensures Valid() && old(pool.entries) <= pool.entries
      ensures history == old(history) + [Network(Path(bits, 0, prefixLen), old(Val(pool.entries, d)))]
    {
      ghost var es0, t0, p := pool.entries, TreeAt(nodes, pool.entries, 0), Path(bits, 0, prefixLen);
      var node := Locate(bits, prefixLen);
      ghost var nodes1 := nodes;
      WalkAt(nodes1, es0, 0, p, node);
      MergeSubtree(node, d);
      UpdatedPath(nodes1, es0, nodes, pool.entries, 0, p, node);
      InsertIsGrowThenOverlay(pool.rowSortKey, t0, p, Val(es0, d));
      if ipv4Root != 0 { WalksKept(nodes1, nodes, 0, V4Path(), ipv4Root); }
      HistorySnoc(pool.rowSortKey, history, Network(p, Val(es0, d)));
      history := history + [Network(p, Val(es0, d))];
    }

    /** The node of a prefix: the same whether or not the shortcut is taken. */
    method Locate(bits: seq<byte>, prefixLen: nat) returns (node: nat)
      requires Valid() && |bits| == 16 && prefixLen <= WIDTH
      modifies this`nodes, this`ipv4Root
      ensures TrieOk() && |nodes| > 0 && Separate(nodes, |pool.entries|, 0)
      ensures Walks(nodes, 0, Path(bits, 0, prefixLen), node)
      ensures TreeAt(nodes, pool.entries, 0)
           == Grow(old(TreeAt(nodes, pool.entries, 0)), Path(bits, 0, prefixLen))
      ensures ipv4Root == 0 || Walks(nodes, 0, V4Path(), ipv4Root)
    {
      ghost var es, nodes0, p := pool.entries, nodes, Path(bits, 0, prefixLen);
      if ipVersion == 6 && prefixLen >= V4_OFFSET && bits[..12] == ZERO_BITS[..12] {
        assert forall i | 0 <= i < 12 :: bits[i] == bits[..12][i] == ZERO_BITS[..12][i];
        ZeroPrefixPath(bits);
        PathSplit(bits, 0, V4_OFFSET, prefixLen);
        EnterV4();
        ghost var nodes1 := nodes;
        WalkAt(nodes1, es, 0, V4Path(), ipv4Root);
        node := Descend(ipv4Root, V4_OFFSET, bits, prefixLen);
        UpdatedPath(nodes1, es, nodes, es, 0, V4Path(), ipv4Root);
        GrowTwice(TreeAt(nodes0, es, 0), V4Path(), Path(bits, V4_OFFSET, prefixLen));
        WalkFurther(nodes, 0, V4Path(), ipv4Root, Path(bits, V4_OFFSET, prefixLen), node);
      } else {
        node := Descend(0, 0, bits, prefixLen);
        if ipv4Root != 0 { WalksKept(nodes0, nodes, 0, V4Path(), ipv4Root); }
      }
    }

    /** The ::/96 node is created once and remembered. */
    method EnterV4()
      requires Valid()
      modifies this`nodes, this`ipv4Root
      ensures TrieOk() && |nodes| > 0 && Separate(nodes, |pool.entries|, 0)
      ensures Walks(nodes, 0, V4Path(), ipv4Root)
      ensures TreeAt(nodes, pool.entries, 0) == Grow(old(TreeAt(nodes, pool.entries, 0)), V4Path())
    {
      if ipv4Root == 0 {
        ipv4Root := Descend(0, 0, ZERO_BITS, V4_OFFSET);
      } else {
        WalkAt(nodes, pool.entries, 0, V4Path(), ipv4Root);
        GrowExisting(TreeAt(nodes, pool.entries, 0), V4Path());
      }
    }

    /** Stores a record for later networks; the trie keeps its meaning. */
    method StoreData(v: Value) returns (id: nat)
      requires Valid() && Storable(v)
      modifies pool
      ensures Valid() && old(pool.entries) <= pool.entries
      ensures id < |pool.entries| && Val(pool.entries, id) == v
    {
      ghost var es := pool.entries;
      id := pool.Store(v);
      assert NodeOk(nodes, |es|, 0);
      WfStays(nodes, |es|, nodes, |pool.entries|, 0);
      Frame(nodes, es, nodes, pool.entries, 0);
    }

    /** Inserts a batch of parsed networks in order. */
    method InsertParsed(batch: seq<NetworkEntry>)
      requires Valid()
      requires BatchOk(|pool.entries|, batch)
      modifies this, pool
      ensures Valid() && old(pool.entries) <= pool.entries
      ensures history == old(history) + old(Networks(pool.entries, batch))
    {
      ghost var es0, h0 := pool.entries, history;
      ghost var ns := Networks(es0, batch);
      for k := 0 to |batch|
        invariant Valid() && es0 <= pool.entries
        invariant history == h0 + ns[..k]
      {
        ValStableAt(es0, pool.entries, batch[k].data);
        InsertBits(batch[k].bits, batch[k].prefixLen, batch[k].data);
        TakeMore(h0, ns, k);
      }
      assert ns[..|batch|] == ns;
    }

    // ---- build: pruning ---------------------------------------------------

    /**
     Collapses equal sibling leaves bottom-up and returns the record id of the node if it is
     a leaf now. The depth limit only decides which calls run as separate tasks.
     */
    method PruneTree(i: nat, depthLimit: nat) returns (d: nat)
      requires TrieOk() && i < |nodes| && Separate(nodes, |pool.entries|, i)
      modifies this`nodes
      ensures TrieOk() && |nodes| == old(|nodes|) && d < |pool.entries|
      ensures Within(old(nodes), nodes, |pool.entries|, i)
      ensures Grown(old(nodes), |pool.entries|, nodes, |pool.entries|, i)
      ensures TreeAt(nodes, pool.entries, i) == Prune(old(TreeAt(nodes, pool.entries, i)))
      ensures d == if IsLeaf(nodes[i]) then nodes[i].data else 0
      decreases TreeAt(nodes, pool.entries, i), 1
    {
      ghost var es, nodes0 := pool.entries, nodes;
      ghost var s := |es|;
      assert NodeOk(nodes, s, i);
      if IsLeaf(nodes[i]) { return nodes[i].data; }
      var limit := if depthLimit > 0 then depthLimit - 1 else 0;
      var d0 := PruneChild(i, false, limit);
      ghost var nodes1 := nodes;
      var d1 := PruneChild(i, true, limit);
      GrownTrans(nodes0, s, nodes1, s, nodes, s, i);
      ghost var nodes2 := nodes;
      assert NodeOk(nodes, s, i);
      TreeOfFork(nodes, es, i);
      PrunedTwins(nodes, es, i, d0, d1);
      d := 0;
      if d0 != 0 && d1 != 0 && d0 == d1 {
        SetLeaf(nodes, es, es, i, d0);
        nodes := nodes[i := TrieNode(0, 0, d0)];
        GrownTrans(nodes0, s, nodes2, s, nodes, s, i);
        d := d0;
      }
    }

    method PruneChild(i: nat, bit: bool, depthLimit: nat) returns (d: nat)
      requires TrieOk() && i < |nodes| && Separate(nodes, |pool.entries|, i) && !IsLeaf(nodes[i])
      modifies this`nodes
      ensures TrieOk() && |nodes| == old(|nodes|) && nodes[i] == old(nodes[i])
      ensures Within(old(nodes), nodes, |pool.entries|, i)
      ensures Grown(old(nodes), |pool.entries|, nodes, |pool.entries|, i)
      ensures var t := old(TreeAt(nodes, pool.entries, i));
        TreeAt(nodes, pool.entries, i) == WithChild(t, bit, Prune(Child(t, bit)))
      ensures d == LeafId(nodes, Kid(nodes[i], bit))
      ensures forall k | 0 <= k < |nodes| && k != i && k !in old(KidReachOf(nodes, |pool.entries|, i, bit)) ::
        nodes[k] == old(nodes[k])
      decreases Child(TreeAt(nodes, pool.entries, i), bit), 2
    {
      ghost var es, nodes0 := pool.entries, nodes;
      assert NodeOk(nodes, |es|, i);
      TreeOfFork(nodes, es, i);
      var c := Kid(nodes[i], bit);
      d := 0;
      if c != 0 {
        KidWalks(nodes, i, bit);
        WalkAt(nodes, es, i, [bit], c);
        d := PruneTree(c, depthLimit);
        PutAtPath(nodes0, es, nodes, es, i, [bit], c);
        PutOne(TreeAt(nodes0, es, i), bit, TreeAt(nodes, es, c));
      }
    }

    // ---- build: numbering -------------------------------------------------

    /** Numbers the internal nodes of a subtree in preorder. */
    method AssignNodeIds(i: nat, nextId: nat, mapping: Numbers, ordered: seq<nat>)
      returns (nextId': nat, mapping': Numbers, ordered': seq<nat>)
      requires TrieOk() && i < |nodes| && Separate(nodes, |pool.entries|, i)
      requires nextId == |ordered| && Numbered(mapping, ordered, 0) && mapping.Keys == Elems(ordered)
      requires mapping.Keys !! Reach(nodes, |pool.entries|, i)
      ensures ordered' == ordered + Preorder(nodes, |pool.entries|, i)
      ensures nextId' == |ordered'| && Numbered(mapping', ordered', 0) && mapping'.Keys == Elems(ordered')
      decreases |nodes| - i, 1
    {
      nextId', mapping', ordered' := nextId, mapping, ordered;
      ghost var s := |pool.entries|;
      assert NodeOk(nodes, s, i);
      if IsLeaf(nodes[i]) {
        assert ordered + [] == ordered;
        return;
      }
      NumberOne(mapping, ordered, i);
      nextId', mapping', ordered' := nextId + 1, mapping[i := nextId], ordered + [i];
      FirstDisjoint(nodes, s, i, ordered, mapping');
      nextId', mapping', ordered' := AssignChild(i, nodes[i].left, nextId', mapping', ordered');
      OrderDisjoint(nodes, s, i, ordered, mapping');
      nextId', mapping', ordered' := AssignChild(i, nodes[i].right, nextId', mapping', ordered');
      PreorderOfFork(nodes, s, i);
      ConcatAssoc(ordered, [i], KidOrder(nodes, s, nodes[i].left));
      ConcatAssoc(ordered, [i] + KidOrder(nodes, s, nodes[i].left), KidOrder(nodes, s, nodes[i].right));
    }

    method AssignChild(ghost i: nat, c: nat, nextId: nat, mapping: Numbers, ordered: seq<nat>)
      returns (nextId': nat, mapping': Numbers, ordered': seq<nat>)
      requires TrieOk() && i < |nodes| && (c == 0 || i < c < |nodes|)
      requires c != 0 ==> Separate(nodes, |pool.entries|, c)
      requires nextId == |ordered| && Numbered(mapping, ordered, 0) && mapping.Keys == Elems(ordered)
      requires mapping.Keys !! KidReach(nodes, |pool.entries|, c)
      ensures ordered' == ordered + KidOrder(nodes, |pool.entries|, c)
      ensures nextId' == |ordered'| && Numbered(mapping', ordered', 0) && mapping'.Keys == Elems(ordered')
      decreases |nodes| - i, 0
    {
      if c == 0 {
        nextId', mapping', ordered' := nextId, mapping, ordered;
        assert ordered + [] == ordered;
      } else {
        nextId', mapping', ordered' := AssignNodeIds(c, nextId, mapping, ordered);
      }
    }

    /** Adds the ids of all records found in the leaves of a subtree. */
    method CollectUsed(i: nat, depthLimit: nat, used: set<nat>) returns (used': set<nat>)
      requires TrieOk() && i < |nodes|
      requires forall id | id in used :: 0 < id < |pool.entries|
      ensures forall id | id in used' :: 0 < id < |pool.entries|
      ensures ValSet(pool.entries, used')
           == ValSet(pool.entries, used) + Elems(LeafRecords(TreeAt(nodes, pool.entries, i)))
      decreases |nodes| - i
    {
      ghost var es := pool.entries;
      LeafRecordsOf(nodes, es, i);
      used' := used;
      if IsLeaf(nodes[i]) {
        if nodes[i].data != 0 {
          used' := used + {nodes[i].data};
          ValSetPlus(es, used, nodes[i].data);
        }
        return;
      }
      var limit := if depthLimit > 0 then depthLimit - 1 else 0;
      if nodes[i].left != 0 { used' := CollectUsed(nodes[i].left, limit, used'); }
      if nodes[i].right != 0 { used' := CollectUsed(nodes[i].right, limit, used'); }
    }

    /** std::sort of the used ids by less_data, from a set iterated in any order. */
    method SortIds(used: set<nat>) returns (ordered: seq<nat>)
      requires pool.Valid() && forall id | id in used :: 0 < id < |pool.entries|
      ensures forall k | 0 <= k < |ordered| :: 0 < ordered[k] < |pool.entries|
      ensures Ascending(Vals(pool.entries, ordered))
      ensures Elems(Vals(pool.entries, ordered)) == ValSet(pool.entries, used)
    {
      ordered := [];
      var rest := used;
      ghost var done: set<nat> := {};
      while rest != {}
        invariant done + rest == used && done !! rest && Elems(ordered) == done
        invariant forall k | 0 <= k < |ordered| :: 0 < ordered[k] < |pool.entries|
        invariant Ascending(Vals(pool.entries, ordered))
        decreases rest
      {
        var id :| id in rest;
        rest := rest - {id};
        done := done + {id};
        ordered := InsertId(ordered, id);
      }
      ValsElems(pool.entries, ordered, used);
    }

    method InsertId(ordered: seq<nat>, id: nat) returns (next: seq<nat>)
      requires pool.Valid() && 0 < id < |pool.entries| && id !in ordered
      requires forall k | 0 <= k < |ordered| :: 0 < ordered[k] < |pool.entries|
      requires Ascending(Vals(pool.entries, ordered))
      ensures forall k | 0 <= k < |next| :: 0 < next[k] < |pool.entries|
      ensures Ascending(Vals(pool.entries, next)) && Elems(next) == Elems(ordered) + {id}
    {
      ghost var es := pool.entries;
      ghost var vs, x := Vals(es, ordered), Val(es, id);
      var p := |ordered|;
      while p > 0 && LessData(pool.entries, id, ordered[p - 1])
        invariant 0 <= p <= |ordered|
        invariant p < |ordered| ==> Less(x, vs[p])
      {
        p := p - 1;
        LessDataIsLess(es, id, ordered[p]);
      }
      if p > 0 {
        LessDataIsLess(es, id, ordered[p - 1]);
        IdIffContent(es, id, ordered[p - 1]);
        CmpOrder(x, vs[p - 1]);
      }
      AscendingInsert(vs, x, p);
      InsertElems(ordered, id, p);
      next := ordered[..p] + [id] + ordered[p..];
      assert Vals(es, next) == vs[..p] + [x] + vs[p..];
    }

    // ---- build: data section ----------------------------------------------

    /** encode_uint: the bytes of a number, collected from the low end and written reversed. */
    method EncodeUint(out: seq<byte>, kind: nat, val: nat) returns (out': seq<byte>)
      requires 2 <= kind < 16 && val < 0x1_0000_0000_0000_0000
      ensures out' == out + (Header(kind, |UintBytes(val)|) + UintBytes(val))
    {
      var digits: seq<byte> := [];
      var rest := val;
      while rest > 0
        invariant UintBytes(rest) + digits == UintBytes(val)
        decreases rest
      {
        digits := [rest % 256] + digits;
        rest := rest / 256;
      }
      out' := out + (Header(kind, |digits|) + digits);
    }

    method EncodeScalar(out: seq<byte>, v: Value) returns (out': seq<byte>)
      requires IsScalar(v)
      ensures out' == out + ScalarBytes(v)
    {
      if v.U16? {
        out' := EncodeUint(out, 5, v.n16);
      } else if v.U32? {
        out' := EncodeUint(out, 6, v.n32);
      } else if v.U64? {
        out' := EncodeUint(out, 9, v.n64);
      } else {
        out' := out + (Header(Kind(v), SizeOf(v)) + Payload(v));
      }
    }

    /** Writes a value, or a pointer to its earlier occurrence. */
    method SerializeData(id: nat, out: seq<byte>, ghost em: map<Value, u32>) returns (out': seq<byte>)
      requires pool.Valid() && id < |pool.entries| && SameEmitted(pool.entries, emitted, em)
      modifies this`emitted
      ensures out' == Emit(Section(out, em), Val(pool.entries, id)).bytes
      ensures SameEmitted(pool.entries, emitted, Emit(Section(out, em), Val(pool.entries, id)).emitted)
      decreases id, 1
    {
      ghost var es := pool.entries;
      ghost var v, st := Val(es, id), Section(out, em);
      IdIffContent(es, id, 0);
      assert EntryAt(es, id);
      SameAt(es, emitted, em, id);
      if id == 0 { return out; }
      if id in emitted {
        return out + Pointer(emitted[id]);
      }
      match pool.entries[id]
      case Scalar(value) =>
        if value.Str? {
          SameUpdate(es, emitted, em, id, |out| % TWO32);
          emitted := emitted[id := |out| % TWO32];
        }
        out' := EncodeScalar(out, value);
      case MapEntry(fs) =>
        ValOfMap(es, id);
        SameUpdate(es, emitted, em, id, |out| % TWO32);
        emitted := emitted[id := |out| % TWO32];
        out' := SerializeFields(id, fs, out + Header(7, |fs|), em[v := |out| % TWO32]);
      case ArrEntry(xs) =>
        ValOfArr(es, id);
        SameUpdate(es, emitted, em, id, |out| % TWO32);
        emitted := emitted[id := |out| % TWO32];
        out' := SerializeElems(id, xs, out + Header(11, |xs|), em[v := |out| % TWO32]);
    }

    method SerializeElems(ghost id: nat, xs: seq<nat>, out: seq<byte>, ghost em: map<Value, u32>)
      returns (out': seq<byte>)
      requires pool.Valid() && id < |pool.entries| && SameEmitted(pool.entries, emitted, em)
      requires forall k | 0 <= k < |xs| :: xs[k] < id
      modifies this`emitted
      ensures out' == EmitSeq(Section(out, em), Vals(pool.entries, xs)).bytes
      ensures SameEmitted(pool.entries, emitted, EmitSeq(Section(out, em), Vals(pool.entries, xs)).emitted)
      decreases id, 0
    {
      ghost var es := pool.entries;
      ghost var vs := Vals(es, xs);
      ghost var goal, st := EmitSeq(Section(out, em), vs), Section(out, em);
      out' := out;
      for k := 0 to |xs|
        invariant pool.Valid() && out' == st.bytes && SameEmitted(es, emitted, st.emitted)
        invariant EmitSeq(st, vs[k..]) == goal
      {
        EmitSeqNext(st, vs, k);
        out' := SerializeData(xs[k], out', st.emitted);
        st := Emit(st, vs[k]);
      }
    }

    method SerializeFields(ghost id: nat, fs: seq<(nat, nat)>, out: seq<byte>, ghost em: map<Value, u32>)
      returns (out': seq<byte>)
      requires pool.Valid() && id < |pool.entries| && SameEmitted(pool.entries, emitted, em)
      requires FieldIds(pool.entries, fs) && forall k | 0 <= k < |fs| :: fs[k].0 < id && fs[k].1 < id
      modifies this`emitted
      ensures out' == EmitFields(Section(out, em), FieldVals(pool.entries, fs)).bytes
      ensures SameEmitted(pool.entries, emitted, EmitFields(Section(out, em), FieldVals(pool.entries, fs)).emitted)
      decreases id, 0
    {
      ghost var es := pool.entries;
      ghost var vs := FieldVals(es, fs);
      ghost var goal, st := EmitFields(Section(out, em), vs), Section(out, em);
      out' := out;
      for k := 0 to |fs|
        invariant pool.Valid() && out' == st.bytes && SameEmitted(es, emitted, st.emitted)
        invariant EmitFields(st, vs[k..]) == goal
      {
        EmitFieldsNext(st, vs, k);
        KeyValue(es, fs[k].0);
        out' := SerializeData(fs[k].0, out', st.emitted);
        st := EmitKey(st, vs[k].key);
        out' := SerializeData(fs[k].1, out', st.emitted);
        st := Emit(st, vs[k].value);
      }
    }

    /** Serializes the used records in content order and records their offsets. */
    method LayOutRecords(ordered: seq<nat>) returns (section: seq<byte>, offsets: map<nat, nat>)
      requires pool.Valid() && forall k | 0 <= k < |ordered| :: 0 < ordered[k] < |pool.entries|
      modifies this`emitted
      ensures section == EmitRecords(Vals(pool.entries, ordered)).section.bytes
      ensures SameOffsets(pool.entries, offsets, EmitRecords(Vals(pool.entries, ordered)).offsets)
    {
      ghost var es := pool.entries;
      ghost var vs := Vals(es, ordered);
      ghost var l := EmitRecords([]);
      section := [0];
      emitted := map[];
      offsets := map[];
      for k := 0 to |ordered|
        invariant pool.Valid() && l == EmitRecords(vs[..k]) && section == l.section.bytes
        invariant SameEmitted(es, emitted, l.section.emitted) && SameOffsets(es, offsets, l.offsets)
      {
        var id := ordered[k];
        TakeRecords(vs, k);
        IdIffContent(es, id, 0);
        SameAt(es, emitted, l.section.emitted, id);
        if id in emitted {
          OffsetUpdate(es, offsets, l.offsets, id, emitted[id]);
          offsets := offsets[id := emitted[id]];
        } else {
          OffsetUpdate(es, offsets, l.offsets, id, |section| % TWO32);
          offsets := offsets[id := |section| % TWO32];
          section := SerializeData(id, section, l.section.emitted);
        }
        l := EmitRecord(l, vs[k]);
      }
      assert vs[..|ordered|] == vs;
    }

    /** Writes the packed nodes through a buffer that is flushed when nearly full. */
    method WriteNodes(ordered: seq<nat>, mapping: Numbers, offsets: map<nat, nat>)
      returns (file: seq<byte>, ghost rs: seq<(nat, nat)>)
      requires TrieOk() && forall k | 0 <= k < |ordered| :: ordered[k] < |nodes|
      ensures forall ps :: Written(nodes, mapping, offsets, ordered, ps) ==> file == PackNodes(ps)
      ensures Written(nodes, mapping, offsets, ordered, rs)
    {
      file, rs := [], [];
      var buffer: seq<byte> := [];
      for k := 0 to |ordered|
        invariant |rs| == k && file + buffer == PackNodes(rs)
        invariant forall j | 0 <= j < k :: WrittenAt(nodes, mapping, offsets, ordered[j], |ordered|, rs[j])
      {
        var left, right := ResolveNode(ordered[k], mapping, |ordered|, offsets);
        file, buffer := BufferNode(file, buffer, left, right, rs);
        rs := rs + [(left, right)];
      }
      file := file + buffer;
      forall ps | Written(nodes, mapping, offsets, ordered, ps) ensures ps == rs {
        WrittenOnce(nodes, mapping, offsets, ordered, ps, rs);
      }
    }

    method ResolveNode(i: nat, mapping: Numbers, total: nat, offsets: map<nat, nat>) returns (left: nat, right: nat)
      requires TrieOk() && i < |nodes|
      ensures WrittenAt(nodes, mapping, offsets, i, total, (left, right))
    {
      assert NodeOk(nodes, |pool.entries|, i);
      left := Resolve(nodes, mapping, total, offsets, nodes[i].left);
      right := Resolve(nodes, mapping, total, offsets, nodes[i].right);
    }

    /**
     Finalizes the trie and produces everything that precedes the metadata. The bytes are a
     function of the networks inserted, not of ids, node indices or the order of interning.
     */
    method Build() returns (nodeCount: nat, file: seq<byte>)
      requires Valid()
      modifies this
      ensures nodeCount == NodeCount(BuiltTree(pool.rowSortKey, old(history)))
      ensures file == Image(BuiltTree(pool.rowSortKey, old(history)))
    {
      ghost var es := pool.entries;
      ghost var t := BuiltTree(pool.rowSortKey, history);
      var _ := PruneTree(0, 4);
      var mapping, ordered;
      nodeCount, mapping, ordered := AssignNodeIds(0, 0, map[], []);
      assert ordered == Preorder(nodes, |es|, 0);
      var used := CollectUsed(0, 4, {});
      var ids := SortIds(used);
      UsedInOrder(es, used, ids, t);
      var section, offsets := LayOutRecords(ids);
      ForksOnly(nodes, |es|, mapping, ordered);
      ghost var rs;
      file, rs := WriteNodes(ordered, mapping, offsets);
      WrittenRecords(nodes, es, mapping, offsets, LayoutOf(t).offsets, ordered, rs);
      file := file + SEPARATOR + section;
    }
  }

  const BUFFER_SIZE := 1048576

  /** Adds a node to the buffer, and the buffer to the file when there is no room for another node. */
  method BufferNode(file: seq<byte>, buffer: seq<byte>, left: nat, right: nat, ghost rs: seq<(nat, nat)>)
    returns (file': seq<byte>, buffer': seq<byte>)
    requires file + buffer == PackNodes(rs)
    ensures file' + buffer' == PackNodes(rs + [(left, right)])
  {
    PackNodesSnoc(rs, (left, right));
    ghost var node := PackNode(left, right);
    ConcatAssoc(file, buffer, node);
    file', buffer' := file, buffer + PackNode(left, right);
    if |buffer'| >= BUFFER_SIZE - 7 {
      file' := file' + buffer';
      buffer' := [];
      assert file' + buffer' == file';
    }
  }

  lemma PackNodesSnoc(rs: seq<(nat, nat)>, r: (nat, nat))
    ensures PackNodes(rs + [r]) == PackNodes(rs) + PackNode(r.0, r.1)
  {
    assert (rs + [r])[..|rs|] == rs;
  }

  lemma TakeRecords(vs: seq<Value>, k: nat)
    requires k < |vs|
    ensures EmitRecords(vs[..k + 1]) == EmitRecord(EmitRecords(vs[..k]), vs[k])
  {
    assert vs[..k + 1][..k] == vs[..k];
  }

  lemma OffsetUpdate(es: seq<Entry>, byId: map<nat, nat>, byValue: Offsets, id: nat, o: nat)
    requires ValidPool(es) && SameOffsets(es, byId, byValue) && id < |es|
    ensures SameOffsets(es, byId[id := o], byValue[Val(es, id) := o])
  {
    var byId', byValue' := byId[id := o], byValue[Val(es, id) := o];
    forall k | 0 <= k < |es|
      ensures (k in byId' <==> Val(es, k) in byValue') && (k in byId' ==> byId'[k] == byValue'[Val(es, k)])
    {
      IdIffContent(es, id, k);
    }
  }

  lemma UsedInOrder(es: seq<Entry>, used: set<nat>, ids: seq<nat>, t: Tree)
    requires Closed(es) && forall id | id in used :: 0 < id < |es|
    requires forall k | 0 <= k < |ids| :: 0 < ids[k] < |es|
    requires ValSet(es, used) == Elems(LeafRecords(t))
    requires Ascending(Vals(es, ids)) && Elems(Vals(es, ids)) == ValSet(es, used)
    ensures Vals(es, ids) == SortDedup(LeafRecords(t))
  {
    SortDedupSorts(LeafRecords(t));
    AscendingUnique(Vals(es, ids), SortDedup(LeafRecords(t)));
  }

  lemma ForksOnly(nodes: seq<TrieNode>, size: nat, mapping: Numbers, ordered: seq<nat>)
    requires Wf(nodes, size) && |nodes| > 0 && ordered == Preorder(nodes, size, 0) && mapping.Keys == Elems(ordered)
    ensures OnlyForks(nodes, mapping) && forall k | 0 <= k < |ordered| :: ordered[k] < |nodes|
  {
    PreorderMembers(nodes, size, 0);
    forall i | i in mapping ensures i < |nodes| && !IsLeaf(nodes[i]) { assert i in Elems(ordered); }
    forall k | 0 <= k < |ordered| ensures ordered[k] < |nodes| { assert ordered[k] in ordered; }
  }

  /** Offsets of emitted values by id and by content agree. */
  ghost predicate SameEmitted(es: seq<Entry>, byId: map<nat, u32>, byValue: map<Value, u32>) {
    Closed(es) && forall id | 0 <= id < |es| :: SameEntryOffset(es, byId, byValue, id)
  }

  ghost predicate SameEntryOffset(es: seq<Entry>, byId: map<nat, u32>, byValue: map<Value, u32>, id: nat)
    requires Closed(es) && id < |es|
  {
    (id in byId <==> Val(es, id) in byValue) && (id in byId ==> byId[id] == byValue[Val(es, id)])
  }

  lemma SameAt(es: seq<Entry>, byId: map<nat, u32>, byValue: map<Value, u32>, id: nat)
    requires SameEmitted(es, byId, byValue) && id < |es|
    ensures SameEntryOffset(es, byId, byValue, id)
  {
  }

  lemma SameUpdate(es: seq<Entry>, byId: map<nat, u32>, byValue: map<Value, u32>, id: nat, o: u32)
    requires ValidPool(es) && SameEmitted(es, byId, byValue) && id < |es|
    ensures SameEmitted(es, byId[id := o], byValue[Val(es, id) := o])
  {
    var byId', byValue' := byId[id := o], byValue[Val(es, id) := o];
    forall k | 0 <= k < |es| ensures SameEntryOffset(es, byId', byValue', k) {
      SameAt(es, byId, byValue, k);
      IdIffContent(es, id, k);
    }
  }

  lemma EmitSeqNext(st: Section, vs: seq<Value>, k: nat)
    requires k < |vs|
    ensures EmitSeq(st, vs[k..]) == EmitSeq(Emit(st, vs[k]), vs[k + 1..])
  {
    assert vs[k..][0] == vs[k] && vs[k..][1..] == vs[k + 1..];
  }

  lemma EmitFieldsNext(st: Section, vs: seq<Field>, k: nat)
    requires k < |vs|
    ensures EmitFields(st, vs[k..]) == EmitFields(Emit(EmitKey(st, vs[k].key), vs[k].value), vs[k + 1..])
  {
    assert vs[k..][0] == vs[k] && vs[k..][1..] == vs[k + 1..];
  }

  /** A key is written like any other string. */
  lemma KeyValue(es: seq<Entry>, key: nat)
    requires Closed(es) && IsKey(es, key)
    ensures Val(es, key) == Str(KeyOf(es, key))
    ensures forall st: Section :: Emit(st, Val(es, key)) == EmitKey(st, KeyOf(es, key))
  {
  }

  lemma AscendingInsert(vs: seq<Value>, x: Value, p: nat)
    requires Ascending(vs) && p <= |vs|
    requires p > 0 ==> Less(vs[p - 1], x)
    requires p < |vs| ==> Less(x, vs[p])
    ensures Ascending(vs[..p] + [x] + vs[p..])
  {
    forall j | p <= j < |vs| ensures Less(x, vs[j]) {
      if j > p { CmpTrans(x, vs[p], vs[j]); }
    }
    forall j | 0 <= j < p ensures Less(vs[j], x) {
      if j < p - 1 { CmpTrans(vs[j], vs[p - 1], x); }
    }
  }

  lemma ValsElems(es: seq<Entry>, ordered: seq<nat>, used: set<nat>)
    requires Closed(es) && Elems(ordered) == used
    requires forall k | 0 <= k < |ordered| :: 0 < ordered[k] < |es|
    requires forall id | id in used :: id < |es|
    ensures Elems(Vals(es, ordered)) == ValSet(es, used)
  {
    forall v | v in Vals(es, ordered) ensures v in ValSet(es, used) {
      var k :| 0 <= k < |ordered| && Vals(es, ordered)[k] == v;
      assert ordered[k] in Elems(ordered);
    }
    forall id | id in used ensures Val(es, id) in Vals(es, ordered) {
      assert id in Elems(ordered);
      var k :| 0 <= k < |ordered| && ordered[k] == id;
      assert Vals(es, ordered)[k] == Val(es, id);
    }
  }

  lemma ValSetPlus(es: seq<Entry>, ids: set<nat>, id: nat)
    requires Closed(es) && id < |es| && forall x | x in ids :: x < |es|
    ensures ValSet(es, ids + {id}) == ValSet(es, ids) + {Val(es, id)}
  {
  }

  lemma NumberOne(mapping: Numbers, ordered: seq<nat>, i: nat)
    requires Numbered(mapping, ordered, 0) && mapping.Keys == Elems(ordered) && i !in mapping
    ensures Numbered(mapping[i := |ordered|], ordered + [i], 0)
    ensures mapping[i := |ordered|].Keys == Elems(ordered + [i])
  {
    SnocElems(ordered, i);
    var next := ordered + [i];
    forall k | 0 <= k < |next|
      ensures next[k] in mapping[i := |ordered|] && mapping[i := |ordered|][next[k]] == 0 + k
    {
      if k < |ordered| { assert next[k] == ordered[k] && ordered[k] in mapping; }
    }
  }

  lemma FirstDisjoint(nodes: seq<TrieNode>, size: nat, i: nat, ordered: seq<nat>, mapping: Numbers)
    requires Wf(nodes, size) && i < |nodes| && NodeOk(nodes, size, i) && Separate(nodes, size, i)
    requires Elems(ordered) !! Reach(nodes, size, i) && mapping.Keys == Elems(ordered + [i])
    ensures mapping.Keys !! KidReach(nodes, size, nodes[i].left)
    ensures nodes[i].left != 0 ==> Separate(nodes, size, nodes[i].left)
    ensures nodes[i].right != 0 ==> Separate(nodes, size, nodes[i].right)
  {
    SnocElems(ordered, i);
    assert KidReach(nodes, size, nodes[i].left) <= Reach(nodes, size, i);
  }

  lemma OrderDisjoint(nodes: seq<TrieNode>, size: nat, i: nat, ordered: seq<nat>, mapping: Numbers)
    requires Wf(nodes, size) && i < |nodes| && NodeOk(nodes, size, i) && Separate(nodes, size, i)
    requires Elems(ordered) !! Reach(nodes, size, i)
    requires mapping.Keys == Elems(ordered + [i] + KidOrder(nodes, size, nodes[i].left))
    ensures mapping.Keys !! KidReach(nodes, size, nodes[i].right)
  {
    var l, r := nodes[i].left, nodes[i].right;
    if l != 0 { PreorderMembers(nodes, size, l); }
    forall k | k in mapping.Keys ensures k !in KidReach(nodes, size, r) {
      assert k in Elems(ordered) || k == i || k in KidReach(nodes, size, l);
      assert KidReach(nodes, size, r) <= Reach(nodes, size, i);
    }
  }

  /** The record id of a child that is a leaf; 0 for a missing or internal child. */
  function LeafId(nodes: seq<TrieNode>, c: nat): nat {
    if c == 0 || c >= |nodes| || !IsLeaf(nodes[c]) then 0 else nodes[c].data
  }

  ghost function KidReachOf(nodes: seq<TrieNode>, size: nat, i: nat, bit: bool): set<nat>
    requires Wf(nodes, size) && i < |nodes|
  {
    assert NodeOk(nodes, size, i);
    KidReach(nodes, size, Kid(nodes[i], bit))
  }

  lemma PrunedTwins(nodes: seq<TrieNode>, es: seq<Entry>, i: nat, d0: nat, d1: nat)
    requires ValidPool(es) && Wf(nodes, |es|) && i < |nodes| && !IsLeaf(nodes[i]) && NodeOk(nodes, |es|, i)
    requires d0 == LeafId(nodes, nodes[i].left) && d1 == LeafId(nodes, nodes[i].right)
    ensures d0 < |es| && d1 < |es|
    ensures var l, r := KidTree(nodes, es, nodes[i].left), KidTree(nodes, es, nodes[i].right);
      (d0 != 0 && d1 != 0 && d0 == d1) <==> (l.Leaf? && r == l && !l.data.Null?)
    ensures d0 != 0 ==> KidTree(nodes, es, nodes[i].left) == Leaf(Val(es, d0))
  {
    var l, r := nodes[i].left, nodes[i].right;
    if l != 0 { assert NodeOk(nodes, |es|, l); IdIffContent(es, nodes[l].data, 0); }
    if r != 0 { assert NodeOk(nodes, |es|, r); IdIffContent(es, nodes[r].data, 0); }
    IdIffContent(es, d0, d1);
  }

  lemma TakeMore<T>(h: seq<T>, ns: seq<T>, k: nat)
    requires k < |ns|
    ensures h + ns[..k] + [ns[k]] == h + ns[..k + 1]
  {
  }

  /** An entry names a stored record and a prefix of a 16-byte address. */
  ghost predicate NetworkEntryOk(size: nat, e: NetworkEntry) {
    |e.bits| == 16 && e.prefixLen <= WIDTH && e.data < size
  }

  ghost predicate BatchOk(size: nat, batch: seq<NetworkEntry>) {
    forall k | 0 <= k < |batch| :: NetworkEntryOk(size, batch[k])
  }

  ghost function NetworkOf(es: seq<Entry>, e: NetworkEntry): Network
    requires Closed(es) && NetworkEntryOk(|es|, e)
  {
    Network(Path(e.bits, 0, e.prefixLen), Val(es, e.data))
  }

  /** The networks of a batch, by content. */
  ghost function Networks(es: seq<Entry>, batch: seq<NetworkEntry>): seq<Network>
    requires Closed(es) && BatchOk(|es|, batch)
  {
    seq(|batch|, k requires 0 <= k < |batch| => NetworkOf(es, batch[k]))
  }

  lemma NetworksStable(es: seq<Entry>, es': seq<Entry>, batch: seq<NetworkEntry>)
    requires Closed(es) && Closed(es') && es <= es' && BatchOk(|es|, batch)
    ensures BatchOk(|es'|, batch) && Networks(es', batch) == Networks(es, batch)
  {
    forall k | 0 <= k < |batch| ensures NetworkEntryOk(|es'|, batch[k]) && NetworkOf(es', batch[k]) == NetworkOf(es, batch[k]) {
      ValStableAt(es, es', batch[k].data);
    }
  }

  lemma NetworksSnoc(es: seq<Entry>, batch: seq<NetworkEntry>, e: NetworkEntry)
    requires Closed(es) && BatchOk(|es|, batch) && NetworkEntryOk(|es|, e)
    ensures BatchOk(|es|, batch + [e]) && Networks(es, batch + [e]) == Networks(es, batch) + [NetworkOf(es, e)]
  {
  }

  lemma HistorySnoc(sortKey: Key, h: seq<Network>, n: Network)
    requires PrefixesWithin(h, WIDTH) && |n.prefix| <= WIDTH
    ensures PrefixesWithin(h + [n], WIDTH)
    ensures InsertAll(sortKey, h + [n]) == Insert(sortKey, InsertAll(sortKey, h), n.prefix, n.record)
  {
    assert (h + [n])[..|h|] == h;
  }

  lemma PutOne(t: Tree, bit: bool, s: Tree)
    requires HasPath(t, [bit])
    ensures Put(t, [bit], s) == WithChild(t, bit, s)
  {
    assert [bit][1..] == [];
  }

  /** The six writes of a split amount to one update and two new leaves. */
  lemma SplitWrites(nodes0: seq<TrieNode>, c: nat, d: nat, nodes: seq<TrieNode>)
    requires c < |nodes0| && IsLeaf(nodes0[c])
    requires var m := |nodes0|;
      var n1 := nodes0[c := nodes0[c].(data := 0)] + [FRESH];
      var n2 := n1[c := n1[c].(left := m)];
      var n3 := n2[m := n2[m].(data := d)] + [FRESH];
      var n4 := n3[c := n3[c].(right := m + 1)];
      nodes == n4[m + 1 := n4[m + 1].(data := d)]
    ensures nodes == nodes0[c := TrieNode(|nodes0|, |nodes0| + 1, 0)] + [TrieNode(0, 0, d), TrieNode(0, 0, d)]
  {
  }

  lemma DescendFurther(nodes0: seq<TrieNode>, nodes1: seq<TrieNode>, nodes2: seq<TrieNode>, es: seq<Entry>,
                       from: nat, p: Bits, current: nat, bit: bool, next: nat)
    requires Closed(es) && Updated(nodes0, |es|, nodes1, |es|, from) && Updated(nodes1, |es|, nodes2, |es|, current)
    requires Walks(nodes1, from, p, current) && Walks(nodes2, current, [bit], next)
    requires TreeAt(nodes1, es, from) == Grow(TreeAt(nodes0, es, from), p)
    requires TreeAt(nodes2, es, current) == Grow(TreeAt(nodes1, es, current), [bit])
    ensures Updated(nodes0, |es|, nodes2, |es|, from) && Walks(nodes2, from, p + [bit], next)
    ensures TreeAt(nodes2, es, from) == Grow(TreeAt(nodes0, es, from), p + [bit])
  {
    WalkAt(nodes1, es, from, p, current);
    UpdatedPath(nodes1, es, nodes2, es, from, p, current);
    UpdatedTrans(nodes0, |es|, nodes1, |es|, nodes2, |es|, from);
    WalkFurther(nodes2, from, p, current, [bit], next);
    GrowTwice(TreeAt(nodes0, es, from), p, [bit]);
  }

  lemma GrowSplit(t: Tree, t': Tree, bit: bool)
    requires Split(t) == Split(t')
    ensures Grow(t, [bit]) == Grow(t', [bit])
  {
  }

  lemma MissingKid(nodes: seq<TrieNode>, es: seq<Entry>, c: nat, bit: bool)
    requires ValidPool(es) && Wf(nodes, |es|) && c < |nodes| && nodes[c].data == 0 && Kid(nodes[c], bit) == 0
    ensures Grow(TreeAt(nodes, es, c), [bit])
         == WithChild(Split(TreeAt(nodes, es, c)), bit, Leaf(Null))
  {
    if IsLeaf(nodes[c]) { LeafTree(nodes, es, c); } else { TreeOfFork(nodes, es, c); }
    GrowOneMissing(TreeAt(nodes, es, c), bit);
  }
}
