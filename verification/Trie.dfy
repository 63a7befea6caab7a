/**
 The binary trie of networks as an inductive tree: insertion, lookup, pruning.

 `Absent` is a missing child, `Leaf(Null)` a node without children or data, and
 `Fork` an internal node, which never carries data.
 */
module Trie {
  import opened ContentOrder
  import opened RecordMerge

  type Bits = seq<bool>

  datatype Tree = Absent | Leaf(data: Value) | Fork(left: Tree, right: Tree)

  /** A network to insert: its prefix bits and the record attached to it. */
  datatype Network = Network(prefix: Bits, record: Value)

  function Height(t: Tree): nat {
    match t
    case Fork(l, r) => 1 + if Height(l) < Height(r) then Height(r) else Height(l)
    case _ => 0
  }

  function Child(t: Tree, bit: bool): Tree
    requires t.Fork?
  {
    if bit then t.right else t.left
  }

  function WithChild(t: Tree, bit: bool, c: Tree): Tree
    requires t.Fork?
  {
    if bit then Fork(t.left, c) else Fork(c, t.right)
  }

  /** The record found for an address; null when no network covers it. */
  function Lookup(t: Tree, addr: Bits): Value
    decreases t
  {
    match t
    case Absent => Null
    case Leaf(d) => d
    case Fork(_, _) => if addr == [] then Null else Lookup(Child(t, addr[0]), addr[1..])
  }

  // ---- insertion ----------------------------------------------------------

  /** The fork a node becomes when the walk passes through it: data moves to both children. */
  function Split(t: Tree): (f: Tree)
    ensures f.Fork?
  {
    match t
    case Absent => Fork(Absent, Absent)
    case Leaf(d) => if d.Null? then Fork(Absent, Absent) else Fork(t, t)
    case Fork(_, _) => t
  }

  /** merge_subtree: merges a record into every leaf, filling missing children. */
  function Overlay(sortKey: Key, t: Tree, v: Value): Tree {
    match t
    case Absent => Leaf(v)
    case Leaf(d) => Leaf(Merge(sortKey, d, v))
    case Fork(l, r) => Fork(Overlay(sortKey, l, v), Overlay(sortKey, r, v))
  }

  function Insert(sortKey: Key, t: Tree, p: Bits, v: Value): Tree
    decreases |p|
  {
    if p == [] then Overlay(sortKey, t, v)
    else
      var f := Split(t);
      WithChild(f, p[0], Insert(sortKey, Child(f, p[0]), p[1..], v))
  }

  function InsertAll(sortKey: Key, ns: seq<Network>): Tree {
    if ns == [] then Leaf(Null)
    else
      var last := ns[|ns| - 1];
      Insert(sortKey, InsertAll(sortKey, ns[..|ns| - 1]), last.prefix, last.record)
  }

  /** Records of the networks covering `addr`, in insertion order. */
  function Covering(ns: seq<Network>, addr: Bits): seq<Value> {
    if ns == [] then []
    else
      var last := ns[|ns| - 1];
      Covering(ns[..|ns| - 1], addr) + if last.prefix <= addr then [last.record] else []
  }

  ghost predicate PrefixesWithin(ns: seq<Network>, width: nat) {
    forall n | n in ns :: |n.prefix| <= width
  }

  lemma {:induction false} LookupOverlay(sortKey: Key, t: Tree, v: Value, addr: Bits)
    requires Height(t) <= |addr|
    ensures Lookup(Overlay(sortKey, t, v), addr) == Merge(sortKey, Lookup(t, addr), v)
    ensures Height(Overlay(sortKey, t, v)) == Height(t)
    decreases t
  {
    match t
    case Fork(l, r) =>
      LookupOverlay(sortKey, l, v, addr[1..]);
      LookupOverlay(sortKey, r, v, addr[1..]);
    case _ =>
  }

  /** One insertion merges the record at the covered addresses and changes no other answer. */
  lemma {:induction false} LookupInsert(sortKey: Key, t: Tree, p: Bits, v: Value, addr: Bits)
    requires Height(t) <= |addr| && |p| <= |addr|
    ensures Lookup(Insert(sortKey, t, p, v), addr)
         == if p <= addr then Merge(sortKey, Lookup(t, addr), v) else Lookup(t, addr)
    decreases |p|
  {
    if p == [] {
      LookupOverlay(sortKey, t, v, addr);
    } else {
      var f := Split(t);
      assert Lookup(f, addr) == Lookup(t, addr);
      if p[0] == addr[0] {
        LookupInsert(sortKey, Child(f, p[0]), p[1..], v, addr[1..]);
        assert p == [p[0]] + p[1..] && addr == [addr[0]] + addr[1..];
        assert p[1..] <= addr[1..] <==> p <= addr;
      }
    }
  }

  lemma {:induction false} HeightInsert(sortKey: Key, t: Tree, p: Bits, v: Value, width: nat)
    requires Height(t) <= width && |p| <= width
    ensures Height(Insert(sortKey, t, p, v)) <= width
    decreases |p|
  {
    if p == [] {
      var addr := seq(width, _ => false);
      LookupOverlay(sortKey, t, v, addr);
    } else {
      HeightInsert(sortKey, Child(Split(t), p[0]), p[1..], v, width - 1);
    }
  }

  lemma {:induction false} HeightInsertAll(sortKey: Key, ns: seq<Network>, width: nat)
    requires PrefixesWithin(ns, width)
    ensures Height(InsertAll(sortKey, ns)) <= width
  {
    if ns != [] {
      HeightInsertAll(sortKey, ns[..|ns| - 1], width);
      var last := ns[|ns| - 1];
      HeightInsert(sortKey, InsertAll(sortKey, ns[..|ns| - 1]), last.prefix, last.record, width);
    }
  }

  /** The trie answers with the left-to-right merge of exactly the covering records. */
  lemma {:induction false} LookupIsFold(sortKey: Key, ns: seq<Network>, addr: Bits)
    requires PrefixesWithin(ns, |addr|)
    ensures Lookup(InsertAll(sortKey, ns), addr) == FoldMerge(sortKey, Covering(ns, addr))
  {
    if ns != [] {
      var init, last := ns[..|ns| - 1], ns[|ns| - 1];
      LookupIsFold(sortKey, init, addr);
      HeightInsertAll(sortKey, init, |addr|);
      LookupInsert(sortKey, InsertAll(sortKey, init), last.prefix, last.record, addr);
      var vs := Covering(init, addr);
      FoldSnoc(sortKey, vs, last.record);
      assert vs + [] == vs;
    }
  }

  // ---- growth along a path ------------------------------------------------

  /** descend: the tree after walking `p` from the root, creating and splitting nodes. */
  function Grow(t: Tree, p: Bits): Tree
    decreases |p|
  {
    if p == [] then if t.Absent? then Leaf(Null) else t
    else
      var f := Split(t);
      WithChild(f, p[0], Grow(Child(f, p[0]), p[1..]))
  }

  predicate HasPath(t: Tree, p: Bits)
    decreases |p|
  {
    if p == [] then !t.Absent? else t.Fork? && HasPath(Child(t, p[0]), p[1..])
  }

  function At(t: Tree, p: Bits): Tree
    requires HasPath(t, p)
    decreases |p|
  {
    if p == [] then t else At(Child(t, p[0]), p[1..])
  }

  function Put(t: Tree, p: Bits, s: Tree): Tree
    requires HasPath(t, p)
    decreases |p|
  {
    if p == [] then s else WithChild(t, p[0], Put(Child(t, p[0]), p[1..], s))
  }

  lemma {:induction false} GrowHasPath(t: Tree, p: Bits)
    ensures HasPath(Grow(t, p), p)
    decreases |p|
  {
    if p != [] { GrowHasPath(Child(Split(t), p[0]), p[1..]); }
  }

  /** Inserting is walking to the node of the prefix and overlaying the record there. */
  lemma {:induction false} InsertIsGrowThenOverlay(sortKey: Key, t: Tree, p: Bits, v: Value)
    ensures HasPath(Grow(t, p), p)
    ensures Insert(sortKey, t, p, v) == Put(Grow(t, p), p, Overlay(sortKey, At(Grow(t, p), p), v))
    decreases |p|
  {
    GrowHasPath(t, p);
    if p != [] { InsertIsGrowThenOverlay(sortKey, Child(Split(t), p[0]), p[1..], v); }
  }

  /** Walking in two stages creates the same nodes as walking at once. */
  lemma {:induction false} GrowTwice(t: Tree, p: Bits, q: Bits)
    ensures HasPath(Grow(t, p), p)
    ensures Grow(t, p + q) == Put(Grow(t, p), p, Grow(At(Grow(t, p), p), q))
    decreases |p|
  {
    GrowHasPath(t, p);
    if p == [] {
      assert p + q == q;
    } else {
      assert (p + q)[0] == p[0] && (p + q)[1..] == p[1..] + q;
      GrowTwice(Child(Split(t), p[0]), p[1..], q);
    }
  }

  /** A path that exists is left as it is. */
  lemma {:induction false} GrowExisting(t: Tree, p: Bits)
    requires HasPath(t, p)
    ensures Grow(t, p) == t
    decreases |p|
  {
    if p != [] { GrowExisting(Child(t, p[0]), p[1..]); }
  }

  lemma {:induction false} PathPrefix(t: Tree, p: Bits, q: Bits)
    requires HasPath(t, p + q)
    ensures HasPath(t, p) && HasPath(At(t, p), q) && At(t, p + q) == At(At(t, p), q)
    decreases |p|
  {
    if p == [] {
      assert p + q == q;
      if q != [] { assert t.Fork?; }
    } else {
      assert (p + q)[0] == p[0] && (p + q)[1..] == p[1..] + q;
      PathPrefix(Child(t, p[0]), p[1..], q);
    }
  }

  // ---- pruning ------------------------------------------------------------

  /** prune_tree: two leaves with the same record become one leaf, bottom-up. */
  function Prune(t: Tree): Tree {
    match t
    case Fork(l, r) =>
      var l', r' := Prune(l), Prune(r);
      if l'.Leaf? && r' == l' && !l'.data.Null? then l' else Fork(l', r')
    case _ => t
  }

  /** No internal node has two leaves with the same record. */
  predicate Pruned(t: Tree) {
    t.Fork? ==> Pruned(t.left) && Pruned(t.right)
                && !(t.left.Leaf? && t.right == t.left && !t.left.data.Null?)
  }

  lemma {:induction false} PruneKeepsLookup(t: Tree, addr: Bits)
    requires Height(t) <= |addr|
    ensures Lookup(Prune(t), addr) == Lookup(t, addr)
    ensures Height(Prune(t)) <= Height(t)
    decreases t
  {
    match t
    case Fork(l, r) =>
      PruneKeepsLookup(l, addr[1..]);
      PruneKeepsLookup(r, addr[1..]);
    case _ =>
  }

  lemma {:induction false} PruneIsMaximal(t: Tree)
    ensures Pruned(Prune(t))
    ensures Pruned(t) ==> Prune(t) == t
  {
    match t
    case Fork(l, r) =>
      PruneIsMaximal(l);
      PruneIsMaximal(r);
    case _ =>
  }

  /** A pruned tree is a single leaf exactly when all addresses have the same record. */
  lemma {:induction false} PrunedToLeaf(t: Tree, width: nat, d: Value)
    requires Height(t) <= width && d != Null
    ensures Prune(t) == Leaf(d) <==> forall addr: Bits | |addr| == width :: Lookup(t, addr) == d
    decreases t
  {
    if t.Fork? {
      PrunedToLeaf(t.left, width - 1, d);
      PrunedToLeaf(t.right, width - 1, d);
      if Prune(t) == Leaf(d) {
        forall addr: Bits | |addr| == width ensures Lookup(t, addr) == d {
          PruneKeepsLookup(t, addr);
        }
      } else if forall addr: Bits | |addr| == width :: Lookup(t, addr) == d {
        forall a: Bits | |a| == width - 1 ensures Lookup(t.left, a) == d && Lookup(t.right, a) == d {
          assert Lookup(t, [false] + a) == d && ([false] + a)[1..] == a;
          assert Lookup(t, [true] + a) == d && ([true] + a)[1..] == a;
        }
        assert false;
      }
    } else {
      var zeros: Bits := seq(width, _ => false);
      assert |zeros| == width;
    }
  }
}
