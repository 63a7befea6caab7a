/**
 The trie as a function of the inserted networks. `Shape` rebuilds the tree from
 the list of networks by splitting the list at each bit; insertion always
 produces it. With columnar records it depends only on the set of networks.
 */
module TrieShape {
  import opened Bytes
  import opened ContentOrder
  import opened RecordMerge
  import opened Trie

  /** What a network means below the child `bit` of the current node. */
  function BelowOne(n: Network, bit: bool): seq<Network> {
    if n.prefix == [] then [n]
    else if n.prefix[0] == bit then [Network(n.prefix[1..], n.record)]
    else []
  }

  function Below(ns: seq<Network>, bit: bool): seq<Network> {
    if ns == [] then [] else Below(ns[..|ns| - 1], bit) + BelowOne(ns[|ns| - 1], bit)
  }

  function Records(ns: seq<Network>): seq<Value> {
    seq(|ns|, i requires 0 <= i < |ns| => ns[i].record)
  }

  /** All networks cover the whole node. */
  predicate Whole(ns: seq<Network>) {
    forall i | 0 <= i < |ns| :: ns[i].prefix == []
  }

  function Longest(ns: seq<Network>): nat {
    if ns == [] then 0
    else
      var m, k := Longest(ns[..|ns| - 1]), |ns[|ns| - 1].prefix|;
      if m < k then k else m
  }

  lemma {:induction false} LongestBound(ns: seq<Network>, i: nat)
    requires i < |ns|
    ensures |ns[i].prefix| <= Longest(ns)
  {
    if i < |ns| - 1 { LongestBound(ns[..|ns| - 1], i); }
  }

  lemma {:induction false} WholeIffFlat(ns: seq<Network>)
    ensures Whole(ns) <==> Longest(ns) == 0
  {
    if ns != [] {
      var init := ns[..|ns| - 1];
      WholeIffFlat(init);
      assert Whole(ns) <==> Whole(init) && ns[|ns| - 1].prefix == [];
    }
  }

  lemma {:induction false} LongestBelow(ns: seq<Network>, bit: bool)
    ensures Longest(Below(ns, bit)) <= if Longest(ns) == 0 then 0 else Longest(ns) - 1
  {
    if ns != [] {
      var init, last := ns[..|ns| - 1], ns[|ns| - 1];
      LongestBelow(init, bit);
      LongestJoin(Below(init, bit), BelowOne(last, bit));
    }
  }

  lemma LongestJoin(ns: seq<Network>, one: seq<Network>)
    requires |one| <= 1
    ensures Longest(ns + one) == if one == [] || |one[0].prefix| <= Longest(ns) then Longest(ns) else |one[0].prefix|
  {
    if one == [] {
      assert ns + one == ns;
    } else {
      assert (ns + one)[..|ns|] == ns;
    }
  }

  ghost function Shape(sortKey: Key, ns: seq<Network>): Tree
    decreases Longest(ns)
  {
    if ns == [] then Absent
    else if Whole(ns) then Leaf(FoldMerge(sortKey, Records(ns)))
    else
      WholeIffFlat(ns);
      LongestBelow(ns, false);
      LongestBelow(ns, true);
      Fork(Shape(sortKey, Below(ns, false)), Shape(sortKey, Below(ns, true)))
  }

  lemma BelowSnoc(ns: seq<Network>, n: Network, bit: bool)
    ensures Below(ns + [n], bit) == Below(ns, bit) + BelowOne(n, bit)
  {
    assert (ns + [n])[..|ns|] == ns;
  }

  lemma {:induction false} BelowWhole(ns: seq<Network>, bit: bool)
    requires Whole(ns)
    ensures Below(ns, bit) == ns
  {
    if ns != [] {
      BelowWhole(ns[..|ns| - 1], bit);
      assert ns == ns[..|ns| - 1] + [ns[|ns| - 1]];
    }
  }

  ghost predicate NonNull(ns: seq<Network>) {
    forall i | 0 <= i < |ns| :: ns[i].record != Null
  }

  lemma {:induction false} NonNullBelow(ns: seq<Network>, bit: bool)
    requires NonNull(ns)
    ensures NonNull(Below(ns, bit))
  {
    if ns != [] { NonNullBelow(ns[..|ns| - 1], bit); }
  }

  lemma {:induction false} FoldNonNull(sortKey: Key, vs: seq<Value>)
    requires vs != [] && forall i | 0 <= i < |vs| :: vs[i] != Null
    ensures FoldMerge(sortKey, vs) != Null
  {
    MergeNonNull(sortKey, FoldMerge(sortKey, vs[..|vs| - 1]), vs[|vs| - 1]);
  }

  lemma WholeSnoc(ns: seq<Network>, n: Network)
    ensures Whole(ns + [n]) <==> Whole(ns) && n.prefix == []
  {
    var ms := ns + [n];
    assert ms[|ns|] == n;
    if Whole(ms) {
      assert forall i | 0 <= i < |ns| :: ns[i] == ms[i];
    }
  }

  lemma ShapeFork(sortKey: Key, ns: seq<Network>)
    requires ns != [] && !Whole(ns)
    ensures Shape(sortKey, ns) == Fork(Shape(sortKey, Below(ns, false)), Shape(sortKey, Below(ns, true)))
  {
  }

  /** Inserting one more network into the tree of a list gives the tree of the longer list. */
  lemma {:induction false} InsertShape(sortKey: Key, ns: seq<Network>, n: Network)
    requires NonNull(ns)
    ensures Insert(sortKey, Shape(sortKey, ns), n.prefix, n.record) == Shape(sortKey, ns + [n])
    decreases Longest(ns) + |n.prefix|, 1
  {
    WholeSnoc(ns, n);
    if Whole(ns) && n.prefix == [] {
      FoldSnoc(sortKey, Records(ns), n.record);
      assert Records(ns + [n]) == Records(ns) + [n.record];
    } else {
      ShapeFork(sortKey, ns + [n]);
      InsertShapeChild(sortKey, ns, n, false);
      InsertShapeChild(sortKey, ns, n, true);
      var t := Insert(sortKey, Shape(sortKey, ns), n.prefix, n.record);
      assert t == Fork(Child(t, false), Child(t, true));
    }
  }

  lemma {:induction false} InsertShapeChild(sortKey: Key, ns: seq<Network>, n: Network, bit: bool)
    requires NonNull(ns) && !(Whole(ns) && n.prefix == [])
    ensures Insert(sortKey, Shape(sortKey, ns), n.prefix, n.record).Fork?
    ensures Child(Insert(sortKey, Shape(sortKey, ns), n.prefix, n.record), bit)
         == Shape(sortKey, Below(ns + [n], bit))
    decreases Longest(ns) + |n.prefix|, 0
  {
    var p := n.prefix;
    SplitShape(sortKey, ns, p);
    InsertChild(sortKey, Shape(sortKey, ns), p, n.record, bit);
    BelowSnoc(ns, n, bit);
    NonNullBelow(ns, bit);
    LongestBelow(ns, bit);
    WholeIffFlat(ns);
    if p == [] {
      InsertShape(sortKey, Below(ns, bit), n);
    } else if p[0] == bit {
      InsertShape(sortKey, Below(ns, bit), Network(p[1..], n.record));
    } else {
      assert Below(ns, bit) + [] == Below(ns, bit);
    }
  }

  /** What an insertion does to one child. */
  lemma InsertChild(sortKey: Key, t: Tree, p: Bits, v: Value, bit: bool)
    requires p == [] ==> t.Fork?
    ensures Insert(sortKey, t, p, v).Fork?
    ensures Child(Insert(sortKey, t, p, v), bit) ==
      if p == [] then Insert(sortKey, Child(Split(t), bit), [], v)
      else if p[0] == bit then Insert(sortKey, Child(Split(t), bit), p[1..], v)
      else Child(Split(t), bit)
  {
  }

  /** Splitting the tree of a list exposes the trees of both halves. */
  lemma SplitShape(sortKey: Key, ns: seq<Network>, p: Bits)
    requires NonNull(ns) && !(Whole(ns) && p == [])
    ensures Split(Shape(sortKey, ns))
         == Fork(Shape(sortKey, Below(ns, false)), Shape(sortKey, Below(ns, true)))
    ensures p == [] ==> Shape(sortKey, ns).Fork?
  {
    if ns != [] && Whole(ns) {
      BelowWhole(ns, false);
      BelowWhole(ns, true);
      FoldNonNull(sortKey, Records(ns));
    }
  }

  /** The trie is determined by the list of networks. */
  lemma {:induction false} InsertAllIsShape(sortKey: Key, ns: seq<Network>)
    requires NonNull(ns)
    ensures InsertAll(sortKey, ns) == if ns == [] then Leaf(Null) else Shape(sortKey, ns)
  {
    if ns != [] {
      var init, last := ns[..|ns| - 1], ns[|ns| - 1];
      assert ns == init + [last];
      InsertAllIsShape(sortKey, init);
      InsertShape(sortKey, init, last);
      if init == [] { EmptyLeafIsAbsent(sortKey, last.prefix, last.record); }
    }
  }

  lemma EmptyLeafIsAbsent(sortKey: Key, p: Bits, v: Value)
    ensures Insert(sortKey, Leaf(Null), p, v) == Insert(sortKey, Absent, p, v)
  {
  }

  // ---- order independence -------------------------------------------------

  ghost predicate ColumnarNetworks(keys: seq<Key>, ns: seq<Network>) {
    forall i | 0 <= i < |ns| :: Record(keys, ns[i].record)
  }

  lemma {:induction false} BelowMembers(ns: seq<Network>, bit: bool, m: Network)
    ensures m in Below(ns, bit) <==> exists n :: n in ns && m in BelowOne(n, bit)
  {
    if ns != [] {
      var init, last := ns[..|ns| - 1], ns[|ns| - 1];
      BelowMembers(init, bit, m);
      assert forall n :: n in ns <==> n in init || n == last by { assert ns == init + [last]; }
    }
  }

  lemma BelowElems(ns: seq<Network>, ms: seq<Network>, bit: bool)
    requires Elems(ns) == Elems(ms)
    ensures Elems(Below(ns, bit)) == Elems(Below(ms, bit))
  {
    SameMembers(ns, ms);
    forall m ensures m in Below(ns, bit) <==> m in Below(ms, bit) {
      BelowMembers(ns, bit, m);
      BelowMembers(ms, bit, m);
    }
  }

  lemma SameMembers<T>(a: seq<T>, b: seq<T>)
    requires Elems(a) == Elems(b)
    ensures forall x :: x in a <==> x in b
    ensures a == [] <==> b == []
  {
    forall x ensures x in a <==> x in b {
      assert x in Elems(a) <==> x in a;
      assert x in Elems(b) <==> x in b;
    }
    assert a != [] ==> a[0] in b;
    assert b != [] ==> b[0] in a;
  }

  lemma RecordsElems(ns: seq<Network>, ms: seq<Network>)
    requires Elems(ns) == Elems(ms)
    ensures Elems(Records(ns)) == Elems(Records(ms))
  {
    RecordsSubset(ns, ms);
    RecordsSubset(ms, ns);
  }

  lemma RecordsSubset(ns: seq<Network>, ms: seq<Network>)
    requires Elems(ns) == Elems(ms)
    ensures Elems(Records(ns)) <= Elems(Records(ms))
  {
    SameMembers(ns, ms);
    forall v | v in Records(ns) ensures v in Records(ms) {
      var i :| 0 <= i < |ns| && Records(ns)[i] == v;
      assert ns[i] in ms;
      var j :| 0 <= j < |ms| && ms[j] == ns[i];
      assert Records(ms)[j] == v;
    }
  }

  lemma {:induction false} ColumnarBelow(keys: seq<Key>, ns: seq<Network>, bit: bool)
    requires ColumnarNetworks(keys, ns)
    ensures ColumnarNetworks(keys, Below(ns, bit))
  {
    if ns != [] { ColumnarBelow(keys, ns[..|ns| - 1], bit); }
  }

  /** With columnar records the tree depends only on the set of networks. */
  lemma {:induction false} ShapeDependsOnSet(sortKey: Key, keys: seq<Key>, ns: seq<Network>, ms: seq<Network>)
    requires ColumnarNetworks(keys, ns) && Elems(ns) == Elems(ms)
    ensures Shape(sortKey, ns) == Shape(sortKey, ms)
    decreases Longest(ns)
  {
    SameMembers(ns, ms);
    assert Whole(ns) == Whole(ms) by { WholeBySet(ns, ms); WholeBySet(ms, ns); }
    if ns != [] {
      if Whole(ns) {
        RecordsElems(ns, ms);
        assert AllRecords(keys, Records(ns));
        FoldDependsOnSet(sortKey, keys, Records(ns), Records(ms));
      } else {
        WholeIffFlat(ns);
        forall bit: bool ensures Shape(sortKey, Below(ns, bit)) == Shape(sortKey, Below(ms, bit)) {
          LongestBelow(ns, bit);
          ColumnarBelow(keys, ns, bit);
          BelowElems(ns, ms, bit);
          ShapeDependsOnSet(sortKey, keys, Below(ns, bit), Below(ms, bit));
        }
      }
    }
  }

  lemma WholeBySet(ns: seq<Network>, ms: seq<Network>)
    requires Elems(ns) == Elems(ms)
    ensures Whole(ns) ==> Whole(ms)
  {
    SameMembers(ns, ms);
    if Whole(ns) {
      forall j | 0 <= j < |ms| ensures ms[j].prefix == [] { assert ms[j] in ns; }
    }
  }

  /** Any two insertion orders of the same networks, with any repetitions, build the same trie. */
  lemma InsertOrderIrrelevant(sortKey: Key, keys: seq<Key>, ns: seq<Network>, ms: seq<Network>)
    requires ColumnarNetworks(keys, ns) && Elems(ns) == Elems(ms)
    ensures InsertAll(sortKey, ns) == InsertAll(sortKey, ms)
  {
    SameMembers(ns, ms);
    assert NonNull(ns);
    assert NonNull(ms) by {
      forall j | 0 <= j < |ms| ensures ms[j].record != Null { assert ms[j] in ns; }
    }
    ShapeDependsOnSet(sortKey, keys, ns, ms);
    InsertAllIsShape(sortKey, ns);
    InsertAllIsShape(sortKey, ms);
  }
}
