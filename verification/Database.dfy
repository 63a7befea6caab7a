/**
 The database file before its metadata: search tree, separator, data section.
 A reader of the format gets, for every address, the merge of the records whose
 networks cover it, and the bytes depend only on the set of networks.
 */
module Database {
  import opened Bytes
  import opened ContentOrder
  import opened RecordMerge
  import opened Trie
  import opened TrieShape
  import opened DataFormat
  import opened DataSection
  import opened SearchTree

  // ---- laying out the records ---------------------------------------------

  datatype Layout = Layout(section: Section, offsets: Offsets)

  /** Writes a record unless it was already written as part of another one. */
  function EmitRecord(l: Layout, v: Value): Layout {
    if v.Null? then l
    else if v in l.section.emitted then Layout(l.section, l.offsets[v := l.section.emitted[v]])
    else Layout(Emit(l.section, v), l.offsets[v := |l.section.bytes| % TWO32])
  }

  function EmitRecords(vs: seq<Value>): Layout {
    if vs == [] then Layout(Section([0], map[]), map[])
    else EmitRecord(EmitRecords(vs[..|vs| - 1]), vs[|vs| - 1])
  }

  ghost predicate AllKnown(st: Section) {
    forall w | w in st.emitted :: Known(st, w)
  }

  /** The record `v` stands at offset `o`, in place. */
  ghost predicate Stands(b: seq<byte>, o: nat, v: Value) {
    o < |b| && !IsPointer(b, o) && exists next :: Exact(b, o, v, next)
  }

  ghost predicate LaidOut(l: Layout) {
    AllKnown(l.section) && forall v | v in l.offsets :: Stands(l.section.bytes, l.offsets[v], v)
  }

  lemma StandsStays(b: seq<byte>, b': seq<byte>, o: nat, v: Value)
    requires b <= b' && Stands(b, o, v)
    ensures Stands(b', o, v)
  {
    var next :| Exact(b, o, v, next);
    ExtendExact(b, b', o, v, next);
  }

  lemma KnownStands(st: Section, v: Value)
    requires Known(st, v)
    ensures Stands(st.bytes, st.emitted[v], v)
  {
    var next :| ExactInline(st.bytes, st.emitted[v], v, next);
    InPlace(st.bytes, st.emitted[v], v, next);
  }

  lemma EmitNotPointer(st: Section, v: Value)
    requires !v.Null? && v !in st.emitted
    ensures |Emit(st, v).bytes| > |st.bytes| && !IsPointer(Emit(st, v).bytes, |st.bytes|)
  {
    var st' := Emit(st, v);
    if v.Map? {
      HeaderHeads(7, |v.fields|);
      FirstStays(st, v, Header(7, |v.fields|), 7, |v.fields|, [], st') by {
        EmitFieldsGrows(Begin(st, v, Header(7, |v.fields|)), v.fields);
      }
    } else if v.Arr? {
      HeaderHeads(11, |v.elems|);
      FirstStays(st, v, Header(11, |v.elems|), 11, |v.elems|, [], st') by {
        EmitSeqGrows(Begin(st, v, Header(11, |v.elems|)), v.elems);
      }
    } else {
      HeaderHeads(Kind(v), SizeOf(v));
      FirstStays(st, v, Header(Kind(v), SizeOf(v)), Kind(v), SizeOf(v), Payload(v), st');
    }
  }

  lemma FirstStays(st: Section, v: Value, first: seq<byte>, kind: nat, size: nat, s: seq<byte>, st': Section)
    requires Heads(first, kind, size) && Begin(st, v, first + s).bytes <= st'.bytes
    ensures |st'.bytes| > |st.bytes| && !IsPointer(st'.bytes, |st.bytes|)
  {
    assert st.bytes + first <= st.bytes + (first + s);
    HoldsAppended(st.bytes, first, st'.bytes);
  }

  lemma EmitRecordLaysOut(l: Layout, v: Value)
    requires LaidOut(l) && |EmitRecord(l, v).section.bytes| <= TWO32
    ensures LaidOut(EmitRecord(l, v))
    ensures l.section.bytes <= EmitRecord(l, v).section.bytes
    ensures EmitRecord(l, v).offsets.Keys == l.offsets.Keys + (if v.Null? then {} else {v})
  {
    var l' := EmitRecord(l, v);
    if v.Null? {
    } else if v in l.section.emitted {
      KnownStands(l.section, v);
    } else {
      var st, st' := l.section, Emit(l.section, v);
      EmitExact(st, v);
      EmitNotPointer(st, v);
      NewRecord(l, v, st');
    }
  }

  lemma NewRecord(l: Layout, v: Value, st': Section)
    requires LaidOut(l) && Extends(l.section, st', Size(v)) && |l.section.bytes| < |st'.bytes| <= TWO32
    requires !IsPointer(st'.bytes, |l.section.bytes|)
    requires Exact(st'.bytes, |l.section.bytes|, v, |st'.bytes|)
    ensures LaidOut(Layout(st', l.offsets[v := |l.section.bytes| % TWO32]))
  {
    forall w | w in st'.emitted ensures Known(st', w) {
      if w in l.section.emitted { KnownStays(l.section, st', w); }
    }
    forall w | w in l.offsets ensures Stands(st'.bytes, l.offsets[w], w) {
      StandsStays(l.section.bytes, st'.bytes, l.offsets[w], w);
    }
    assert Stands(st'.bytes, |l.section.bytes|, v);
  }

  lemma {:induction false} EmitRecordsLayOut(vs: seq<Value>)
    requires |EmitRecords(vs).section.bytes| <= TWO32
    ensures LaidOut(EmitRecords(vs))
    ensures EmitRecords(vs).offsets.Keys == Elems(vs) - {Null}
  {
    if vs != [] {
      var init, last := vs[..|vs| - 1], vs[|vs| - 1];
      RecordGrows(EmitRecords(init), last);
      EmitRecordsLayOut(init);
      EmitRecordLaysOut(EmitRecords(init), last);
      assert vs == init + [last];
      assert Elems(vs) == Elems(init) + {last};
    }
  }

  lemma RecordGrows(l: Layout, v: Value)
    ensures l.section.bytes <= EmitRecord(l, v).section.bytes
  {
    EmitGrows(l.section, v);
  }

  /** Each record reads back at its offset, whatever follows, exactly when it is encodable. */
  lemma RecordsReadBack(vs: seq<Value>, v: Value, rest: seq<byte>, fuel: nat, strict: bool)
    requires v in vs && v != Null && fuel >= Depth(v)
    requires |EmitRecords(vs).section.bytes| <= TWO32
    ensures var l := EmitRecords(vs);
      && v in l.offsets && l.offsets[v] < |l.section.bytes|
      && !IsPointer(l.section.bytes, l.offsets[v])
      && var r := Read(l.section.bytes + rest, l.offsets[v], fuel, strict);
         (r.Some? && r.value.value == v <==> Encodable(v))
  {
    EmitRecordsLayOut(vs);
    var l := EmitRecords(vs);
    assert v in l.offsets.Keys;
    var next :| Exact(l.section.bytes, l.offsets[v], v, next);
    assert Result(Read(l.section.bytes + rest, l.offsets[v], fuel, strict), v, next);
  }

  // ---- the image ----------------------------------------------------------

  /** Records of the leaves, left to right. */
  function LeafRecords(t: Tree): seq<Value> {
    match t
    case Absent => []
    case Leaf(d) => if d.Null? then [] else [d]
    case Fork(l, r) => LeafRecords(l) + LeafRecords(r)
  }

  const SEPARATOR: seq<byte> := [0, 0, 0, 0, 0, 0, 0, 0, 0, 0, 0, 0, 0, 0, 0, 0]

  function LayoutOf(t: Tree): Layout {
    EmitRecords(SortDedup(LeafRecords(t)))
  }

  /** Everything build() writes before the metadata, for a pruned tree. */
  function Image(t: Tree): seq<byte> {
    PackNodes(NodeRecords(t, 0, NodeCount(t), LayoutOf(t).offsets)) + SEPARATOR + LayoutOf(t).section.bytes
  }

  /** A lookup by the format: search the tree, then read the data section; null when not found. */
  function Query(file: seq<byte>, nodeCount: nat, addr: Bits, fuel: nat, strict: bool): Option<Value> {
    match Search(file, nodeCount, 0, addr)
    case NotFound => Some(Null)
    case Malformed => None
    case DataAt(o) =>
      var data := 7 * nodeCount + 16;
      if data > |file| then None
      else
        match Read(file[data..], o, fuel, strict)
        case None => None
        case Some(item) => Some(item.value)
  }

  lemma {:induction false} LookupInLeaves(t: Tree, addr: Bits)
    requires Lookup(t, addr) != Null
    ensures Lookup(t, addr) in LeafRecords(t)
    decreases t
  {
    if t.Fork? { LookupInLeaves(Child(t, addr[0]), addr[1..]); }
  }

  ghost predicate FitsFormat(t: Tree) {
    NodeCount(t) + 16 + |LayoutOf(t).section.bytes| <= TWO28
  }

  lemma ImageSearch(t: Tree, meta: seq<byte>, addr: Bits)
    requires Height(t) <= |addr| && FitsFormat(t)
    ensures Search(Image(t) + meta, NodeCount(t), 0, addr)
         == if t.Fork? then Answer(Lookup(t, addr), LayoutOf(t).offsets) else NotFound
  {
    ImageParts(t, meta);
    var n, l := NodeCount(t), LayoutOf(t);
    var tail := SEPARATOR + l.section.bytes + meta;
    if t.Fork? {
      EmitRecordsLayOut(SortDedup(LeafRecords(t)));
      SearchParts(t, l.offsets, |l.section.bytes|, tail, addr);
    } else {
      LeafRootFindsNothing(t, l.offsets, tail, addr);
    }
  }

  lemma SearchParts(t: Tree, offsets: Offsets, limit: nat, tail: seq<byte>, addr: Bits)
    requires t.Fork? && Height(t) <= |addr| && NodeCount(t) + 16 + limit <= TWO28
    requires forall v | v in offsets :: offsets[v] < limit
    ensures Search(PackNodes(NodeRecords(t, 0, NodeCount(t), offsets)) + tail, NodeCount(t), 0, addr)
         == Answer(Lookup(t, addr), offsets)
  {
    SmallOffsetsFit(t, 0, NodeCount(t), offsets, limit);
    SearchIsLookup(t, offsets, tail, addr);
  }

  lemma ImageParts(t: Tree, meta: seq<byte>)
    ensures Image(t) + meta == PackNodes(NodeRecords(t, 0, NodeCount(t), LayoutOf(t).offsets))
                               + (SEPARATOR + LayoutOf(t).section.bytes + meta)
  {
    var nodes := PackNodes(NodeRecords(t, 0, NodeCount(t), LayoutOf(t).offsets));
    ConcatAssoc(nodes, SEPARATOR, LayoutOf(t).section.bytes);
    ConcatAssoc(nodes, SEPARATOR + LayoutOf(t).section.bytes, meta);
  }

  lemma DataSectionAt(t: Tree, n: nat, l: Layout, image: seq<byte>, meta: seq<byte>)
    requires n == NodeCount(t) && l == LayoutOf(t) && image == Image(t)
    ensures 7 * n + 16 <= |image + meta| && (image + meta)[7 * n + 16..] == l.section.bytes + meta
  {
    var rs := NodeRecords(t, 0, n, l.offsets);
    PackNodesLength(rs);
    SkipNodes(PackNodes(rs), 7 * n, SEPARATOR, l.section.bytes, meta, image);
  }

  lemma SkipNodes(nodes: seq<byte>, n: nat, gap: seq<byte>, section: seq<byte>, meta: seq<byte>, image: seq<byte>)
    requires |nodes| == n && |gap| == 16 && image == nodes + gap + section
    ensures n + 16 <= |image + meta| && (image + meta)[n + 16..] == section + meta
  {
    assert image + meta == (nodes + gap) + (section + meta);
  }

  /**
   For every address the file answers with the record of the tree, unless there is
   a record that the format cannot carry or the tree has no internal node.
   */
  lemma ImageAnswers(t: Tree, meta: seq<byte>, addr: Bits, fuel: nat, strict: bool)
    requires Height(t) <= |addr| && FitsFormat(t) && fuel >= Depth(Lookup(t, addr))
    ensures Query(Image(t) + meta, NodeCount(t), addr, fuel, strict) == Some(Lookup(t, addr))
       <==> Lookup(t, addr) == Null || (t.Fork? && Encodable(Lookup(t, addr)))
  {
    ImageSearch(t, meta, addr);
    var v := Lookup(t, addr);
    if v != Null && t.Fork? {
      LookupInLeaves(t, addr);
      SortDedupSorts(LeafRecords(t));
      assert v in Elems(SortDedup(LeafRecords(t)));
      RecordsReadBack(SortDedup(LeafRecords(t)), v, meta, fuel, strict);
      DataSectionAt(t, NodeCount(t), LayoutOf(t), Image(t), meta);
      QueryFound(Image(t) + meta, NodeCount(t), addr, fuel, strict, LayoutOf(t).offsets[v],
                 LayoutOf(t).section.bytes + meta);
    } else {
      QueryMissing(Image(t) + meta, NodeCount(t), addr, fuel, strict);
    }
  }

  lemma QueryFound(file: seq<byte>, n: nat, addr: Bits, fuel: nat, strict: bool, o: nat, data: seq<byte>)
    requires Search(file, n, 0, addr) == DataAt(o)
    requires 7 * n + 16 <= |file| && file[7 * n + 16..] == data
    ensures Query(file, n, addr, fuel, strict)
         == if Read(data, o, fuel, strict).None? then None else Some(Read(data, o, fuel, strict).value.value)
  {
  }

  lemma QueryMissing(file: seq<byte>, n: nat, addr: Bits, fuel: nat, strict: bool)
    requires Search(file, n, 0, addr) == NotFound
    ensures Query(file, n, addr, fuel, strict) == Some(Null)
  {
  }

  // ---- end to end ---------------------------------------------------------

  /** The bytes built from a sequence of insertions. */
  function BuiltTree(sortKey: Key, ns: seq<Network>): Tree {
    Prune(InsertAll(sortKey, ns))
  }

  /**
   Built database, queried by the format: every address gets the left-to-right merge of
   the records of exactly the networks covering it.
   */
  lemma DatabaseAnswers(sortKey: Key, ns: seq<Network>, meta: seq<byte>, addr: Bits, fuel: nat, strict: bool)
    requires PrefixesWithin(ns, |addr|) && FitsFormat(BuiltTree(sortKey, ns))
    requires fuel >= Depth(FoldMerge(sortKey, Covering(ns, addr)))
    ensures var t := BuiltTree(sortKey, ns); var v := FoldMerge(sortKey, Covering(ns, addr));
      Query(Image(t) + meta, NodeCount(t), addr, fuel, strict) == Some(v)
      <==> v == Null || (t.Fork? && Encodable(v))
  {
    HeightInsertAll(sortKey, ns, |addr|);
    PruneKeepsLookup(InsertAll(sortKey, ns), addr);
    LookupIsFold(sortKey, ns, addr);
    ImageAnswers(BuiltTree(sortKey, ns), meta, addr, fuel, strict);
  }

  /** The tree degenerates to a leaf with data exactly when all addresses share one record. */
  lemma DegenerateTree(sortKey: Key, ns: seq<Network>, width: nat, d: Value)
    requires PrefixesWithin(ns, width) && d != Null
    ensures BuiltTree(sortKey, ns) == Leaf(d)
       <==> forall addr: Bits | |addr| == width :: FoldMerge(sortKey, Covering(ns, addr)) == d
  {
    HeightInsertAll(sortKey, ns, width);
    PrunedToLeaf(InsertAll(sortKey, ns), width, d);
    forall addr: Bits | |addr| == width
      ensures Lookup(InsertAll(sortKey, ns), addr) == FoldMerge(sortKey, Covering(ns, addr))
    {
      LookupIsFold(sortKey, ns, addr);
    }
  }

  /** A record for the whole address space is lost: the file answers "no entry" for every address. */
  lemma WholeSpaceIsLost(sortKey: Key, r: Value, meta: seq<byte>, addr: Bits, fuel: nat, strict: bool)
    requires r != Null
    ensures
      var ns := [Network([], r)];
      && FoldMerge(sortKey, Covering(ns, addr)) == r
      && Query(Image(BuiltTree(sortKey, ns)) + meta, NodeCount(BuiltTree(sortKey, ns)), addr, fuel, strict) == Some(Null)
  {
    var ns := [Network([], r)];
    var t := BuiltTree(sortKey, ns);
    assert ns[..0] == [];
    assert Covering(ns, addr) == [] + [r];
    assert InsertAll(sortKey, ns) == Insert(sortKey, InsertAll(sortKey, []), [], r);
    assert t == Leaf(r);
    ImageParts(t, meta);
    LeafRootFindsNothing(t, LayoutOf(t).offsets, SEPARATOR + LayoutOf(t).section.bytes + meta, addr);
    QueryMissing(Image(t) + meta, NodeCount(t), addr, fuel, strict);
  }

  /** Any order, batching or repetition of the same columnar networks yields the same bytes. */
  lemma ReproducibleOutput(sortKey: Key, keys: seq<Key>, ns: seq<Network>, ms: seq<Network>)
    requires ColumnarNetworks(keys, ns) && Elems(ns) == Elems(ms)
    ensures Image(BuiltTree(sortKey, ns)) == Image(BuiltTree(sortKey, ms))
    ensures NodeCount(BuiltTree(sortKey, ns)) == NodeCount(BuiltTree(sortKey, ms))
  {
    InsertOrderIrrelevant(sortKey, keys, ns, ms);
  }
}
