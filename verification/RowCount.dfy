/** Merging one-row records counts them: the merge has one row for each distinct record. */
module RowCount {
  import opened Bytes
  import opened ContentOrder
  import opened RecordMerge

  /** A record with exactly one row, as every blocklist record is. */
  ghost predicate Single(keys: seq<Key>, v: Value) {
    Record(keys, v) && |Column(v.fields[0])| == 1
  }

  ghost predicate AllSingle(keys: seq<Key>, vs: seq<Value>) {
    forall v | v in vs :: Single(keys, v)
  }

  ghost function RowOf(k: Key, keys: seq<Key>, v: Value): Value {
    if Single(keys, v) then Rows(k, v)[0] else Null
  }

  /** A one-row record is determined by its row. */
  lemma RowDetermines(k: Key, keys: seq<Key>, u: Value, v: Value)
    requires Single(keys, u) && Single(keys, v) && RowOf(k, keys, u) == RowOf(k, keys, v)
    ensures u == v
  {
    assert Rows(k, u) == Rows(k, v);
    FromTableTable(SortColumn(k, keys), u.fields);
    FromTableTable(SortColumn(k, keys), v.fields);
  }

  ghost function RowSet(k: Key, keys: seq<Key>, s: set<Value>): set<Value> {
    set v | v in s :: RowOf(k, keys, v)
  }

  lemma {:induction false} RowSetSize(k: Key, keys: seq<Key>, s: set<Value>)
    requires forall v | v in s :: Single(keys, v)
    ensures |RowSet(k, keys, s)| == |s|
    decreases |s|
  {
    if s != {} {
      var v :| v in s;
      RowSetSize(k, keys, s - {v});
      RowSetWithout(k, keys, s, v);
    }
  }

  lemma RowSetWithout(k: Key, keys: seq<Key>, s: set<Value>, v: Value)
    requires (forall u | u in s :: Single(keys, u)) && v in s
    ensures RowOf(k, keys, v) !in RowSet(k, keys, s - {v})
    ensures RowSet(k, keys, s) == RowSet(k, keys, s - {v}) + {RowOf(k, keys, v)}
  {
    if RowOf(k, keys, v) in RowSet(k, keys, s - {v}) {
      RowSetMember(k, keys, s - {v}, v);
    }
  }

  /** The set of rows determines the set of one-row records. */
  lemma RowSetInjective(k: Key, keys: seq<Key>, s: set<Value>, t: set<Value>)
    requires (forall v | v in s :: Single(keys, v)) && (forall v | v in t :: Single(keys, v))
    requires RowSet(k, keys, s) == RowSet(k, keys, t)
    ensures s == t
  {
    forall v | v in s ensures v in t { RowSetMember(k, keys, t, v); }
    forall v | v in t ensures v in s { RowSetMember(k, keys, s, v); }
  }

  lemma RowSetMember(k: Key, keys: seq<Key>, s: set<Value>, v: Value)
    requires (forall u | u in s :: Single(keys, u)) && Single(keys, v) && RowOf(k, keys, v) in RowSet(k, keys, s)
    ensures v in s
  {
    var u :| u in s && RowOf(k, keys, u) == RowOf(k, keys, v);
    RowDetermines(k, keys, u, v);
  }

  lemma AllRowsAreRowSet(k: Key, keys: seq<Key>, vs: seq<Value>)
    requires AllSingle(keys, vs)
    ensures AllRecords(keys, vs) && AllRows(k, keys, vs) == RowSet(k, keys, Elems(vs))
  {
    forall v | v in vs ensures Rows(k, v) == [RowOf(k, keys, v)] {
      assert Single(keys, v);
    }
    forall r | r in RowSet(k, keys, Elems(vs)) ensures r in AllRows(k, keys, vs) {
      var v :| v in vs && RowOf(k, keys, v) == r;
      assert r in Rows(k, v);
    }
    forall r | r in AllRows(k, keys, vs) ensures r in RowSet(k, keys, Elems(vs)) {
      var v :| v in vs && r in Rows(k, v);
      assert v in Elems(vs) && RowOf(k, keys, v) == r;
    }
  }

  lemma {:induction false} AscendingSize(s: seq<Value>)
    requires Ascending(s)
    ensures |Elems(s)| == |s|
  {
    if s != [] {
      var init, last := s[..|s| - 1], s[|s| - 1];
      AscendingSize(init);
      assert last !in init by {
        LessIsStrictTotalOrder(last, last, last);
      }
      assert s == init + [last];
      assert Elems(s) == Elems(init) + {last};
    }
  }

  /** The merge of one-row records has exactly as many rows as there are distinct records. */
  lemma MergeCounts(k: Key, keys: seq<Key>, vs: seq<Value>)
    requires AllSingle(keys, vs) && vs != []
    ensures Record(keys, FoldMerge(k, vs)) && |Rows(k, FoldMerge(k, vs))| == |Elems(vs)|
    ensures Elems(Rows(k, FoldMerge(k, vs))) == RowSet(k, keys, Elems(vs))
  {
    AllRowsAreRowSet(k, keys, vs);
    FoldIsUnion(k, keys, vs);
    if Constant(vs) {
      assert vs[0] in vs;
      assert Elems(vs) == {vs[0]} by {
        forall v | v in Elems(vs) ensures v == vs[0] {
        }
      }
      assert Single(keys, vs[0]);
    } else {
      AscendingSize(Rows(k, FoldMerge(k, vs)));
      RowSetSize(k, keys, Elems(vs));
    }
  }

  /** Two merges of one-row records are equal exactly if the same records were merged. */
  lemma MergeDetermines(k: Key, keys: seq<Key>, vs: seq<Value>, ws: seq<Value>)
    requires AllSingle(keys, vs) && AllSingle(keys, ws)
    ensures FoldMerge(k, vs) == FoldMerge(k, ws) <==> Elems(vs) == Elems(ws)
  {
    AllRowsAreRowSet(k, keys, vs);
    AllRowsAreRowSet(k, keys, ws);
    if Elems(vs) == Elems(ws) {
      FoldDependsOnSet(k, keys, vs, ws);
    }
    if FoldMerge(k, vs) == FoldMerge(k, ws) {
      EmptyMerge(k, keys, vs);
      EmptyMerge(k, keys, ws);
      if vs != [] {
        MergeCounts(k, keys, vs);
        MergeCounts(k, keys, ws);
        RowSetInjective(k, keys, Elems(vs), Elems(ws));
      }
    }
  }

  lemma EmptyMerge(k: Key, keys: seq<Key>, vs: seq<Value>)
    requires AllSingle(keys, vs)
    ensures FoldMerge(k, vs) == Null <==> vs == []
    ensures Elems(vs) == {} <==> vs == []
  {
    if vs != [] {
      MergeCounts(k, keys, vs);
      assert vs[0] in Elems(vs);
    }
  }
}
