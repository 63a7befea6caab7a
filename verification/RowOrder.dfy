/**
 What the content order and the columnar merge mean for the values a reader sees: on texts, numbers
 and columns, without the rows and positions the merge works with.
 */
module RowOrder {
  import opened Bytes
  import opened ContentOrder
  import opened RecordMerge

  // ---------- the content order ----------

  /** Up to `p` the texts agree, and there `s` has the smaller byte or ends. */
  predicate BelowAt(s: seq<byte>, t: seq<byte>, p: nat) {
    p <= |s| && p < |t| && (forall k | 0 <= k < p :: s[k] == t[k]) && (p == |s| || s[p] < t[p])
  }

  /** The first difference is a smaller byte, or `s` ends there. */
  ghost predicate TextBelow(s: seq<byte>, t: seq<byte>) {
    exists p: nat :: BelowAt(s, t, p)
  }

  lemma {:induction false} CmpIsTextBelow(s: seq<byte>, t: seq<byte>)
    ensures CmpBytes(s, t) < 0 <==> TextBelow(s, t)
  {
    if s == [] || t == [] || s[0] != t[0] {
      assert CmpBytes(s, t) < 0 <==> BelowAt(s, t, 0);
      assert TextBelow(s, t) ==> BelowAt(s, t, 0);
    } else {
      CmpIsTextBelow(s[1..], t[1..]);
      TextBelowTail(s, t, s[1..], t[1..]);
    }
  }

  lemma TextBelowTail(s: seq<byte>, t: seq<byte>, s': seq<byte>, t': seq<byte>)
    requires s != [] && t != [] && s[0] == t[0] && s' == s[1..] && t' == t[1..]
    ensures TextBelow(s, t) <==> TextBelow(s', t')
  {
    if p: nat :| BelowAt(s, t, p) {
      assert p > 0;
      assert BelowAt(s', t', p - 1);
    }
    if p: nat :| BelowAt(s', t', p) {
      forall k | 0 <= k < p + 1 ensures s[k] == t[k] {
        assert k > 0 ==> s[k] == s'[k - 1] && t[k] == t'[k - 1];
      }
      assert BelowAt(s, t, p + 1);
    }
  }

  /** Texts and byte strings are ordered by the smaller byte at the first difference, a shorter one first. */
  lemma TextOrder(s: seq<byte>, t: seq<byte>)
    ensures Less(Str(s), Str(t)) <==> TextBelow(s, t)
    ensures Less(Blob(s), Blob(t)) <==> TextBelow(s, t)
  {
    CmpIsTextBelow(s, t);
  }

  /** Values of different variants are ordered by the variant, in the order of declaration. */
  lemma VariantOrder(v: Value, w: Value)
    ensures v.Null? && !w.Null? ==> Less(v, w)
    ensures v.Str? && !w.Null? && !w.Str? ==> Less(v, w)
    ensures v.Blob? && (w.U16? || w.U32? || w.I32? || w.U64? || w.Bool? || w.Map? || w.Arr?) ==> Less(v, w)
    ensures v.U16? && (w.U32? || w.I32? || w.U64? || w.Bool? || w.Map? || w.Arr?) ==> Less(v, w)
    ensures v.U32? && (w.I32? || w.U64? || w.Bool? || w.Map? || w.Arr?) ==> Less(v, w)
    ensures v.I32? && (w.U64? || w.Bool? || w.Map? || w.Arr?) ==> Less(v, w)
    ensures v.U64? && (w.Bool? || w.Map? || w.Arr?) ==> Less(v, w)
    ensures v.Bool? && (w.Map? || w.Arr?) ==> Less(v, w)
    ensures v.Map? && w.Arr? ==> Less(v, w)
  {
  }

  /** Numbers are ordered by value, and false comes before true. */
  lemma NumberOrder(m: nat, n: nat, i: i32, j: i32, b: bool, c: bool)
    ensures m < 0x1_0000 && n < 0x1_0000 ==> (Less(U16(m), U16(n)) <==> m < n)
    ensures m < 0x1_0000_0000 && n < 0x1_0000_0000 ==> (Less(U32(m), U32(n)) <==> m < n)
    ensures m < 0x1_0000_0000_0000_0000 && n < 0x1_0000_0000_0000_0000 ==> (Less(U64(m), U64(n)) <==> m < n)
    ensures Less(I32(i), I32(j)) <==> i < j
    ensures Less(Bool(b), Bool(c)) <==> !b && c
  {
  }

  /** Arrays are ordered by the first element that differs; a proper beginning comes first. */
  lemma ArrayOrder(xs: seq<Value>, ys: seq<Value>) returns (p: nat)
    requires Less(Arr(xs), Arr(ys))
    ensures p <= |xs| && p < |ys| && xs[..p] == ys[..p] && (p == |xs| || Less(xs[p], ys[p]))
  {
    p := FirstDifference(xs, ys);
  }

  lemma {:induction false} FirstDifference(xs: seq<Value>, ys: seq<Value>) returns (p: nat)
    requires CmpSeq(xs, ys) < 0
    ensures p <= |xs| && p < |ys| && xs[..p] == ys[..p] && (p == |xs| || Less(xs[p], ys[p]))
  {
    p := 0;
    if xs != [] && ys != [] {
      CmpOrder(xs[0], ys[0]);
      if xs[0] == ys[0] {
        p := FirstDifference(xs[1..], ys[1..]);
        assert xs[..p + 1] == [xs[0]] + xs[1..][..p] && ys[..p + 1] == [ys[0]] + ys[1..][..p];
        p := p + 1;
      }
    }
  }

  /** Maps are ordered by the first field that differs: by its key, then by its value. */
  lemma MapOrder(fs: seq<Field>, gs: seq<Field>) returns (p: nat)
    requires Less(Map(fs), Map(gs))
    ensures p <= |fs| && p < |gs| && fs[..p] == gs[..p]
    ensures p == |fs| || TextBelow(fs[p].key, gs[p].key) || (fs[p].key == gs[p].key && Less(fs[p].value, gs[p].value))
  {
    p := FirstFieldDifference(fs, gs);
  }

  lemma {:induction false} FirstFieldDifference(fs: seq<Field>, gs: seq<Field>) returns (p: nat)
    requires CmpFields(fs, gs) < 0
    ensures p <= |fs| && p < |gs| && fs[..p] == gs[..p]
    ensures p == |fs| || TextBelow(fs[p].key, gs[p].key) || (fs[p].key == gs[p].key && Less(fs[p].value, gs[p].value))
  {
    p := 0;
    if fs != [] && gs != [] {
      CmpBytesOrder(fs[0].key, gs[0].key);
      CmpIsTextBelow(fs[0].key, gs[0].key);
      CmpOrder(fs[0].value, gs[0].value);
      if fs[0] == gs[0] {
        p := FirstFieldDifference(fs[1..], gs[1..]);
        assert fs[..p + 1] == [fs[0]] + fs[1..][..p] && gs[..p + 1] == [gs[0]] + gs[1..][..p];
        p := p + 1;
      }
    }
  }

  // ---------- the columns of a merged record ----------

  /** Cell `i` of column `c`. */
  function Cell(fs: seq<Field>, c: nat, i: nat): Value
    requires Columnar(fs) && c < |fs| && i < |Column(fs[0])|
  {
    fs[c].value.elems[i]
  }

  /** Column `c` has the sort key as its name, and none before it has. */
  predicate IsSortColumn(sortKey: Key, keys: seq<Key>, c: nat) {
    c < |keys| && keys[c] == sortKey && forall d | 0 <= d < c :: keys[d] != sortKey
  }

  /** Among the columns other than `c`, the first in key order in which the rows differ ascends. */
  ghost predicate AscendsApart(fs: seq<Field>, c: nat, i: nat, j: nat)
    requires Columnar(fs) && i < |Column(fs[0])| && j < |Column(fs[0])|
  {
    exists d: nat :: d < |fs| && d != c && Less(Cell(fs, d, i), Cell(fs, d, j))
      && forall e: nat | e < d && e != c :: Cell(fs, e, i) == Cell(fs, e, j)
  }

  lemma SortColumnIs(sortKey: Key, keys: seq<Key>, c: nat)
    requires IsSortColumn(sortKey, keys, c)
    ensures SortColumn(sortKey, keys) == c
  {
    var k := SortColumn(sortKey, keys);
  }

  lemma NoSortColumn(sortKey: Key, keys: seq<Key>)
    requires forall d | 0 <= d < |keys| :: keys[d] != sortKey
    ensures SortColumn(sortKey, keys) == |keys|
  {
    var k := SortColumn(sortKey, keys);
  }

  /** Position `p` of row `i` is a cell. */
  lemma RowCell(k: nat, fs: seq<Field>, i: nat, p: nat)
    requires Columnar(fs) && i < |Column(fs[0])| && p < |fs|
    ensures |RowAt(k, fs, i).elems| == |fs| && RowAt(k, fs, i).elems[p] == Cell(fs, ColumnAt(|fs|, k, p), i)
  {
  }

  lemma RowsDiffer(k: nat, fs: seq<Field>, i: nat, j: nat) returns (p: nat)
    requires Columnar(fs) && Ascending(Table(k, fs)) && i < j < |Column(fs[0])|
    ensures p < |fs| && Less(Cell(fs, ColumnAt(|fs|, k, p), i), Cell(fs, ColumnAt(|fs|, k, p), j))
    ensures forall q: nat | q < p :: Cell(fs, ColumnAt(|fs|, k, q), i) == Cell(fs, ColumnAt(|fs|, k, q), j)
  {
    var x, y := RowAt(k, fs, i).elems, RowAt(k, fs, j).elems;
    assert Less(Table(k, fs)[i], Table(k, fs)[j]);
    p := FirstDifference(x, y);
    RowCell(k, fs, i, p);
    RowCell(k, fs, j, p);
    forall q: nat | q < p ensures Cell(fs, ColumnAt(|fs|, k, q), i) == Cell(fs, ColumnAt(|fs|, k, q), j) {
      assert x[q] == x[..p][q] == y[..p][q] == y[q];
      RowCell(k, fs, i, q);
      RowCell(k, fs, j, q);
    }
  }

  /**
   The rows are sorted by column `c`; rows that agree in it are sorted by the first other column,
   in key order, in which they differ.
   */
  ghost predicate SortedBy(fs: seq<Field>, c: nat)
    requires Columnar(fs) && c < |fs|
  {
    forall i: nat, j: nat | i < j < |Column(fs[0])| ::
      Less(Cell(fs, c, i), Cell(fs, c, j)) || (Cell(fs, c, i) == Cell(fs, c, j) && AscendsApart(fs, c, i, j))
  }

  lemma TwoRows(fs: seq<Field>, c: nat, i: nat, j: nat)
    requires Columnar(fs) && c < |fs| && i < j < |Column(fs[0])| && Ascending(Table(c, fs))
    ensures Less(Cell(fs, c, i), Cell(fs, c, j)) || (Cell(fs, c, i) == Cell(fs, c, j) && AscendsApart(fs, c, i, j))
  {
    var p := RowsDiffer(c, fs, i, j);
    if p > 0 {
      assert ColumnAt(|fs|, c, 0) == c;
      var d := ColumnAt(|fs|, c, p);
      assert d != c;
      forall e: nat | e < d && e != c ensures Cell(fs, e, i) == Cell(fs, e, j) {
        var q := PositionOf(|fs|, c, e);
        assert q < p && ColumnAt(|fs|, c, q) == e;
      }
    }
  }

  lemma AscendingIsSorted(sortKey: Key, fs: seq<Field>, c: nat)
    requires Columnar(fs) && IsSortColumn(sortKey, Keys(fs), c)
    requires Ascending(Table(SortColumn(sortKey, Keys(fs)), fs))
    ensures c < |fs| && SortedBy(fs, c)
  {
    assert |Keys(fs)| == |fs|;
    SortColumnIs(sortKey, Keys(fs), c);
    forall i: nat, j: nat | i < j < |Column(fs[0])|
      ensures Less(Cell(fs, c, i), Cell(fs, c, j)) || (Cell(fs, c, i) == Cell(fs, c, j) && AscendsApart(fs, c, i, j))
    {
      TwoRows(fs, c, i, j);
    }
  }

  /** The merge of two different records is sorted by the sort column. */
  lemma MergedIsSorted(sortKey: Key, keys: seq<Key>, a: Value, b: Value, c: nat)
    requires Record(keys, a) && Record(keys, b) && a != b && IsSortColumn(sortKey, keys, c)
    ensures Record(keys, Merge(sortKey, a, b)) && c < |Merge(sortKey, a, b).fields|
    ensures SortedBy(Merge(sortKey, a, b).fields, c)
  {
    MergeIsUnion(sortKey, keys, a, b);
    AscendingIsSorted(sortKey, Merge(sortKey, a, b).fields, c);
  }

  /** The same for the merge of many records, as the answer for an address is. */
  lemma FoldIsSorted(sortKey: Key, keys: seq<Key>, vs: seq<Value>, c: nat)
    requires AllRecords(keys, vs) && vs != [] && !Constant(vs) && IsSortColumn(sortKey, keys, c)
    ensures Record(keys, FoldMerge(sortKey, vs)) && c < |FoldMerge(sortKey, vs).fields|
    ensures SortedBy(FoldMerge(sortKey, vs).fields, c)
  {
    FoldIsUnion(sortKey, keys, vs);
    AscendingIsSorted(sortKey, FoldMerge(sortKey, vs).fields, c);
  }

  /** Without a sort column the first column in key order in which two rows differ ascends. */
  lemma MergedWithoutSortColumn(sortKey: Key, keys: seq<Key>, a: Value, b: Value)
    requires Record(keys, a) && Record(keys, b) && a != b && forall e | 0 <= e < |keys| :: keys[e] != sortKey
    ensures Record(keys, Merge(sortKey, a, b))
    ensures
      var m := Merge(sortKey, a, b).fields;
      forall i: nat, j: nat | i < j < |Column(m[0])| :: AscendsApart(m, |m|, i, j)
  {
    var m := Merge(sortKey, a, b).fields;
    MergeIsUnion(sortKey, keys, a, b);
    NoSortColumn(sortKey, keys);
    assert |keys| == |Keys(m)| == |m|;
    forall i: nat, j: nat | i < j < |Column(m[0])| ensures AscendsApart(m, |m|, i, j) {
      var d := RowsDiffer(|m|, m, i, j);
      forall e: nat | e < d ensures Cell(m, e, i) == Cell(m, e, j) {
        assert ColumnAt(|m|, |m|, e) == e;
      }
    }
  }

  // ---------- the rows of a merged record ----------

  /** Row `i` of one record has the same cells as row `r` of another. */
  ghost predicate SameRow(fs: seq<Field>, i: nat, gs: seq<Field>, r: nat)
    requires Columnar(fs) && Columnar(gs) && |fs| == |gs| && i < |Column(fs[0])| && r < |Column(gs[0])|
  {
    forall c: nat | c < |fs| :: Cell(fs, c, i) == Cell(gs, c, r)
  }

  lemma SameRowIff(k: nat, fs: seq<Field>, i: nat, gs: seq<Field>, r: nat)
    requires Columnar(fs) && Columnar(gs) && |fs| == |gs| && i < |Column(fs[0])| && r < |Column(gs[0])|
    ensures RowAt(k, fs, i) == RowAt(k, gs, r) <==> SameRow(fs, i, gs, r)
  {
    if RowAt(k, fs, i) == RowAt(k, gs, r) {
      forall c: nat | c < |fs| ensures Cell(fs, c, i) == Cell(gs, c, r) {
        var p := PositionOf(|fs|, k, c);
        RowCell(k, fs, i, p);
        RowCell(k, gs, r, p);
      }
    }
    if SameRow(fs, i, gs, r) {
      forall p: nat | p < |fs| ensures RowAt(k, fs, i).elems[p] == RowAt(k, gs, r).elems[p] {
        RowCell(k, fs, i, p);
        RowCell(k, gs, r, p);
      }
      assert RowAt(k, fs, i).elems == RowAt(k, gs, r).elems;
    }
  }

  /** `fs` has a row with the cells of row `r` of `gs`. */
  ghost predicate HasRow(fs: seq<Field>, gs: seq<Field>, r: nat)
    requires Columnar(fs) && Columnar(gs) && |fs| == |gs| && r < |Column(gs[0])|
  {
    exists i: nat :: i < |Column(fs[0])| && SameRow(fs, i, gs, r)
  }

  lemma HasRowIff(k: nat, fs: seq<Field>, gs: seq<Field>, r: nat)
    requires Columnar(fs) && Columnar(gs) && |fs| == |gs| && r < |Column(gs[0])|
    ensures HasRow(fs, gs, r) <==> RowAt(k, gs, r) in Elems(Table(k, fs))
  {
    if HasRow(fs, gs, r) {
      var i: nat :| i < |Column(fs[0])| && SameRow(fs, i, gs, r);
      SameRowIff(k, fs, i, gs, r);
      assert Table(k, fs)[i] == RowAt(k, gs, r);
    }
    if RowAt(k, gs, r) in Elems(Table(k, fs)) {
      var i :| 0 <= i < |Table(k, fs)| && Table(k, fs)[i] == RowAt(k, gs, r);
      SameRowIff(k, fs, i, gs, r);
    }
  }

  /** Every row of `gs` is a row of `fs`. */
  ghost predicate HasRows(fs: seq<Field>, gs: seq<Field>)
    requires Columnar(fs) && Columnar(gs) && |fs| == |gs|
  {
    forall r: nat | r < |Column(gs[0])| :: HasRow(fs, gs, r)
  }

  lemma HasRowsIff(k: nat, fs: seq<Field>, gs: seq<Field>)
    requires Columnar(fs) && Columnar(gs) && |fs| == |gs| && Elems(Table(k, gs)) <= Elems(Table(k, fs))
    ensures HasRows(fs, gs)
  {
    forall r: nat | r < |Column(gs[0])| ensures HasRow(fs, gs, r) {
      HasRowIff(k, fs, gs, r);
      assert Table(k, gs)[r] == RowAt(k, gs, r);
    }
  }

  /** Columns stay aligned: the rows of a merge are rows of its operands, and all of them are there. */
  lemma MergedRows(sortKey: Key, keys: seq<Key>, a: Value, b: Value)
    requires Record(keys, a) && Record(keys, b)
    ensures Record(keys, Merge(sortKey, a, b)) && |a.fields| == |b.fields| == |Merge(sortKey, a, b).fields|
    ensures HasRows(Merge(sortKey, a, b).fields, a.fields) && HasRows(Merge(sortKey, a, b).fields, b.fields)
    ensures forall i: nat | i < |Column(Merge(sortKey, a, b).fields[0])| ::
      HasRow(a.fields, Merge(sortKey, a, b).fields, i) || HasRow(b.fields, Merge(sortKey, a, b).fields, i)
  {
    var m, k := Merge(sortKey, a, b), SortColumn(sortKey, keys);
    MergeIsUnion(sortKey, keys, a, b);
    assert |Keys(a.fields)| == |Keys(b.fields)| == |Keys(m.fields)| == |keys|;
    HasRowsIff(k, m.fields, a.fields);
    HasRowsIff(k, m.fields, b.fields);
    forall i: nat | i < |Column(m.fields[0])| ensures HasRow(a.fields, m.fields, i) || HasRow(b.fields, m.fields, i) {
      HasRowIff(k, a.fields, m.fields, i);
      HasRowIff(k, b.fields, m.fields, i);
      assert Table(k, m.fields)[i] == RowAt(k, m.fields, i);
      assert RowAt(k, m.fields, i) in Elems(Table(k, m.fields));
    }
  }

  /** Some of the records has row `i` of `fs`. */
  ghost predicate RowFrom(keys: seq<Key>, vs: seq<Value>, fs: seq<Field>, i: nat)
    requires AllRecords(keys, vs) && Columnar(fs) && |fs| == |keys| && i < |Column(fs[0])|
  {
    exists v :: v in vs && |v.fields| == |keys| && HasRow(v.fields, fs, i)
  }

  lemma RecordRows(k: nat, keys: seq<Key>, m: Value, v: Value)
    requires Record(keys, m) && Record(keys, v)
    requires Elems(Table(k, v.fields)) <= Elems(Table(k, m.fields))
    ensures |v.fields| == |m.fields| == |keys| && HasRows(m.fields, v.fields)
  {
    assert |Keys(m.fields)| == |Keys(v.fields)| == |keys|;
    HasRowsIff(k, m.fields, v.fields);
  }

  lemma RowFromOne(k: nat, keys: seq<Key>, vs: seq<Value>, m: Value, i: nat, v: Value)
    requires Record(keys, m) && AllRecords(keys, vs) && v in vs && Record(keys, v)
    requires i < |Column(m.fields[0])| && RowAt(k, m.fields, i) in Elems(Table(k, v.fields))
    ensures |m.fields| == |keys| && RowFrom(keys, vs, m.fields, i)
  {
    assert |Keys(m.fields)| == |Keys(v.fields)| == |keys|;
    HasRowIff(k, v.fields, m.fields, i);
  }

  /** The same for the merge of many records. */
  lemma FoldRows(sortKey: Key, keys: seq<Key>, vs: seq<Value>)
    requires AllRecords(keys, vs) && vs != []
    ensures Record(keys, FoldMerge(sortKey, vs)) && |FoldMerge(sortKey, vs).fields| == |keys|
    ensures forall v | v in vs :: |v.fields| == |keys| && HasRows(FoldMerge(sortKey, vs).fields, v.fields)
    ensures forall i: nat | i < |Column(FoldMerge(sortKey, vs).fields[0])| :: RowFrom(keys, vs, FoldMerge(sortKey, vs).fields, i)
  {
    FoldIsUnion(sortKey, keys, vs);
    UnionRows(sortKey, keys, vs, FoldMerge(sortKey, vs));
  }

  lemma UnionRows(sortKey: Key, keys: seq<Key>, vs: seq<Value>, m: Value)
    requires AllRecords(keys, vs) && Record(keys, m) && Elems(Rows(sortKey, m)) == AllRows(sortKey, keys, vs)
    ensures |m.fields| == |keys|
    ensures forall v | v in vs :: |v.fields| == |keys| && HasRows(m.fields, v.fields)
    ensures forall i: nat | i < |Column(m.fields[0])| :: RowFrom(keys, vs, m.fields, i)
  {
    var k := SortColumn(sortKey, keys);
    assert |Keys(m.fields)| == |keys|;
    forall v | v in vs ensures |v.fields| == |keys| && HasRows(m.fields, v.fields) {
      assert forall r | r in Rows(sortKey, v) :: r in AllRows(sortKey, keys, vs);
      RecordRows(k, keys, m, v);
    }
    forall i: nat | i < |Column(m.fields[0])| ensures RowFrom(keys, vs, m.fields, i) {
      assert Table(k, m.fields)[i] == RowAt(k, m.fields, i);
      assert RowAt(k, m.fields, i) in Elems(Table(k, m.fields));
      var v :| v in vs && RowAt(k, m.fields, i) in Rows(sortKey, v);
      RowFromOne(k, keys, vs, m, i, v);
    }
  }

  /** What is not columnar: null gives way, arrays are joined, and otherwise the later value stays. */
  lemma OtherMerges(sortKey: Key, v: Value, w: Value, xs: seq<Value>, ys: seq<Value>)
    ensures Merge(sortKey, Null, w) == w && Merge(sortKey, v, Null) == v && Merge(sortKey, v, v) == v
    ensures xs != ys ==> Merge(sortKey, Arr(xs), Arr(ys)) == Arr(xs + ys)
    ensures !w.Null? && !(v.Arr? && w.Arr?) && !(v.Map? && w.Map?) ==> Merge(sortKey, v, w) == w
  {
  }
}
