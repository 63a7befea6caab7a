/** The mutable value pool (class DataPool), proved against the contents of its ids. */
module Pool {
  import opened Bytes
  import opened ContentOrder
  import opened RecordMerge
  import opened PoolModel

  /** A record handed to the pool: std::map keeps the keys of every object ascending. */
  ghost predicate Storable(v: Value) {
    match v
    case Map(fs) => KeysAscending(fs) && forall k | 0 <= k < |fs| :: Storable(fs[k].value)
    case Arr(xs) => forall k | 0 <= k < |xs| :: Storable(xs[k])
    case _ => true
  }

  // ---- rows of ids --------------------------------------------------------

  type Row = seq<nat>

  ghost predicate RowOk(es: seq<Entry>, n: nat, row: Row) {
    |row| == n && forall c | 0 <= c < n :: row[c] < |es|
  }

  ghost predicate RowsOk(es: seq<Entry>, n: nat, rows: seq<Row>) {
    forall r | 0 <= r < |rows| :: RowOk(es, n, rows[r])
  }

  /** The content of a row, sort column first. */
  ghost function RowVal(es: seq<Entry>, k: nat, row: Row): Value
    requires Closed(es) && RowOk(es, |row|, row)
  {
    Arr(seq(|row|, j requires 0 <= j < |row| => Val(es, row[ColumnAt(|row|, k, j)])))
  }

  ghost function RowVals(es: seq<Entry>, n: nat, k: nat, rows: seq<Row>): seq<Value>
    requires Closed(es) && RowsOk(es, n, rows)
  {
    seq(|rows|, r requires 0 <= r < |rows| => assert RowOk(es, n, rows[r]); RowVal(es, k, rows[r]))
  }

  lemma RowValInjective(es: seq<Entry>, n: nat, k: nat, x: Row, y: Row)
    requires ValidPool(es) && RowOk(es, n, x) && RowOk(es, n, y)
    ensures x == y <==> RowVal(es, k, x) == RowVal(es, k, y)
  {
    if RowVal(es, k, x) == RowVal(es, k, y) {
      forall c | 0 <= c < n ensures x[c] == y[c] {
        var j := PositionOf(n, k, c);
        assert RowVal(es, k, x).elems[j] == RowVal(es, k, y).elems[j];
        ValInjective(es, x[c], y[c]);
      }
    }
  }

  /** row_less: the first differing column, in column order, decides. */
  predicate RowLess(es: seq<Entry>, order: seq<nat>, x: Row, y: Row)
    requires Closed(es) && RowOk(es, |x|, x) && RowOk(es, |x|, y)
    requires forall j | 0 <= j < |order| :: order[j] < |x|
  {
    if order == [] then false
    else if x[order[0]] != y[order[0]] then LessData(es, x[order[0]], y[order[0]])
    else RowLess(es, order[1..], x, y)
  }

  ghost predicate ColumnOrder(n: nat, k: nat, order: seq<nat>) {
    |order| == n && forall j | 0 <= j < n :: order[j] == ColumnAt(n, k, j)
  }

  lemma {:induction false} RowLessFrom(es: seq<Entry>, n: nat, k: nat, order: seq<nat>, x: Row, y: Row, i: nat)
    requires ValidPool(es) && RowOk(es, n, x) && RowOk(es, n, y) && ColumnOrder(n, k, order) && i <= n
    ensures RowLess(es, order[i..], x, y)
       <==> CmpSeq(RowVal(es, k, x).elems[i..], RowVal(es, k, y).elems[i..]) < 0
    decreases n - i
  {
    var vs, ws := RowVal(es, k, x).elems[i..], RowVal(es, k, y).elems[i..];
    if i < n {
      var c := order[i];
      RowLessFrom(es, n, k, order, x, y, i + 1);
      assert order[i..][0] == c && order[i..][1..] == order[i + 1..];
      assert vs[0] == Val(es, x[c]) && ws[0] == Val(es, y[c]);
      assert vs[1..] == RowVal(es, k, x).elems[i + 1..] && ws[1..] == RowVal(es, k, y).elems[i + 1..];
      LessDataIsLess(es, x[c], y[c]);
      IdIffContent(es, x[c], y[c]);
      CmpOrder(vs[0], ws[0]);
    }
  }

  /** row_less orders rows by content, sort column first. */
  lemma RowLessIsLess(es: seq<Entry>, n: nat, k: nat, order: seq<nat>, x: Row, y: Row)
    requires ValidPool(es) && RowOk(es, n, x) && RowOk(es, n, y) && ColumnOrder(n, k, order)
    ensures RowLess(es, order, x, y) <==> Less(RowVal(es, k, x), RowVal(es, k, y))
  {
    RowLessFrom(es, n, k, order, x, y, 0);
    assert order[0..] == order;
    assert RowVal(es, k, x).elems[0..] == RowVal(es, k, x).elems;
    assert RowVal(es, k, y).elems[0..] == RowVal(es, k, y).elems;
  }

  ghost predicate NonDescending(vs: seq<Value>) {
    forall i, j | 0 <= i < j < |vs| :: vs[i] == vs[j] || Less(vs[i], vs[j])
  }

  lemma SortedInsert(vs: seq<Value>, x: Value, p: nat)
    requires NonDescending(vs) && p <= |vs|
    requires forall i | 0 <= i < p :: vs[i] == x || Less(vs[i], x)
    requires p < |vs| ==> Less(x, vs[p])
    ensures NonDescending(vs[..p] + [x] + vs[p..])
  {
    forall j | p <= j < |vs| ensures Less(x, vs[j]) {
      if j > p && vs[p] != vs[j] { CmpTrans(x, vs[p], vs[j]); }
    }
  }

  method InsertRow(es: seq<Entry>, ghost n: nat, ghost k: nat, order: seq<nat>, sorted: seq<Row>, row: Row)
    returns (next: seq<Row>)
    requires ValidPool(es) && RowsOk(es, n, sorted) && RowOk(es, n, row) && ColumnOrder(n, k, order)
    requires NonDescending(RowVals(es, n, k, sorted))
    ensures RowsOk(es, n, next) && Elems(next) == Elems(sorted) + {row}
    ensures NonDescending(RowVals(es, n, k, next))
  {
    ghost var vs, x := RowVals(es, n, k, sorted), RowVal(es, k, row);
    var p := |sorted|;
    while p > 0 && RowLess(es, order, row, sorted[p - 1])
      invariant 0 <= p <= |sorted|
      invariant p < |sorted| ==> Less(x, vs[p])
    {
      p := p - 1;
      RowLessIsLess(es, n, k, order, row, sorted[p]);
    }
    if p > 0 {
      RowLessIsLess(es, n, k, order, row, sorted[p - 1]);
      CmpOrder(x, vs[p - 1]);
      PrefixBelow(vs, x, p);
    }
    next := sorted[..p] + [row] + sorted[p..];
    SortedInsert(vs, x, p);
    InsertElems(sorted, row, p);
    RowValsInsert(es, n, k, sorted, row, p);
  }

  lemma RowValsInsert(es: seq<Entry>, n: nat, k: nat, rows: seq<Row>, row: Row, p: nat)
    requires Closed(es) && RowsOk(es, n, rows) && RowOk(es, n, row) && p <= |rows|
    ensures RowsOk(es, n, rows[..p] + [row] + rows[p..])
    ensures RowVals(es, n, k, rows[..p] + [row] + rows[p..])
         == RowVals(es, n, k, rows)[..p] + [RowVal(es, k, row)] + RowVals(es, n, k, rows)[p..]
  {
    var next := rows[..p] + [row] + rows[p..];
    assert forall r | 0 <= r < |next| ::
      next[r] == if r < p then rows[r] else if r == p then row else rows[r - 1];
  }

  /** std::sort by row_less: ordered by content, with the same rows. */
  method SortRows(es: seq<Entry>, ghost n: nat, ghost k: nat, order: seq<nat>, rows: seq<Row>)
    returns (sorted: seq<Row>)
    requires ValidPool(es) && RowsOk(es, n, rows) && ColumnOrder(n, k, order)
    ensures RowsOk(es, n, sorted) && Elems(sorted) == Elems(rows)
    ensures NonDescending(RowVals(es, n, k, sorted))
  {
    sorted := [];
    for i := 0 to |rows|
      invariant RowsOk(es, n, sorted) && Elems(sorted) == Elems(rows[..i])
      invariant NonDescending(RowVals(es, n, k, sorted))
    {
      assert RowOk(es, n, rows[i]);
      sorted := InsertRow(es, n, k, order, sorted, rows[i]);
      SnocElems(rows[..i], rows[i]);
      assert rows[..i + 1] == rows[..i] + [rows[i]];
    }
    assert rows[..|rows|] == rows;
  }

  lemma PrefixBelow(vs: seq<Value>, x: Value, p: nat)
    requires NonDescending(vs) && 0 < p <= |vs|
    requires vs[p - 1] == x || Less(vs[p - 1], x)
    ensures forall i | 0 <= i < p :: vs[i] == x || Less(vs[i], x)
  {
    forall i | 0 <= i < p ensures vs[i] == x || Less(vs[i], x) {
      if i < p - 1 && vs[i] != vs[p - 1] && vs[p - 1] != x { CmpTrans(vs[i], vs[p - 1], x); }
    }
  }

  lemma InsertElems<T>(s: seq<T>, x: T, p: nat)
    requires p <= |s|
    ensures Elems(s[..p] + [x] + s[p..]) == Elems(s) + {x}
  {
    assert s == s[..p] + s[p..];
  }

  lemma SnocElems<T>(s: seq<T>, x: T)
    ensures Elems(s + [x]) == Elems(s) + {x}
  {
  }

  /** std::unique followed by erase: neighbouring duplicates collapse. */
  method UniqueRows(es: seq<Entry>, ghost n: nat, ghost k: nat, rows: seq<Row>) returns (unique: seq<Row>)
    requires ValidPool(es) && RowsOk(es, n, rows) && NonDescending(RowVals(es, n, k, rows))
    ensures RowsOk(es, n, unique) && Elems(unique) == Elems(rows)
    ensures Ascending(RowVals(es, n, k, unique))
  {
    unique := [];
    for i := 0 to |rows|
      invariant RowsOk(es, n, unique) && Elems(unique) == Elems(rows[..i])
      invariant Ascending(RowVals(es, n, k, unique))
      invariant if i == 0 then unique == [] else unique != [] && unique[|unique| - 1] == rows[i - 1]
    {
      assert RowOk(es, n, rows[i]);
      assert rows[..i + 1] == rows[..i] + [rows[i]];
      if unique == [] || unique[|unique| - 1] != rows[i] {
        ghost var us, x := RowVals(es, n, k, unique), RowVal(es, k, rows[i]);
        if i > 0 {
          RowValInjective(es, n, k, rows[i - 1], rows[i]);
          assert RowVals(es, n, k, rows)[i - 1] == us[|us| - 1];
          assert RowVals(es, n, k, rows)[i] == x;
          AscendingSnoc(us, x);
        }
        assert RowVals(es, n, k, unique + [rows[i]]) == us + [x];
        SnocElems(unique, rows[i]);
        unique := unique + [rows[i]];
      } else {
        assert rows[..i][i - 1] == rows[i];
        SnocElems(rows[..i], rows[i]);
      }
    }
    assert rows[..|rows|] == rows;
  }

  lemma AscendingSnoc(vs: seq<Value>, x: Value)
    requires Ascending(vs) && vs != [] && Less(vs[|vs| - 1], x)
    ensures Ascending(vs + [x])
  {
    forall i | 0 <= i < |vs| ensures Less(vs[i], x) {
      if i < |vs| - 1 { CmpTrans(vs[i], vs[|vs| - 1], x); }
    }
  }

  // ---- columns ------------------------------------------------------------

  ghost predicate ColumnarIds(es: seq<Entry>, fs: seq<(nat, nat)>, count: nat) {
    FieldIds(es, fs) && |fs| > 0 &&
    forall c | 0 <= c < |fs| :: es[fs[c].1].ArrEntry? && |es[fs[c].1].elems| == count
  }

  lemma ColumnarContent(es: seq<Entry>, fs: seq<(nat, nat)>, count: nat)
    requires Closed(es) && ColumnarIds(es, fs, count)
    ensures Columnar(FieldVals(es, fs)) && |Column(FieldVals(es, fs)[0])| == count
    ensures forall c | 0 <= c < |fs| ::
      EntryAt(es, fs[c].1) && Column(FieldVals(es, fs)[c]) == Vals(es, es[fs[c].1].elems)
  {
    forall c | 0 <= c < |fs|
      ensures EntryAt(es, fs[c].1) && Column(FieldVals(es, fs)[c]) == Vals(es, es[fs[c].1].elems)
      ensures FieldVals(es, fs)[c].value.Arr? && |Column(FieldVals(es, fs)[c])| == count
    {
      ValOfArr(es, fs[c].1);
    }
  }

  function IdRow(es: seq<Entry>, fs: seq<(nat, nat)>, ghost count: nat, r: nat): Row
    requires ColumnarIds(es, fs, count) && r < count
  {
    seq(|fs|, c requires 0 <= c < |fs| => es[fs[c].1].elems[r])
  }

  ghost function IdRows(es: seq<Entry>, fs: seq<(nat, nat)>, count: nat): seq<Row>
    requires ColumnarIds(es, fs, count)
  {
    seq(count, r requires 0 <= r < count => IdRow(es, fs, count, r))
  }

  lemma IdRowsContent(es: seq<Entry>, k: nat, fs: seq<(nat, nat)>, count: nat)
    requires Closed(es) && ColumnarIds(es, fs, count)
    ensures RowsOk(es, |fs|, IdRows(es, fs, count))
    ensures Columnar(FieldVals(es, fs))
    ensures RowVals(es, |fs|, k, IdRows(es, fs, count)) == Table(k, FieldVals(es, fs))
  {
    ColumnarContent(es, fs, count);
    var rows, n := IdRows(es, fs, count), |fs|;
    forall r | 0 <= r < count
      ensures RowOk(es, n, rows[r])
      ensures RowOk(es, n, rows[r]) ==> RowVal(es, k, rows[r]) == RowAt(k, FieldVals(es, fs), r)
    {
      forall c | 0 <= c < n ensures rows[r][c] < |es| {
        assert EntryAt(es, fs[c].1);
      }
      forall j | 0 <= j < n
        ensures Val(es, rows[r][ColumnAt(n, k, j)]) == Column(FieldVals(es, fs)[ColumnAt(n, k, j)])[r]
      {
      }
    }
  }

  lemma RowValsElems(es: seq<Entry>, n: nat, k: nat, xs: seq<Row>, ys: seq<Row>)
    requires Closed(es) && RowsOk(es, n, xs) && RowsOk(es, n, ys) && Elems(xs) == Elems(ys)
    ensures Elems(RowVals(es, n, k, xs)) == Elems(RowVals(es, n, k, ys))
  {
    RowValsSubset(es, n, k, xs, ys);
    RowValsSubset(es, n, k, ys, xs);
  }

  lemma RowValsSubset(es: seq<Entry>, n: nat, k: nat, xs: seq<Row>, ys: seq<Row>)
    requires Closed(es) && RowsOk(es, n, xs) && RowsOk(es, n, ys) && Elems(xs) <= Elems(ys)
    ensures Elems(RowVals(es, n, k, xs)) <= Elems(RowVals(es, n, k, ys))
  {
    forall v | v in RowVals(es, n, k, xs) ensures v in RowVals(es, n, k, ys) {
      var r :| 0 <= r < |xs| && RowVals(es, n, k, xs)[r] == v;
      assert xs[r] in Elems(ys);
      var t :| 0 <= t < |ys| && ys[t] == xs[r];
      assert RowVals(es, n, k, ys)[t] == v;
    }
  }

  /** Sorting and deduplicating the id rows yields the rows of the merged contents. */
  lemma SortedRowsContent(es: seq<Entry>, k: nat, fa: seq<(nat, nat)>, ca: nat, fb: seq<(nat, nat)>, cb: nat,
                          rows: seq<Row>)
    requires ValidPool(es) && ColumnarIds(es, fa, ca) && ColumnarIds(es, fb, cb) && |fa| == |fb|
    requires RowsOk(es, |fa|, rows) && Ascending(RowVals(es, |fa|, k, rows))
    requires Elems(rows) == Elems(IdRows(es, fa, ca) + IdRows(es, fb, cb))
    ensures Columnar(FieldVals(es, fa)) && Columnar(FieldVals(es, fb))
    ensures RowVals(es, |fa|, k, rows)
         == SortDedup(Table(k, FieldVals(es, fa)) + Table(k, FieldVals(es, fb)))
  {
    var n, all := |fa|, IdRows(es, fa, ca) + IdRows(es, fb, cb);
    IdRowsContent(es, k, fa, ca);
    IdRowsContent(es, k, fb, cb);
    assert RowsOk(es, n, all);
    var both := Table(k, FieldVals(es, fa)) + Table(k, FieldVals(es, fb));
    assert RowVals(es, n, k, all) == both;
    RowValsElems(es, n, k, rows, all);
    SortDedupSorts(both);
    AscendingUnique(RowVals(es, n, k, rows), SortDedup(both));
  }

  lemma ColumnContent(es: seq<Entry>, n: nat, k: nat, c: nat, rows: seq<Row>, xs: seq<nat>)
    requires Closed(es) && RowsOk(es, n, rows) && c < n
    requires |xs| == |rows| && forall r | 0 <= r < |rows| :: RowOk(es, n, rows[r]) && xs[r] == rows[r][c]
    ensures IsTable(n, RowVals(es, n, k, rows))
    ensures Vals(es, xs) == TableColumn(n, k, c, RowVals(es, n, k, rows))
  {
    forall r | 0 <= r < |rows|
      ensures RowVals(es, n, k, rows)[r].Arr? && |RowVals(es, n, k, rows)[r].elems| == n
      ensures RowVals(es, n, k, rows)[r].elems[PositionOf(n, k, c)] == Val(es, xs[r])
    {
      assert RowVals(es, n, k, rows)[r] == RowVal(es, k, rows[r]);
    }
  }

  lemma SameKeyIds(es: seq<Entry>, fa: seq<(nat, nat)>, fb: seq<(nat, nat)>)
    requires ValidPool(es) && FieldIds(es, fa) && FieldIds(es, fb)
    ensures Keys(FieldVals(es, fa)) == Keys(FieldVals(es, fb))
       <==> |fa| == |fb| && forall c | 0 <= c < |fa| :: fa[c].0 == fb[c].0
  {
    var ka, kb := Keys(FieldVals(es, fa)), Keys(FieldVals(es, fb));
    assert |ka| == |fa| && |kb| == |fb|;
    if ka == kb {
      forall c | 0 <= c < |fa| ensures fa[c].0 == fb[c].0 {
        assert ka[c] == kb[c];
        SameEntry(es, fa[c].0, fb[c].0);
      }
    }
  }

  method SameKeys(es: seq<Entry>, ma: seq<(nat, nat)>, mb: seq<(nat, nat)>) returns (same: bool)
    requires ValidPool(es) && FieldIds(es, ma) && FieldIds(es, mb)
    ensures same <==> Keys(FieldVals(es, ma)) == Keys(FieldVals(es, mb))
  {
    SameKeyIds(es, ma, mb);
    same := |ma| == |mb|;
    var c := 0;
    while same && c < |ma|
      invariant same ==> |ma| == |mb| && c <= |ma| && forall i | 0 <= i < c :: ma[i].0 == mb[i].0
      invariant !same ==> Keys(FieldVals(es, ma)) != Keys(FieldVals(es, mb))
      decreases |ma| - c
    {
      same := ma[c].0 == mb[c].0;
      c := c + 1;
    }
  }

  /** The order in which merge_columnar compares columns: the sort column first. */
  method ComputeColumnOrder(es: seq<Entry>, fs: seq<(nat, nat)>, sortKey: Key) returns (order: seq<nat>)
    requires Closed(es) && FieldIds(es, fs) && KeysAscending(FieldVals(es, fs))
    ensures |order| == |fs| && forall c | 0 <= c < |fs| :: c in order
    ensures forall c | 0 <= c < |fs| && KeyOf(es, fs[c].0) == sortKey :: order[0] == c
    ensures (forall c | 0 <= c < |fs| :: KeyOf(es, fs[c].0) != sortKey) ==> forall i, j | 0 <= i < j < |order| :: order[i] < order[j]
    ensures forall i, j | 0 < i < j < |order| :: order[i] < order[j]
    ensures ColumnOrder(|fs|, SortColumn(sortKey, Keys(FieldVals(es, fs))), order)
  {
    ghost var n, k := |fs|, SortColumn(sortKey, Keys(FieldVals(es, fs)));
    order := [];
    for c := 0 to |fs|
      invariant order == if k < c then [k] else []
    {
      assert FieldVals(es, fs)[c].key == Keys(FieldVals(es, fs))[c] == KeyOf(es, fs[c].0);
      if KeyOf(es, fs[c].0) == sortKey {
        if k < c { CmpBytesOrder(FieldVals(es, fs)[k].key, FieldVals(es, fs)[c].key); }
        order := order + [c];
      }
    }
    for c := 0 to |fs|
      invariant |order| == if k < n && c <= k then c + 1 else c
      invariant forall j | 0 <= j < |order| :: order[j] == ColumnAt(n, k, j)
    {
      if |order| == 0 || order[0] != c {
        order := order + [c];
      }
    }
    OrderCovers(n, k, order);
    SortColumnFirst(FieldVals(es, fs), sortKey, order);
    assert forall c | 0 <= c < n :: FieldVals(es, fs)[c].key == KeyOf(es, fs[c].0);
  }

  lemma SortColumnFirst(fs: seq<Field>, sortKey: Key, order: seq<nat>)
    requires KeysAscending(fs) && ColumnOrder(|fs|, SortColumn(sortKey, Keys(fs)), order)
    ensures forall c | 0 <= c < |fs| && fs[c].key == sortKey :: order[0] == c
    ensures (forall c | 0 <= c < |fs| :: fs[c].key != sortKey) ==> SortColumn(sortKey, Keys(fs)) == |fs|
  {
    var k := SortColumn(sortKey, Keys(fs));
    assert forall c | 0 <= c < |fs| :: Keys(fs)[c] == fs[c].key;
    forall c | 0 <= c < |fs| && fs[c].key == sortKey ensures order[0] == c {
      if k < c { CmpBytesOrder(fs[k].key, fs[c].key); }
    }
  }

  lemma OrderCovers(n: nat, k: nat, order: seq<nat>)
    requires |order| == n && forall j | 0 <= j < n :: order[j] == ColumnAt(n, k, j)
    ensures forall c | 0 <= c < n :: c in order
    ensures forall i, j | 0 < i < j < n :: order[i] < order[j]
    ensures k >= n ==> forall i, j | 0 <= i < j < n :: order[i] < order[j]
  {
    forall c | 0 <= c < n ensures c in order {
      assert order[PositionOf(n, k, c)] == c;
    }
  }

  method AppendRows(es: seq<Entry>, fs: seq<(nat, nat)>, count: nat, rows: seq<Row>) returns (all: seq<Row>)
    requires ColumnarIds(es, fs, count)
    ensures all == rows + IdRows(es, fs, count)
  {
    all := rows;
    for r := 0 to count
      invariant all == rows + IdRows(es, fs, count)[..r]
    {
      var row: Row := [];
      for c := 0 to |fs|
        invariant row == IdRow(es, fs, count, r)[..c]
      {
        row := row + [es[fs[c].1].elems[r]];
      }
      assert row == IdRow(es, fs, count, r);
      all := all + [row];
    }
  }

  /** The rows of both maps, sorted by content and without duplicates. */
  method MergedRows(es: seq<Entry>, ma: seq<(nat, nat)>, rowsA: nat, mb: seq<(nat, nat)>, rowsB: nat, sortKey: Key)
    returns (rows: seq<Row>)
    requires ValidPool(es) && ColumnarIds(es, ma, rowsA) && ColumnarIds(es, mb, rowsB)
    requires KeysAscending(FieldVals(es, ma))
    requires Keys(FieldVals(es, ma)) == Keys(FieldVals(es, mb))
    requires Columnar(FieldVals(es, ma)) && Columnar(FieldVals(es, mb))
    ensures RowsOk(es, |ma|, rows)
    ensures var k := SortColumn(sortKey, Keys(FieldVals(es, ma)));
            RowVals(es, |ma|, k, rows) == SortDedup(Table(k, FieldVals(es, ma)) + Table(k, FieldVals(es, mb)))
  {
    ghost var n, k := |ma|, SortColumn(sortKey, Keys(FieldVals(es, ma)));
    SameKeyIds(es, ma, mb);
    var order := ComputeColumnOrder(es, ma, sortKey);
    rows := AppendRows(es, ma, rowsA, []);
    rows := AppendRows(es, mb, rowsB, rows);
    IdRowsContent(es, k, ma, rowsA);
    IdRowsContent(es, k, mb, rowsB);
    assert rows == IdRows(es, ma, rowsA) + IdRows(es, mb, rowsB);
    rows := SortRows(es, n, k, order, rows);
    rows := UniqueRows(es, n, k, rows);
    SortedRowsContent(es, k, ma, rowsA, mb, rowsB, rows);
  }

  lemma RowValsIsTable(es: seq<Entry>, n: nat, k: nat, rows: seq<Row>)
    requires Closed(es) && RowsOk(es, n, rows)
    ensures IsTable(n, RowVals(es, n, k, rows))
  {
    forall r | 0 <= r < |rows| ensures RowVals(es, n, k, rows)[r] == RowVal(es, k, rows[r]) && |rows[r]| == n {
      assert RowOk(es, n, rows[r]);
    }
  }

  // ---- the pool -----------------------------------------------------------

  class DataPool {
    var entries: seq<Entry>
    var ids: map<Entry, nat>
    const rowSortKey: Key

    ghost predicate Valid()
      reads this
    {
      && ValidPool(entries)
      && (forall i | 1 <= i < |entries| :: entries[i] in ids && ids[entries[i]] == i)
      && (forall e | e in ids :: 0 < ids[e] < |entries| && entries[ids[e]] == e)
    }

    constructor (sortKey: Key)
      ensures Valid() && entries == [EMPTY] && rowSortKey == sortKey
    {
      entries := [EMPTY];
      ids := map[];
      rowSortKey := sortKey;
    }

    /** Returns the id of `e`, adding it only when no equal entry exists. */
    method Intern(e: Entry) returns (id: nat)
      requires Valid() && e != EMPTY && EntryOk(entries, e, |entries|)
      modifies this
      ensures Valid() && 0 < id < |entries| && entries[id] == e
      ensures entries == if e in old(entries) then old(entries) else old(entries) + [e]
    {
      if e in ids {
        id := ids[e];
      } else {
        assert e !in entries;
        AppendEntry(entries, e);
        id := |entries|;
        entries := entries + [e];
        ids := ids[e := id];
      }
    }

    /** Interns a whole value bottom-up; the id stands for exactly that value. */
    method Store(v: Value) returns (id: nat)
      requires Valid() && Storable(v)
      modifies this
      ensures Valid() && old(entries) <= entries
      ensures id < |entries| && Val(entries, id) == v
      decreases v
    {
      match v
      case Null => id := 0;
      case Map(fs) => id := StoreObject(fs);
      case Arr(xs) => id := StoreArray(xs);
      case _ => id := Intern(Scalar(v));
    }

    method StoreObject(fs: seq<Field>) returns (id: nat)
      requires Valid() && KeysAscending(fs) && forall k | 0 <= k < |fs| :: Storable(fs[k].value)
      modifies this
      ensures Valid() && old(entries) <= entries
      ensures id < |entries| && Val(entries, id) == Map(fs)
      decreases fs
    {
      var fields: seq<(nat, nat)> := [];
      for k := 0 to |fs|
        invariant Valid() && old(entries) <= entries
        invariant |fields| == k && FieldIds(entries, fields)
        invariant FieldVals(entries, fields) == fs[..k]
      {
        fields := StoreField(fields, fs[k]);
        assert fs[..k + 1] == fs[..k] + [fs[k]];
      }
      assert fs[..|fs|] == fs;
      FieldsOk(entries, fields);
      id := InternMap(fields);
    }

    method StoreField(fields: seq<(nat, nat)>, f: Field) returns (next: seq<(nat, nat)>)
      requires Valid() && FieldIds(entries, fields) && Storable(f.value)
      modifies this
      ensures Valid() && old(entries) <= entries
      ensures |next| == |fields| + 1 && FieldIds(entries, next)
      ensures FieldVals(entries, next) == old(FieldVals(entries, fields)) + [f]
      decreases f
    {
      ghost var es := entries;
      var key := Intern(Scalar(Str(f.key)));
      var value := Store(f.value);
      FieldValsStable(es, entries, fields);
      FieldValsSnoc(entries, fields, (key, value));
      next := fields + [(key, value)];
    }

    method StoreArray(xs: seq<Value>) returns (id: nat)
      requires Valid() && forall k | 0 <= k < |xs| :: Storable(xs[k])
      modifies this
      ensures Valid() && old(entries) <= entries
      ensures id < |entries| && Val(entries, id) == Arr(xs)
      decreases xs
    {
      var elems: seq<nat> := [];
      for k := 0 to |xs|
        invariant Valid() && old(entries) <= entries
        invariant |elems| == k
        invariant forall j | 0 <= j < k :: elems[j] < |entries| && Val(entries, elems[j]) == xs[j]
      {
        ghost var es := entries;
        var x := Store(xs[k]);
        ValStable(es, entries);
        elems := elems + [x];
      }
      assert Vals(entries, elems) == xs;
      id := InternArray(elems);
    }

    method InternMap(fields: seq<(nat, nat)>) returns (id: nat)
      requires Valid() && FieldIds(entries, fields) && EntryOk(entries, MapEntry(fields), |entries|)
      modifies this
      ensures Valid() && old(entries) <= entries
      ensures 0 < id < |entries| && Val(entries, id) == Map(old(FieldVals(entries, fields)))
    {
      ghost var es := entries;
      id := Intern(MapEntry(fields));
      ValOfMap(entries, id);
      FieldValsStable(es, entries, fields);
    }

    method InternArray(elems: seq<nat>) returns (id: nat)
      requires Valid() && forall j | 0 <= j < |elems| :: elems[j] < |entries|
      modifies this
      ensures Valid() && old(entries) <= entries
      ensures 0 < id < |entries| && Val(entries, id) == Arr(old(Vals(entries, elems)))
    {
      ghost var es := entries;
      id := Intern(ArrEntry(elems));
      ValOfArr(entries, id);
      ValStable(es, entries);
      assert Vals(entries, elems) == Vals(es, elems);
    }

    /** Whether a map is columnar, and with how many rows. */
    method ColumnarRows(fs: seq<(nat, nat)>) returns (ok: bool, rows: nat)
      requires Valid() && FieldIds(entries, fs)
      ensures ok <==> Columnar(FieldVals(entries, fs))
      ensures ok ==> ColumnarIds(entries, fs, rows)
    {
      rows := 0;
      if fs == [] { return false, rows; }
      for c := 0 to |fs|
        invariant forall i | 0 <= i < c :: entries[fs[i].1].ArrEntry? && |entries[fs[i].1].elems| == rows
      {
        ColumnEntry(entries, fs, c);
        if !entries[fs[c].1].ArrEntry? { return false, rows; }
        if c == 0 {
          rows := |entries[fs[0].1].elems|;
        } else if |entries[fs[c].1].elems| != rows {
          ColumnEntry(entries, fs, 0);
          return false, rows;
        }
      }
      ok := true;
      ColumnarContent(entries, fs, rows);
    }

    /** Sorts the rows of both maps by content, drops duplicates and interns the columns. */
    method MergeColumnar(ma: seq<(nat, nat)>, rowsA: nat, mb: seq<(nat, nat)>, rowsB: nat) returns (id: nat)
      requires Valid() && ColumnarIds(entries, ma, rowsA) && ColumnarIds(entries, mb, rowsB)
      requires KeysAscending(FieldVals(entries, ma))
      requires Keys(FieldVals(entries, ma)) == Keys(FieldVals(entries, mb))
      requires Columnar(FieldVals(entries, ma)) && Columnar(FieldVals(entries, mb))
      modifies this
      ensures Valid() && old(entries) <= entries && 0 < id < |entries|
      ensures Val(entries, id)
           == Map(MergeTables(rowSortKey, old(FieldVals(entries, ma)), old(FieldVals(entries, mb))))
    {
      ghost var k := SortColumn(rowSortKey, Keys(FieldVals(entries, ma)));
      var rows := MergedRows(entries, ma, rowsA, mb, rowsB, rowSortKey);
      RowValsIsTable(entries, |ma|, k, rows);
      id := InternColumns(ma, k, rows);
    }

    method InternColumn(ghost es0: seq<Entry>, ghost n: nat, ghost k: nat, c: nat, rows: seq<Row>)
      returns (id: nat)
      requires Valid() && Closed(es0) && es0 <= entries && RowsOk(es0, n, rows) && c < n
      modifies this
      ensures Valid() && old(entries) <= entries && 0 < id < |entries|
      ensures IsTable(n, RowVals(es0, n, k, rows))
      ensures Val(entries, id) == Arr(TableColumn(n, k, c, RowVals(es0, n, k, rows)))
    {
      var column: seq<nat> := [];
      for r := 0 to |rows|
        invariant |column| == r
        invariant forall i | 0 <= i < r :: RowOk(es0, n, rows[i]) && column[i] == rows[i][c]
      {
        assert RowOk(es0, n, rows[r]);
        column := column + [rows[r][c]];
      }
      ColumnContent(es0, n, k, c, rows, column);
      ValsStable(es0, entries, column);
      id := InternArray(column);
    }

    /** Interns one array per column and the map over them. */
    method InternColumns(ma: seq<(nat, nat)>, ghost k: nat, rows: seq<Row>) returns (id: nat)
      requires Valid() && FieldIds(entries, ma) && KeysAscending(FieldVals(entries, ma))
      requires RowsOk(entries, |ma|, rows) && IsTable(|ma|, RowVals(entries, |ma|, k, rows))
      modifies this
      ensures Valid() && old(entries) <= entries && 0 < id < |entries|
      ensures Val(entries, id)
           == Map(FromTable(k, old(Keys(FieldVals(entries, ma))), old(RowVals(entries, |ma|, k, rows))))
    {
      ghost var es0, n := entries, |ma|;
      ghost var target := FromTable(k, Keys(FieldVals(es0, ma)), RowVals(es0, n, k, rows));
      var merged: seq<(nat, nat)> := [];
      for c := 0 to |ma|
        invariant Valid() && es0 <= entries
        invariant |merged| == c && FieldIds(entries, merged)
        invariant FieldVals(entries, merged) == target[..c]
      {
        ghost var es := entries;
        var x := InternColumn(es0, n, k, c, rows);
        FieldValsStable(es, entries, merged);
        FieldValsSnoc(entries, merged, (ma[c].0, x));
        merged := merged + [(ma[c].0, x)];
        assert target[c] == Field(KeyOf(es0, ma[c].0), Val(entries, x));
        assert target[..c + 1] == target[..c] + [target[c]];
      }
      assert target[..n] == target;
      KeysOfTarget(FieldVals(es0, ma), target);
      FieldsOk(entries, merged);
      id := InternMap(merged);
    }

    /** Merges two records; the id returned stands for the merge of their contents. */
    method DeepMerge(a: nat, b: nat) returns (id: nat)
      requires Valid() && a < |entries| && b < |entries|
      modifies this
      ensures Valid() && old(entries) <= entries && id < |entries|
      ensures Val(entries, id) == Merge(rowSortKey, old(Val(entries, a)), old(Val(entries, b)))
      decreases a
    {
      IdIffContent(entries, a, b);
      IdIffContent(entries, b, a);
      if a == 0 { return b; }
      if b == 0 || a == b { return a; }
      assert EntryAt(entries, a) && EntryAt(entries, b);
      if entries[a].ArrEntry? && entries[b].ArrEntry? {
        ValOfArr(entries, a);
        ValOfArr(entries, b);
        var xs, ys := entries[a].elems, entries[b].elems;
        assert Vals(entries, xs + ys) == Vals(entries, xs) + Vals(entries, ys);
        id := InternArray(xs + ys);
      } else if entries[a].MapEntry? && entries[b].MapEntry? {
        id := MergeMaps(a, b);
      } else {
        id := b;
      }
    }

    method MergeMaps(a: nat, b: nat) returns (id: nat)
      requires Valid() && 0 < a < |entries| && 0 < b < |entries| && a != b
      requires entries[a].MapEntry? && entries[b].MapEntry?
      modifies this
      ensures Valid() && old(entries) <= entries && id < |entries|
      ensures Val(entries, id) == Merge(rowSortKey, old(Val(entries, a)), old(Val(entries, b)))
      decreases a, 4
    {
      var ma, mb := entries[a].fields, entries[b].fields;
      ValOfMap(entries, a);
      ValOfMap(entries, b);
      IdIffContent(entries, a, b);
      MergeOfMaps(rowSortKey, FieldVals(entries, ma), FieldVals(entries, mb));
      var sameKeys := SameKeys(entries, ma, mb);
      if sameKeys {
        var okA, rowsA := ColumnarRows(ma);
        var okB, rowsB := ColumnarRows(mb);
        if okA && okB {
          id := MergeColumnar(ma, rowsA, mb, rowsB);
          return;
        }
      }
      id := MergeByKey(a, b);
    }

    /** Merges two maps key by key, in key order. */
    method MergeByKey(a: nat, b: nat) returns (id: nat)
      requires Valid() && a < |entries| && b < |entries|
      requires entries[a].MapEntry? && entries[b].MapEntry?
      modifies this
      ensures Valid() && old(entries) <= entries && 0 < id < |entries|
      ensures old(Val(entries, a)).Map? && old(Val(entries, b)).Map?
      ensures Val(entries, id)
           == Map(MergeFields(rowSortKey, old(Val(entries, a)).fields, old(Val(entries, b)).fields))
      decreases a, 3
    {
      var ma, mb := entries[a].fields, entries[b].fields;
      ValOfMap(entries, a);
      ValOfMap(entries, b);
      ghost var es0 := entries;
      ghost var fa, fb := FieldVals(es0, ma), FieldVals(es0, mb);
      MergeFieldsAscending(rowSortKey, fa, fb);
      var merged := MergeFieldIds(a, es0, ma, mb);
      FieldsOk(entries, merged);
      id := InternMap(merged);
    }

    method MergeFieldIds(ghost a: nat, ghost es0: seq<Entry>, ma: seq<(nat, nat)>, mb: seq<(nat, nat)>)
      returns (merged: seq<(nat, nat)>)
      requires Valid() && entries == es0 && FieldIds(es0, ma) && FieldIds(es0, mb)
      requires forall k | 0 <= k < |ma| :: ma[k].1 < a
      modifies this
      ensures Valid() && es0 <= entries && FieldIds(entries, merged)
      ensures FieldVals(entries, merged) == MergeFields(rowSortKey, FieldVals(es0, ma), FieldVals(es0, mb))
      decreases a, 2
    {
      ghost var fa, fb := FieldVals(es0, ma), FieldVals(es0, mb);
      ghost var target := MergeFields(rowSortKey, fa, fb);
      merged := [];
      var i, j := 0, 0;
      assert fa[0..] == fa && fb[0..] == fb && FieldVals(entries, merged) == [];
      while i < |ma| || j < |mb|
        invariant Valid() && es0 <= entries && i <= |ma| && j <= |mb| && FieldIds(entries, merged)
        invariant FieldVals(entries, merged) + MergeFields(rowSortKey, fa[i..], fb[j..]) == target
        decreases |ma| - i + |mb| - j
      {
        merged, i, j := MergeNext(a, es0, ma, i, mb, j, merged);
      }
    }

    /** One step of the merge by key: takes the smaller key, or merges a common one. */
    method MergeNext(ghost a: nat, ghost es0: seq<Entry>, ma: seq<(nat, nat)>, i: nat, mb: seq<(nat, nat)>, j: nat,
                     merged: seq<(nat, nat)>)
      returns (next: seq<(nat, nat)>, i': nat, j': nat)
      requires Valid() && ValidPool(es0) && es0 <= entries && FieldIds(es0, ma) && FieldIds(es0, mb)
      requires i <= |ma| && j <= |mb| && (i < |ma| || j < |mb|)
      requires FieldIds(entries, merged) && forall k | 0 <= k < |ma| :: ma[k].1 < a
      modifies this
      ensures Valid() && old(entries) <= entries && i <= i' <= |ma| && j <= j' <= |mb| && i + j < i' + j'
      ensures FieldIds(entries, next)
      ensures FieldVals(entries, next)
            + MergeFields(rowSortKey, FieldVals(es0, ma)[i'..], FieldVals(es0, mb)[j'..])
           == old(FieldVals(entries, merged))
            + MergeFields(rowSortKey, FieldVals(es0, ma)[i..], FieldVals(es0, mb)[j..])
      decreases a, 1
    {
      ghost var es := entries;
      var f: (nat, nat);
      f, i', j' := NextField(a, es0, ma, i, mb, j);
      FieldValsStable(es, entries, merged);
      FieldValsSnoc(entries, merged, f);
      next := merged + [f];
      ConcatAssoc(FieldVals(es, merged), [Field(KeyOf(entries, f.0), Val(entries, f.1))],
                  MergeFields(rowSortKey, FieldVals(es0, ma)[i'..], FieldVals(es0, mb)[j'..]));
    }

    method NextField(ghost a: nat, ghost es0: seq<Entry>, ma: seq<(nat, nat)>, i: nat, mb: seq<(nat, nat)>, j: nat)
      returns (f: (nat, nat), i': nat, j': nat)
      requires Valid() && ValidPool(es0) && es0 <= entries && FieldIds(es0, ma) && FieldIds(es0, mb)
      requires i <= |ma| && j <= |mb| && (i < |ma| || j < |mb|)
      requires forall k | 0 <= k < |ma| :: ma[k].1 < a
      modifies this
      ensures Valid() && old(entries) <= entries && i <= i' <= |ma| && j <= j' <= |mb| && i + j < i' + j'
      ensures IsKey(entries, f.0) && f.1 < |entries|
      ensures [Field(KeyOf(entries, f.0), Val(entries, f.1))]
            + MergeFields(rowSortKey, FieldVals(es0, ma)[i'..], FieldVals(es0, mb)[j'..])
           == MergeFields(rowSortKey, FieldVals(es0, ma)[i..], FieldVals(es0, mb)[j..])
      decreases a, 0
    {
      MergeFieldsNext(rowSortKey, FieldVals(es0, ma), i, FieldVals(es0, mb), j);
      if i < |ma| && j < |mb| && KeyOf(es0, ma[i].0) == KeyOf(es0, mb[j].0) {
        SameEntry(es0, ma[i].0, mb[j].0);
      }
      ValStable(es0, entries);
      i', j' := i, j;
      if i < |ma| && j < |mb| && ma[i].0 == mb[j].0 {
        var v := DeepMerge(ma[i].1, mb[j].1);
        f := (ma[i].0, v);
        i', j' := i + 1, j + 1;
      } else if j == |mb| || (i < |ma| && CmpBytes(KeyOf(entries, ma[i].0), KeyOf(entries, mb[j].0)) < 0) {
        f := ma[i];
        i' := i + 1;
      } else {
        f := mb[j];
        j' := j + 1;
      }
    }
  }

  lemma MergeFieldsNext(sortKey: Key, fa: seq<Field>, i: nat, fb: seq<Field>, j: nat)
    requires i <= |fa| && j <= |fb| && (i < |fa| || j < |fb|)
    ensures MergeFields(sortKey, fa[i..], fb[j..]) ==
      if i < |fa| && j < |fb| && fa[i].key == fb[j].key then
        [Field(fa[i].key, Merge(sortKey, fa[i].value, fb[j].value))]
        + MergeFields(sortKey, fa[i + 1..], fb[j + 1..])
      else if j == |fb| || (i < |fa| && CmpBytes(fa[i].key, fb[j].key) < 0) then
        [fa[i]] + MergeFields(sortKey, fa[i + 1..], fb[j..])
      else
        [fb[j]] + MergeFields(sortKey, fa[i..], fb[j + 1..])
  {
    if i < |fa| { assert fa[i..] == [fa[i]] + fa[i + 1..] && fa[i..][1..] == fa[i + 1..]; }
    if j < |fb| { assert fb[j..] == [fb[j]] + fb[j + 1..] && fb[j..][1..] == fb[j + 1..]; }
  }

  lemma MergeOfMaps(sortKey: Key, fa: seq<Field>, fb: seq<Field>)
    requires fa != fb
    ensures Merge(sortKey, Map(fa), Map(fb)) ==
      if Keys(fa) == Keys(fb) && Columnar(fa) && Columnar(fb)
      then Map(MergeTables(sortKey, fa, fb))
      else Map(MergeFields(sortKey, fa, fb))
  {
  }

  lemma KeysOfTarget(fs: seq<Field>, gs: seq<Field>)
    requires KeysAscending(fs) && Keys(gs) == Keys(fs)
    ensures KeysAscending(gs)
  {
    assert |gs| == |Keys(gs)| == |fs|;
    forall i | 0 <= i < |gs| ensures gs[i].key == fs[i].key {
      assert Keys(gs)[i] == Keys(fs)[i];
    }
  }

  lemma ValsStable(es: seq<Entry>, es': seq<Entry>, xs: seq<nat>)
    requires Closed(es) && Closed(es') && es <= es'
    requires forall k | 0 <= k < |xs| :: xs[k] < |es|
    ensures Vals(es', xs) == Vals(es, xs)
  {
    ValStable(es, es');
  }

  lemma ColumnEntry(es: seq<Entry>, fs: seq<(nat, nat)>, c: nat)
    requires Closed(es) && FieldIds(es, fs) && c < |fs|
    ensures es[fs[c].1].ArrEntry? <==> FieldVals(es, fs)[c].value.Arr?
    ensures es[fs[c].1].ArrEntry? ==> |es[fs[c].1].elems| == |FieldVals(es, fs)[c].value.elems|
  {
    assert EntryAt(es, fs[c].1);
  }

  lemma FieldValsStable(es: seq<Entry>, es': seq<Entry>, fs: seq<(nat, nat)>)
    requires Closed(es) && Closed(es') && es <= es' && FieldIds(es, fs)
    ensures FieldIds(es', fs) && FieldVals(es', fs) == FieldVals(es, fs)
  {
    ValStable(es, es');
  }

  lemma FieldValsSnoc(es: seq<Entry>, fs: seq<(nat, nat)>, f: (nat, nat))
    requires Closed(es) && FieldIds(es, fs) && IsKey(es, f.0) && f.1 < |es|
    ensures FieldIds(es, fs + [f])
    ensures FieldVals(es, fs + [f]) == FieldVals(es, fs) + [Field(KeyOf(es, f.0), Val(es, f.1))]
  {
    var gs := fs + [f];
    forall k | 0 <= k < |gs| ensures IsKey(es, gs[k].0) && gs[k].1 < |es| {
      assert gs[k] == if k < |fs| then fs[k] else f;
    }
    var vs := FieldVals(es, fs) + [Field(KeyOf(es, f.0), Val(es, f.1))];
    forall k | 0 <= k < |gs| ensures FieldVals(es, gs)[k] == vs[k] {
      assert gs[k] == if k < |fs| then fs[k] else f;
    }
  }

  lemma FieldsOk(es: seq<Entry>, fs: seq<(nat, nat)>)
    requires Closed(es) && FieldIds(es, fs) && KeysAscending(FieldVals(es, fs))
    ensures EntryOk(es, MapEntry(fs), |es|)
  {
    forall i, j | 0 <= i < j < |fs|
      ensures CmpBytes(KeyOf(es, fs[i].0), KeyOf(es, fs[j].0)) < 0
    {
      assert FieldVals(es, fs)[i].key == KeyOf(es, fs[i].0);
      assert FieldVals(es, fs)[j].key == KeyOf(es, fs[j].0);
    }
  }
}
