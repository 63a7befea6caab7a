/**
 Merging of records by content (DataPool::deep_merge): arrays are concatenated,
 maps are merged key by key, and two columnar maps over the same keys are merged
 row by row. On columnar records the merge is a semilattice.
 */
module RecordMerge {
  import opened Bytes
  import opened ContentOrder

  // ---- columnar records ---------------------------------------------------

  function Keys(fs: seq<Field>): seq<Key> {
    seq(|fs|, i requires 0 <= i < |fs| => fs[i].key)
  }

  /** Every value is an array, and all of them have the same length. */
  predicate Columnar(fs: seq<Field>) {
    |fs| > 0 &&
    forall i | 0 <= i < |fs| :: fs[i].value.Arr? && |fs[i].value.elems| == |Column(fs[0])|
  }

  function Column(f: Field): seq<Value> {
    if f.value.Arr? then f.value.elems else []
  }

  /** Index of the configured sort column, or |keys| when no column has that name. */
  function SortColumn(sortKey: Key, keys: seq<Key>): (k: nat)
    ensures k <= |keys|
    ensures k < |keys| ==> keys[k] == sortKey
    ensures forall i | 0 <= i < k :: keys[i] != sortKey
  {
    if keys == [] || keys[0] == sortKey then 0
    else
      var k := SortColumn(sortKey, keys[1..]);
      assert forall i | 1 <= i < |keys| :: keys[i] == keys[1..][i - 1];
      k + 1
  }

  /** The column compared in position `j` when the sort column `k` comes first. */
  function ColumnAt(n: nat, k: nat, j: nat): (c: nat)
    requires j < n
    ensures c < n
  {
    if k >= n || j > k then j else if j == 0 then k else j - 1
  }

  /** The position at which column `c` is compared. */
  function PositionOf(n: nat, k: nat, c: nat): (j: nat)
    requires c < n
    ensures j < n && ColumnAt(n, k, j) == c
  {
    if k >= n || c > k then c else if c == k then 0 else c + 1
  }

  lemma PositionOfColumnAt(n: nat, k: nat, j: nat)
    requires j < n
    ensures PositionOf(n, k, ColumnAt(n, k, j)) == j
  {
  }

  /** Row `r` with the sort column first, as an array value: rows are ordered by this value. */
  function RowAt(k: nat, fs: seq<Field>, r: nat): Value
    requires Columnar(fs) && r < |Column(fs[0])|
  {
    Arr(seq(|fs|, j requires 0 <= j < |fs| => Column(fs[ColumnAt(|fs|, k, j)])[r]))
  }

  function Table(k: nat, fs: seq<Field>): seq<Value>
    requires Columnar(fs)
  {
    seq(|Column(fs[0])|, r requires 0 <= r < |Column(fs[0])| => RowAt(k, fs, r))
  }

  ghost predicate IsTable(n: nat, table: seq<Value>) {
    forall r | 0 <= r < |table| :: table[r].Arr? && |table[r].elems| == n
  }

  /** The columnar map with the given keys and rows. */
  function FromTable(k: nat, keys: seq<Key>, table: seq<Value>): seq<Field>
    requires IsTable(|keys|, table)
  {
    seq(|keys|, c requires 0 <= c < |keys| =>
      Field(keys[c], Arr(TableColumn(|keys|, k, c, table))))
  }

  function TableColumn(n: nat, k: nat, c: nat, table: seq<Value>): seq<Value>
    requires c < n && IsTable(n, table)
  {
    seq(|table|, r requires 0 <= r < |table| => table[r].elems[PositionOf(n, k, c)])
  }

  lemma TableIsTable(k: nat, fs: seq<Field>)
    requires Columnar(fs)
    ensures IsTable(|fs|, Table(k, fs))
  {
  }

  lemma FromTableColumnar(k: nat, keys: seq<Key>, table: seq<Value>)
    requires |keys| > 0 && IsTable(|keys|, table)
    ensures Columnar(FromTable(k, keys, table))
    ensures Keys(FromTable(k, keys, table)) == keys
    ensures |Column(FromTable(k, keys, table)[0])| == |table|
  {
  }

  /** Rows survive the trip through columns: the columns stay aligned. */
  lemma TableFromTable(k: nat, keys: seq<Key>, table: seq<Value>)
    requires |keys| > 0 && IsTable(|keys|, table)
    ensures Columnar(FromTable(k, keys, table))
    ensures Table(k, FromTable(k, keys, table)) == table
  {
    FromTableColumnar(k, keys, table);
    var fs := FromTable(k, keys, table);
    forall r | 0 <= r < |table| ensures RowAt(k, fs, r) == table[r] {
      forall j | 0 <= j < |keys|
        ensures RowAt(k, fs, r).elems[j] == table[r].elems[j]
      {
        var c := ColumnAt(|keys|, k, j);
        PositionOfColumnAt(|keys|, k, j);
        assert Column(fs[c])[r] == table[r].elems[PositionOf(|keys|, k, c)];
      }
      assert RowAt(k, fs, r).elems == table[r].elems;
    }
  }

  /** A columnar map is determined by its keys and its rows. */
  lemma FromTableTable(k: nat, fs: seq<Field>)
    requires Columnar(fs)
    ensures IsTable(|Keys(fs)|, Table(k, fs))
    ensures FromTable(k, Keys(fs), Table(k, fs)) == fs
  {
    TableIsTable(k, fs);
    var n := |fs|;
    var gs := FromTable(k, Keys(fs), Table(k, fs));
    forall c | 0 <= c < n ensures gs[c] == fs[c] {
      var col := TableColumn(n, k, c, Table(k, fs));
      forall r | 0 <= r < |Column(fs[0])| ensures col[r] == Column(fs[c])[r] {
        assert Table(k, fs)[r] == RowAt(k, fs, r);
        assert RowAt(k, fs, r).elems[PositionOf(n, k, c)] == Column(fs[c])[r];
      }
      assert col == Column(fs[c]);
    }
  }

  // ---- the merge ----------------------------------------------------------

  function MergeTables(sortKey: Key, fa: seq<Field>, fb: seq<Field>): seq<Field>
    requires Columnar(fa) && Columnar(fb) && Keys(fa) == Keys(fb)
  {
    var k := SortColumn(sortKey, Keys(fa));
    var rows := Table(k, fa) + Table(k, fb);
    RowsMerge(|fa|, rows);
    assert |fb| == |Keys(fb)| == |fa|;
    FromTable(k, Keys(fa), SortDedup(rows))
  }

  lemma RowsMerge(n: nat, rows: seq<Value>)
    requires IsTable(n, rows)
    ensures IsTable(n, SortDedup(rows))
  {
    SortDedupSorts(rows);
    forall r | 0 <= r < |SortDedup(rows)|
      ensures SortDedup(rows)[r].Arr? && |SortDedup(rows)[r].elems| == n
    {
      assert SortDedup(rows)[r] in Elems(rows);
    }
  }

  /** The content of deep_merge(a, b). */
  function Merge(sortKey: Key, a: Value, b: Value): Value
    decreases a
  {
    if a.Null? then b
    else if b.Null? || a == b then a
    else if a.Arr? && b.Arr? then Arr(a.elems + b.elems)
    else if a.Map? && b.Map? then
      if Keys(a.fields) == Keys(b.fields) && Columnar(a.fields) && Columnar(b.fields)
      then Map(MergeTables(sortKey, a.fields, b.fields))
      else Map(MergeFields(sortKey, a.fields, b.fields))
    else b
  }

  /** Merges two key-ordered field lists; values under a common key are merged. */
  function MergeFields(sortKey: Key, fa: seq<Field>, fb: seq<Field>): seq<Field>
    decreases fa, |fb|
  {
    if fa == [] then fb
    else if fb == [] then fa
    else if fa[0].key == fb[0].key then
      [Field(fa[0].key, Merge(sortKey, fa[0].value, fb[0].value))]
      + MergeFields(sortKey, fa[1..], fb[1..])
    else if CmpBytes(fa[0].key, fb[0].key) < 0 then
      [fa[0]] + MergeFields(sortKey, fa[1..], fb)
    else
      [fb[0]] + MergeFields(sortKey, fa, fb[1..])
  }

  ghost predicate KeysAscending(fs: seq<Field>) {
    forall i, j | 0 <= i < j < |fs| :: CmpBytes(fs[i].key, fs[j].key) < 0
  }

  function KeySet(fs: seq<Field>): set<Key> {
    set i | 0 <= i < |fs| :: fs[i].key
  }

  function ValueAt(fs: seq<Field>, key: Key): Value {
    if fs == [] then Null
    else if fs[0].key == key then fs[0].value
    else ValueAt(fs[1..], key)
  }

  lemma KeySetStep(fs: seq<Field>)
    requires fs != []
    ensures KeySet(fs) == {fs[0].key} + KeySet(fs[1..])
  {
    forall k | k in KeySet(fs) ensures k in {fs[0].key} + KeySet(fs[1..]) {
      var i :| 0 <= i < |fs| && fs[i].key == k;
      assert i > 0 ==> fs[1..][i - 1].key == k;
    }
    forall k | k in KeySet(fs[1..]) ensures k in KeySet(fs) {
      var i :| 0 <= i < |fs[1..]| && fs[1..][i].key == k;
      assert fs[i + 1].key == k;
    }
  }

  lemma {:induction false} MergeFieldsKeys(sortKey: Key, fa: seq<Field>, fb: seq<Field>)
    ensures KeySet(MergeFields(sortKey, fa, fb)) == KeySet(fa) + KeySet(fb)
    decreases fa, |fb|
  {
    if fa != [] && fb != [] {
      KeySetStep(fa);
      KeySetStep(fb);
      KeySetStep(MergeFields(sortKey, fa, fb));
      var m := MergeFields(sortKey, fa, fb);
      if fa[0].key == fb[0].key {
        MergeFieldsKeys(sortKey, fa[1..], fb[1..]);
        assert m[1..] == MergeFields(sortKey, fa[1..], fb[1..]);
      } else if CmpBytes(fa[0].key, fb[0].key) < 0 {
        MergeFieldsKeys(sortKey, fa[1..], fb);
        assert m[1..] == MergeFields(sortKey, fa[1..], fb);
      } else {
        MergeFieldsKeys(sortKey, fa, fb[1..]);
        assert m[1..] == MergeFields(sortKey, fa, fb[1..]);
      }
    } else {
      assert KeySet([]) == {};
    }
  }

  lemma AscendingHead(f: Field, fs: seq<Field>)
    requires KeysAscending(fs)
    requires forall k | k in KeySet(fs) :: CmpBytes(f.key, k) < 0
    ensures KeysAscending([f] + fs)
  {
    forall j | 0 <= j < |fs| ensures CmpBytes(f.key, fs[j].key) < 0 {
      assert fs[j].key in KeySet(fs);
    }
  }

  lemma TailAbove(fs: seq<Field>, k: Key)
    requires KeysAscending(fs) && fs != []
    requires CmpBytes(k, fs[0].key) < 0
    ensures forall x | x in KeySet(fs) :: CmpBytes(k, x) < 0
  {
    forall x | x in KeySet(fs) ensures CmpBytes(k, x) < 0 {
      var i :| 0 <= i < |fs| && fs[i].key == x;
      if i > 0 { CmpBytesTrans(k, fs[0].key, x); }
    }
  }

  lemma TailAboveHead(fs: seq<Field>)
    requires KeysAscending(fs) && fs != []
    ensures KeysAscending(fs[1..])
    ensures forall x | x in KeySet(fs[1..]) :: CmpBytes(fs[0].key, x) < 0
  {
  }

  /** A merged map is again ordered by key: one field per key of either operand. */
  lemma {:induction false} MergeFieldsAscending(sortKey: Key, fa: seq<Field>, fb: seq<Field>)
    requires KeysAscending(fa) && KeysAscending(fb)
    ensures KeysAscending(MergeFields(sortKey, fa, fb))
    decreases fa, |fb|
  {
    if fa != [] && fb != [] {
      TailAboveHead(fa);
      TailAboveHead(fb);
      CmpBytesOrder(fa[0].key, fb[0].key);
      if fa[0].key == fb[0].key {
        MergeFieldsAscending(sortKey, fa[1..], fb[1..]);
        MergeFieldsKeys(sortKey, fa[1..], fb[1..]);
        AscendingHead(Field(fa[0].key, Merge(sortKey, fa[0].value, fb[0].value)),
                      MergeFields(sortKey, fa[1..], fb[1..]));
      } else if CmpBytes(fa[0].key, fb[0].key) < 0 {
        MergeFieldsAscending(sortKey, fa[1..], fb);
        MergeFieldsKeys(sortKey, fa[1..], fb);
        TailAbove(fb, fa[0].key);
        AscendingHead(fa[0], MergeFields(sortKey, fa[1..], fb));
      } else {
        MergeFieldsAscending(sortKey, fa, fb[1..]);
        MergeFieldsKeys(sortKey, fa, fb[1..]);
        TailAbove(fa, fb[0].key);
        AscendingHead(fb[0], MergeFields(sortKey, fa, fb[1..]));
      }
    }
  }

  lemma {:induction false} AbsentBelow(fs: seq<Field>, key: Key)
    requires forall x | x in KeySet(fs) :: CmpBytes(key, x) < 0
    ensures ValueAt(fs, key) == Null
  {
    CmpBytesOrder(key, key);
    if fs != [] {
      KeySetStep(fs);
      AbsentBelow(fs[1..], key);
    }
  }

  /** Maps merge key by key; a key missing on one side counts as null there. */
  lemma {:induction false} MergeFieldsValueAt(sortKey: Key, fa: seq<Field>, fb: seq<Field>, key: Key)
    requires KeysAscending(fa) && KeysAscending(fb)
    ensures ValueAt(MergeFields(sortKey, fa, fb), key)
         == Merge(sortKey, ValueAt(fa, key), ValueAt(fb, key))
    decreases fa, |fb|
  {
    if fa != [] && fb != [] {
      TailAboveHead(fa);
      TailAboveHead(fb);
      CmpBytesOrder(fa[0].key, fb[0].key);
      if fa[0].key == fb[0].key {
        MergeFieldsValueAt(sortKey, fa[1..], fb[1..], key);
      } else if CmpBytes(fa[0].key, fb[0].key) < 0 {
        MergeFieldsValueAt(sortKey, fa[1..], fb, key);
        TailAbove(fb, fa[0].key);
        AbsentBelow(fb, fa[0].key);
      } else {
        MergeFieldsValueAt(sortKey, fa, fb[1..], key);
        TailAbove(fa, fb[0].key);
        AbsentBelow(fa, fb[0].key);
      }
    }
  }

  lemma MergeNonNull(sortKey: Key, a: Value, b: Value)
    ensures Merge(sortKey, a, b) == Null <==> a == Null && b == Null
  {
  }

  // ---- semilattice --------------------------------------------------------

  /** A columnar record over `keys`, as every blocklist record is. */
  ghost predicate Record(keys: seq<Key>, v: Value) {
    v.Map? && Columnar(v.fields) && Keys(v.fields) == keys
  }

  ghost function Rows(sortKey: Key, v: Value): seq<Value>
    requires v.Map? && Columnar(v.fields)
  {
    Table(SortColumn(sortKey, Keys(v.fields)), v.fields)
  }

  /** Two records over the same keys with the same set of ordered rows are the same value. */
  lemma RecordDeterminedByRows(sortKey: Key, keys: seq<Key>, a: Value, b: Value)
    requires Record(keys, a) && Record(keys, b)
    requires Ascending(Rows(sortKey, a)) && Ascending(Rows(sortKey, b))
    requires Elems(Rows(sortKey, a)) == Elems(Rows(sortKey, b))
    ensures a == b
  {
    var k := SortColumn(sortKey, keys);
    AscendingUnique(Table(k, a.fields), Table(k, b.fields));
    FromTableTable(k, a.fields);
    FromTableTable(k, b.fields);
  }

  /** Merging records takes the union of their rows; different records merge into ordered rows. */
  lemma MergeIsUnion(sortKey: Key, keys: seq<Key>, a: Value, b: Value)
    requires Record(keys, a) && Record(keys, b)
    ensures Record(keys, Merge(sortKey, a, b))
    ensures Elems(Rows(sortKey, Merge(sortKey, a, b)))
         == Elems(Rows(sortKey, a)) + Elems(Rows(sortKey, b))
    ensures a != b ==> Ascending(Rows(sortKey, Merge(sortKey, a, b)))
  {
    if a != b {
      var k := SortColumn(sortKey, keys);
      var rows := Table(k, a.fields) + Table(k, b.fields);
      assert |keys| == |Keys(a.fields)| == |a.fields| && |keys| == |Keys(b.fields)| == |b.fields|;
      TableIsTable(k, a.fields);
      TableIsTable(k, b.fields);
      RowsMerge(|keys|, rows);
      SortDedupSorts(rows);
      TableFromTable(k, keys, SortDedup(rows));
      FromTableColumnar(k, keys, SortDedup(rows));
    }
  }

  // ---- folding ------------------------------------------------------------

  /** Left-to-right merge of a sequence of records, starting from nothing. */
  function FoldMerge(sortKey: Key, vs: seq<Value>): Value {
    if vs == [] then Null
    else Merge(sortKey, FoldMerge(sortKey, vs[..|vs| - 1]), vs[|vs| - 1])
  }

  lemma FoldSnoc(sortKey: Key, vs: seq<Value>, v: Value)
    ensures FoldMerge(sortKey, vs + [v]) == Merge(sortKey, FoldMerge(sortKey, vs), v)
  {
    assert (vs + [v])[..|vs|] == vs;
  }

  ghost predicate AllRecords(keys: seq<Key>, vs: seq<Value>) {
    forall v | v in vs :: Record(keys, v)
  }

  ghost predicate Constant(vs: seq<Value>) {
    forall v, w | v in vs && w in vs :: v == w
  }

  ghost function AllRows(sortKey: Key, keys: seq<Key>, vs: seq<Value>): set<Value>
    requires AllRecords(keys, vs)
  {
    set v, r | v in vs && r in Rows(sortKey, v) :: r
  }

  lemma AllRowsSnoc(sortKey: Key, keys: seq<Key>, init: seq<Value>, last: Value)
    requires AllRecords(keys, init) && Record(keys, last)
    ensures AllRecords(keys, init + [last])
    ensures AllRows(sortKey, keys, init + [last])
         == AllRows(sortKey, keys, init) + Elems(Rows(sortKey, last))
  {
    assert forall v :: v in init + [last] <==> v in init || v == last;
  }

  lemma ConstantSnoc(init: seq<Value>, last: Value)
    requires init != []
    ensures Constant(init + [last]) <==> Constant(init) && init[0] == last
  {
    var vs := init + [last];
    assert forall v :: v in vs <==> v in init || v == last;
    assert init[0] in init && init[0] in vs && last in vs;
    if Constant(init) && init[0] == last {
      assert forall v | v in vs :: v == init[0];
    }
    if Constant(vs) {
      assert forall v, w | v in init && w in init :: v in vs && w in vs && v == w;
    }
  }

  lemma {:induction false} FoldIsUnion(sortKey: Key, keys: seq<Key>, vs: seq<Value>)
    requires AllRecords(keys, vs) && vs != []
    ensures Record(keys, FoldMerge(sortKey, vs))
    ensures Elems(Rows(sortKey, FoldMerge(sortKey, vs))) == AllRows(sortKey, keys, vs)
    ensures Constant(vs) ==> FoldMerge(sortKey, vs) == vs[0]
    ensures !Constant(vs) ==> Ascending(Rows(sortKey, FoldMerge(sortKey, vs)))
  {
    var init, last := vs[..|vs| - 1], vs[|vs| - 1];
    assert vs == init + [last] && last in vs;
    AllRowsSnoc(sortKey, keys, init, last);
    if init == [] {
      assert AllRows(sortKey, keys, init) == {};
      assert FoldMerge(sortKey, vs) == last;
    } else {
      FoldIsUnion(sortKey, keys, init);
      MergeIsUnion(sortKey, keys, FoldMerge(sortKey, init), last);
      ConstantSnoc(init, last);
    }
  }

  /** The fold of columnar records depends only on which records occur. */
  lemma FoldDependsOnSet(sortKey: Key, keys: seq<Key>, vs: seq<Value>, ws: seq<Value>)
    requires AllRecords(keys, vs) && Elems(vs) == Elems(ws)
    ensures AllRecords(keys, ws)
    ensures FoldMerge(sortKey, vs) == FoldMerge(sortKey, ws)
  {
    forall w | w in ws ensures w in vs { assert w in Elems(ws); }
    forall v | v in vs ensures v in ws { assert v in Elems(vs); }
    assert ws != [] ==> ws[0] in vs;
    if vs != [] {
      assert vs[0] in ws;
      FoldIsUnion(sortKey, keys, vs);
      FoldIsUnion(sortKey, keys, ws);
      assert Constant(vs) == Constant(ws);
      if !Constant(vs) {
        assert AllRows(sortKey, keys, vs) == AllRows(sortKey, keys, ws);
        RecordDeterminedByRows(sortKey, keys, FoldMerge(sortKey, vs), FoldMerge(sortKey, ws));
      }
    }
  }

  lemma FoldTwo(sortKey: Key, a: Value, b: Value)
    ensures FoldMerge(sortKey, [a, b]) == Merge(sortKey, a, b)
  {
    assert [a, b][..1] == [a] && [a][..0] == [];
    assert FoldMerge(sortKey, [a]) == a;
  }

  lemma FoldThree(sortKey: Key, a: Value, b: Value, c: Value)
    ensures FoldMerge(sortKey, [a, b, c]) == Merge(sortKey, Merge(sortKey, a, b), c)
  {
    assert [a, b, c][..2] == [a, b];
    FoldTwo(sortKey, a, b);
  }

  /** On columnar records over the same keys the merge is a semilattice with null as unit. */
  lemma MergeIsSemilattice(sortKey: Key, keys: seq<Key>, a: Value, b: Value, c: Value)
    requires Record(keys, a) && Record(keys, b) && Record(keys, c)
    ensures Merge(sortKey, a, b) == Merge(sortKey, b, a)
    ensures Merge(sortKey, Merge(sortKey, a, b), c) == Merge(sortKey, a, Merge(sortKey, b, c))
    ensures Merge(sortKey, a, a) == a
    ensures Merge(sortKey, a, Null) == a && Merge(sortKey, Null, a) == a
  {
    MergeCommutes(sortKey, keys, a, b);
    MergeIsUnion(sortKey, keys, b, c);
    MergeCommutes(sortKey, keys, a, Merge(sortKey, b, c));
    FoldThree(sortKey, a, b, c);
    FoldThree(sortKey, b, c, a);
    FoldDependsOnSet(sortKey, keys, [a, b, c], [b, c, a]);
  }

  lemma MergeCommutes(sortKey: Key, keys: seq<Key>, a: Value, b: Value)
    requires Record(keys, a) && Record(keys, b)
    ensures Merge(sortKey, a, b) == Merge(sortKey, b, a)
  {
    FoldTwo(sortKey, a, b);
    FoldTwo(sortKey, b, a);
    FoldDependsOnSet(sortKey, keys, [a, b], [b, a]);
  }
}
