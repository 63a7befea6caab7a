/**
 The hash-consed value pool as a value: entries refer to other entries by id,
 always to smaller ids, and no two entries are equal. Ids are then in one-to-one
 correspondence with contents, and less_data compares contents.
 */
module PoolModel {
  import opened ContentOrder
  import opened RecordMerge

  /** InternalData: a value without children, or a container of ids. */
  datatype Entry =
    | Scalar(value: Value)
    | MapEntry(fields: seq<(nat, nat)>)
    | ArrEntry(elems: seq<nat>)

  const EMPTY := Scalar(Null)

  function KeyOf(es: seq<Entry>, id: nat): Key
    requires id < |es|
  {
    if es[id].Scalar? && es[id].value.Str? then es[id].value.text else []
  }

  predicate IsKey(es: seq<Entry>, id: nat) {
    id < |es| && es[id].Scalar? && es[id].value.Str?
  }

  /** `e` refers only to ids below `n`; a map has string keys in ascending order. */
  ghost predicate EntryOk(es: seq<Entry>, e: Entry, n: nat)
    requires n <= |es|
  {
    match e
    case Scalar(v) => !v.Map? && !v.Arr?
    case ArrEntry(xs) => forall k | 0 <= k < |xs| :: xs[k] < n
    case MapEntry(fs) =>
      && (forall k | 0 <= k < |fs| :: fs[k].0 < n && IsKey(es, fs[k].0) && fs[k].1 < n)
      && (forall i, j | 0 <= i < j < |fs| ::
            CmpBytes(KeyOf(es, fs[i].0), KeyOf(es, fs[j].0)) < 0)
  }

  ghost predicate EntryAt(es: seq<Entry>, i: nat) {
    i < |es| && EntryOk(es, es[i], i)
  }

  ghost predicate Closed(es: seq<Entry>) {
    forall i | 0 <= i < |es| :: EntryAt(es, i)
  }

  ghost predicate Differ(es: seq<Entry>, i: nat, j: nat) {
    i < |es| && j < |es| && es[i] != es[j]
  }

  ghost predicate Distinct(es: seq<Entry>) {
    forall i, j | 0 <= i < j < |es| :: Differ(es, i, j)
  }

  ghost predicate ValidPool(es: seq<Entry>) {
    |es| > 0 && es[0] == EMPTY && Closed(es) && Distinct(es)
  }

  /** The content of an id; 0 is the empty value. */
  ghost function Val(es: seq<Entry>, id: nat): Value
    requires Closed(es) && id < |es|
    decreases id
  {
    match es[id]
    case Scalar(v) => v
    case ArrEntry(xs) =>
      assert EntryAt(es, id);
      Arr(seq(|xs|, k requires 0 <= k < |xs| => Val(es, xs[k])))
    case MapEntry(fs) =>
      assert EntryAt(es, id);
      Map(seq(|fs|, k requires 0 <= k < |fs| => Field(KeyOf(es, fs[k].0), Val(es, fs[k].1))))
  }

  ghost function Vals(es: seq<Entry>, xs: seq<nat>): seq<Value>
    requires Closed(es) && forall k | 0 <= k < |xs| :: xs[k] < |es|
  {
    seq(|xs|, k requires 0 <= k < |xs| => Val(es, xs[k]))
  }

  ghost predicate FieldIds(es: seq<Entry>, fs: seq<(nat, nat)>) {
    forall k | 0 <= k < |fs| :: IsKey(es, fs[k].0) && fs[k].1 < |es|
  }

  ghost function FieldVals(es: seq<Entry>, fs: seq<(nat, nat)>): seq<Field>
    requires Closed(es) && FieldIds(es, fs)
  {
    seq(|fs|, k requires 0 <= k < |fs| => Field(KeyOf(es, fs[k].0), Val(es, fs[k].1)))
  }

  lemma ValOfArr(es: seq<Entry>, id: nat)
    requires Closed(es) && id < |es| && es[id].ArrEntry?
    ensures forall k | 0 <= k < |es[id].elems| :: es[id].elems[k] < id
    ensures Val(es, id) == Arr(Vals(es, es[id].elems))
  {
    assert EntryAt(es, id);
  }

  lemma ValOfMap(es: seq<Entry>, id: nat)
    requires Closed(es) && id < |es| && es[id].MapEntry?
    ensures FieldIds(es, es[id].fields)
    ensures forall k | 0 <= k < |es[id].fields| :: es[id].fields[k].0 < id && es[id].fields[k].1 < id
    ensures Val(es, id) == Map(FieldVals(es, es[id].fields))
    ensures KeysAscending(FieldVals(es, es[id].fields))
  {
    assert EntryAt(es, id);
  }

  // ---- growth -------------------------------------------------------------

  lemma {:induction false} ValStableAt(es: seq<Entry>, es': seq<Entry>, id: nat)
    requires Closed(es) && Closed(es') && es <= es' && id < |es|
    ensures Val(es', id) == Val(es, id)
    decreases id
  {
    match es[id]
    case Scalar(_) =>
    case ArrEntry(xs) =>
      ValOfArr(es, id);
      ValOfArr(es', id);
      forall k | 0 <= k < |xs| ensures Val(es', xs[k]) == Val(es, xs[k]) {
        ValStableAt(es, es', xs[k]);
      }
    case MapEntry(fs) =>
      ValOfMap(es, id);
      ValOfMap(es', id);
      forall k | 0 <= k < |fs| ensures Val(es', fs[k].1) == Val(es, fs[k].1) {
        ValStableAt(es, es', fs[k].1);
      }
      assert FieldVals(es', fs) == FieldVals(es, fs);
  }

  /** Interning never changes the meaning of an existing id. */
  lemma ValStable(es: seq<Entry>, es': seq<Entry>)
    requires Closed(es) && Closed(es') && es <= es'
    ensures forall id | 0 <= id < |es| :: Val(es', id) == Val(es, id)
  {
    forall id | 0 <= id < |es| ensures Val(es', id) == Val(es, id) {
      ValStableAt(es, es', id);
    }
  }

  lemma EntryOkStable(es: seq<Entry>, es': seq<Entry>, e: Entry, n: nat)
    requires n <= |es| && es <= es' && EntryOk(es, e, n)
    ensures EntryOk(es', e, n)
  {
    if e.MapEntry? {
      forall k | 0 <= k < |e.fields| ensures KeyOf(es', e.fields[k].0) == KeyOf(es, e.fields[k].0) {
        assert e.fields[k].0 < n;
      }
    }
  }

  lemma AppendEntry(es: seq<Entry>, e: Entry)
    requires ValidPool(es) && EntryOk(es, e, |es|) && e !in es
    ensures ValidPool(es + [e])
  {
    var es' := es + [e];
    forall i | 0 <= i < |es'| ensures EntryAt(es', i) {
      if i < |es| { assert EntryAt(es, i); EntryOkStable(es, es', es[i], i); } else { EntryOkStable(es, es', e, |es|); }
    }
    forall i, j | 0 <= i < j < |es'| ensures Differ(es', i, j) {
      if j < |es| { assert Differ(es, i, j); }
    }
  }

  // ---- one id per content -------------------------------------------------

  lemma SameEntry(es: seq<Entry>, a: nat, b: nat)
    requires Distinct(es) && a < |es| && b < |es| && es[a] == es[b]
    ensures a == b
  {
    assert !Differ(es, a, b) && !Differ(es, b, a);
  }

  lemma {:induction false} ValInjective(es: seq<Entry>, a: nat, b: nat)
    requires ValidPool(es) && a < |es| && b < |es| && Val(es, a) == Val(es, b)
    ensures a == b
    decreases a
  {
    assert EntryAt(es, a) && EntryAt(es, b);
    match es[a]
    case Scalar(_) => SameEntry(es, a, b);
    case ArrEntry(xs) =>
      ValOfArr(es, a);
      ValOfArr(es, b);
      var ys := es[b].elems;
      assert Vals(es, xs) == Vals(es, ys) && |xs| == |Vals(es, xs)| == |ys|;
      forall k | 0 <= k < |xs| ensures xs[k] == ys[k] {
        assert Vals(es, xs)[k] == Vals(es, ys)[k];
        ValInjective(es, xs[k], ys[k]);
      }
      assert xs == ys;
      SameEntry(es, a, b);
    case MapEntry(fs) =>
      ValOfMap(es, a);
      ValOfMap(es, b);
      var gs := es[b].fields;
      assert FieldVals(es, fs) == FieldVals(es, gs) && |fs| == |FieldVals(es, fs)| == |gs|;
      forall k | 0 <= k < |fs| ensures fs[k] == gs[k] {
        assert FieldVals(es, fs)[k] == FieldVals(es, gs)[k];
        SameEntry(es, fs[k].0, gs[k].0);
        ValInjective(es, fs[k].1, gs[k].1);
      }
      assert fs == gs;
      SameEntry(es, a, b);
  }

  /** Two ids are equal exactly when their contents are deeply equal. */
  lemma IdIffContent(es: seq<Entry>, a: nat, b: nat)
    requires ValidPool(es) && a < |es| && b < |es|
    ensures a == b <==> Val(es, a) == Val(es, b)
    ensures a == 0 <==> Val(es, a) == Null
  {
    if Val(es, a) == Val(es, b) { ValInjective(es, a, b); }
    if Val(es, a) == Null { ValInjective(es, a, 0); }
  }

  // ---- less_data ----------------------------------------------------------

  function EntryRank(e: Entry): nat {
    match e
    case Scalar(v) => Rank(v)
    case MapEntry(_) => 10
    case ArrEntry(_) => 11
  }

  predicate LessData(es: seq<Entry>, a: nat, b: nat)
    requires Closed(es) && a < |es| && b < |es|
    decreases a + b
  {
    if a == b then false
    else if EntryRank(es[a]) != EntryRank(es[b]) then EntryRank(es[a]) < EntryRank(es[b])
    else
      assert EntryAt(es, a) && EntryAt(es, b);
      match es[a]
      case Scalar(v) => Less(v, es[b].value)
      case MapEntry(_) => LessFields(es, a, b, 0)
      case ArrEntry(_) => LessElems(es, a, b, 0)
  }

  /** std::lexicographical_compare over the elements from position `i` on. */
  predicate LessElems(es: seq<Entry>, a: nat, b: nat, i: nat)
    requires Closed(es) && a < |es| && b < |es| && es[a].ArrEntry? && es[b].ArrEntry?
    requires i <= |es[a].elems| && i <= |es[b].elems|
    decreases a + b, |es[a].elems| - i
  {
    assert EntryAt(es, a) && EntryAt(es, b);
    var xs, ys := es[a].elems, es[b].elems;
    if i == |xs| || i == |ys| then i == |xs| && i < |ys|
    else if LessData(es, xs[i], ys[i]) then true
    else if LessData(es, ys[i], xs[i]) then false
    else LessElems(es, a, b, i + 1)
  }

  predicate LessFields(es: seq<Entry>, a: nat, b: nat, i: nat)
    requires Closed(es) && a < |es| && b < |es| && es[a].MapEntry? && es[b].MapEntry?
    requires i <= |es[a].fields| && i <= |es[b].fields|
    decreases a + b, |es[a].fields| - i
  {
    assert EntryAt(es, a) && EntryAt(es, b);
    var fs, gs := es[a].fields, es[b].fields;
    if i == |fs| || i == |gs| then i == |fs| && i < |gs|
    else
      var x, y := fs[i], gs[i];
      if (if x.0 != y.0 then LessData(es, x.0, y.0) else LessData(es, x.1, y.1)) then true
      else if (if y.0 != x.0 then LessData(es, y.0, x.0) else LessData(es, y.1, x.1)) then false
      else LessFields(es, a, b, i + 1)
  }

  /** less_data agrees with the content order. */
  lemma {:induction false} LessDataIsLess(es: seq<Entry>, a: nat, b: nat)
    requires ValidPool(es) && a < |es| && b < |es|
    ensures LessData(es, a, b) <==> Less(Val(es, a), Val(es, b))
    decreases a + b
  {
    if a == b {
      CmpOrder(Val(es, a), Val(es, b));
    } else {
      assert EntryAt(es, a) && EntryAt(es, b);
      if es[a].ArrEntry? && es[b].ArrEntry? {
        ValOfArr(es, a);
        ValOfArr(es, b);
        LessElemsIsCmp(es, a, b, 0);
      } else if es[a].MapEntry? && es[b].MapEntry? {
        ValOfMap(es, a);
        ValOfMap(es, b);
        LessFieldsIsCmp(es, a, b, 0);
      }
    }
  }

  lemma {:induction false} LessElemsIsCmp(es: seq<Entry>, a: nat, b: nat, i: nat)
    requires ValidPool(es) && a < |es| && b < |es| && es[a].ArrEntry? && es[b].ArrEntry?
    requires i <= |es[a].elems| && i <= |es[b].elems|
    requires forall k | 0 <= k < |es[a].elems| :: es[a].elems[k] < |es|
    requires forall k | 0 <= k < |es[b].elems| :: es[b].elems[k] < |es|
    ensures LessElems(es, a, b, i)
       <==> CmpSeq(Vals(es, es[a].elems)[i..], Vals(es, es[b].elems)[i..]) < 0
    decreases a + b, |es[a].elems| - i
  {
    assert EntryAt(es, a) && EntryAt(es, b);
    var xs, ys := es[a].elems, es[b].elems;
    var vs, ws := Vals(es, xs)[i..], Vals(es, ys)[i..];
    if i < |xs| && i < |ys| {
      LessDataIsLess(es, xs[i], ys[i]);
      LessDataIsLess(es, ys[i], xs[i]);
      CmpOrder(Val(es, xs[i]), Val(es, ys[i]));
      LessElemsIsCmp(es, a, b, i + 1);
      assert vs[1..] == Vals(es, xs)[i + 1..] && ws[1..] == Vals(es, ys)[i + 1..];
    }
  }

  lemma {:induction false} LessFieldsIsCmp(es: seq<Entry>, a: nat, b: nat, i: nat)
    requires ValidPool(es) && a < |es| && b < |es| && es[a].MapEntry? && es[b].MapEntry?
    requires i <= |es[a].fields| && i <= |es[b].fields|
    requires FieldIds(es, es[a].fields) && FieldIds(es, es[b].fields)
    ensures LessFields(es, a, b, i)
       <==> CmpFields(FieldVals(es, es[a].fields)[i..], FieldVals(es, es[b].fields)[i..]) < 0
    decreases a + b, |es[a].fields| - i
  {
    assert EntryAt(es, a) && EntryAt(es, b);
    var fs, gs := es[a].fields, es[b].fields;
    var vs, ws := FieldVals(es, fs)[i..], FieldVals(es, gs)[i..];
    if i < |fs| && i < |gs| {
      var x, y := fs[i], gs[i];
      CmpBytesOrder(KeyOf(es, x.0), KeyOf(es, y.0));
      if x.0 == y.0 {
        LessDataIsLess(es, x.1, y.1);
        LessDataIsLess(es, y.1, x.1);
        CmpOrder(Val(es, x.1), Val(es, y.1));
        LessFieldsIsCmp(es, a, b, i + 1);
        assert vs[1..] == FieldVals(es, fs)[i + 1..] && ws[1..] == FieldVals(es, gs)[i + 1..];
      } else {
        assert Differ(es, x.0, y.0) || Differ(es, y.0, x.0);
      }
    }
  }

  /** The order seen by callers does not depend on the order of interning. */
  lemma LessDataIgnoresInterning(es: seq<Entry>, es': seq<Entry>, a: nat, b: nat, a': nat, b': nat)
    requires ValidPool(es) && a < |es| && b < |es|
    requires ValidPool(es') && a' < |es'| && b' < |es'|
    requires Val(es, a) == Val(es', a') && Val(es, b) == Val(es', b')
    ensures LessData(es, a, b) == LessData(es', a', b')
  {
    LessDataIsLess(es, a, b);
    LessDataIsLess(es', a', b');
  }

  ghost predicate StandsFor(es: seq<Entry>, id: nat, v: Value)
    requires Closed(es)
  {
    id < |es| && Val(es, id) == v
  }

  /**
   The merge laws hold for ids: in any pool, ids that stand for merges of the same records in a
   different order or grouping are the same id.
   */
  lemma MergedIdsAgree(es: seq<Entry>, k: Key, keys: seq<Key>, u: Value, v: Value, w: Value, x: nat, y: nat)
    requires ValidPool(es) && x < |es| && y < |es| && Record(keys, u) && Record(keys, v) && Record(keys, w)
    ensures StandsFor(es, x, Merge(k, u, v)) && StandsFor(es, y, Merge(k, v, u)) ==> x == y
    ensures StandsFor(es, x, Merge(k, Merge(k, u, v), w)) && StandsFor(es, y, Merge(k, u, Merge(k, v, w))) ==> x == y
    ensures StandsFor(es, x, Merge(k, u, u)) && StandsFor(es, y, u) ==> x == y
    ensures StandsFor(es, x, Merge(k, u, Null)) && StandsFor(es, y, u) ==> x == y
  {
    MergeIsSemilattice(k, keys, u, v, w);
    IdIffContent(es, x, y);
  }
}
