/**
 Record values and the content order of DataPool::less_data.

 A value is compared by variant index first, then by payload; maps compare
 field by field (key, then value) and arrays element by element.
 */
module ContentOrder {
  import opened Bytes

  type Key = seq<byte>

  datatype Field = Field(key: Key, value: Value)

  /** The JSON-like value tree of the builder, without floating-point variants. */
  datatype Value =
    | Null
    | Str(text: seq<byte>)
    | Blob(blob: seq<byte>)
    | U16(n16: u16)
    | U32(n32: u32)
    | I32(i: i32)
    | U64(n64: u64)
    | Bool(b: bool)
    | Map(fields: seq<Field>)
    | Arr(elems: seq<Value>)

  /** Index of the alternative in the C++ variant (8 and 9 are float and double). */
  function Rank(v: Value): nat {
    match v
    case Null => 0
    case Str(_) => 1
    case Blob(_) => 2
    case U16(_) => 3
    case U32(_) => 4
    case I32(_) => 5
    case U64(_) => 6
    case Bool(_) => 7
    case Map(_) => 10
    case Arr(_) => 11
  }

  function CmpInt(a: int, b: int): int {
    if a < b then -1 else if a > b then 1 else 0
  }

  function CmpBytes(a: seq<byte>, b: seq<byte>): int {
    if a == [] || b == [] then CmpInt(|a|, |b|)
    else if a[0] != b[0] then CmpInt(a[0], b[0])
    else CmpBytes(a[1..], b[1..])
  }

  /** Three-way comparison: negative, zero or positive. */
  function Cmp(v: Value, w: Value): int
    decreases v
  {
    if Rank(v) != Rank(w) then CmpInt(Rank(v), Rank(w))
    else
      match v
      case Null => 0
      case Str(s) => CmpBytes(s, w.text)
      case Blob(s) => CmpBytes(s, w.blob)
      case U16(n) => CmpInt(n, w.n16)
      case U32(n) => CmpInt(n, w.n32)
      case I32(n) => CmpInt(n, w.i)
      case U64(n) => CmpInt(n, w.n64)
      case Bool(b) => if b == w.b then 0 else if b then 1 else -1
      case Map(f) => CmpFields(f, w.fields)
      case Arr(e) => CmpSeq(e, w.elems)
  }

  function CmpSeq(a: seq<Value>, b: seq<Value>): int
    decreases a
  {
    if a == [] || b == [] then CmpInt(|a|, |b|)
    else
      var c := Cmp(a[0], b[0]);
      if c != 0 then c else CmpSeq(a[1..], b[1..])
  }

  function CmpFields(a: seq<Field>, b: seq<Field>): int
    decreases a
  {
    if a == [] || b == [] then CmpInt(|a|, |b|)
    else
      var k := CmpBytes(a[0].key, b[0].key);
      if k != 0 then k
      else
        var c := Cmp(a[0].value, b[0].value);
        if c != 0 then c else CmpFields(a[1..], b[1..])
  }

  predicate Less(v: Value, w: Value) {
    Cmp(v, w) < 0
  }

  // ---- strict total order -------------------------------------------------

  lemma {:induction false} CmpBytesOrder(a: seq<byte>, b: seq<byte>)
    ensures CmpBytes(a, b) == 0 <==> a == b
    ensures CmpBytes(b, a) == -CmpBytes(a, b)
  {
    if a != [] && b != [] && a[0] == b[0] {
      CmpBytesOrder(a[1..], b[1..]);
      assert a == [a[0]] + a[1..] && b == [b[0]] + b[1..];
    }
  }

  lemma {:induction false} CmpBytesTrans(a: seq<byte>, b: seq<byte>, c: seq<byte>)
    requires CmpBytes(a, b) < 0 && CmpBytes(b, c) < 0
    ensures CmpBytes(a, c) < 0
  {
    if a != [] && b != [] && c != [] && a[0] == b[0] && b[0] == c[0] {
      CmpBytesTrans(a[1..], b[1..], c[1..]);
    }
  }

  /** Equal content is the only tie, and swapping the operands flips the answer. */
  lemma {:induction false} CmpOrder(v: Value, w: Value)
    ensures Cmp(v, w) == 0 <==> v == w
    ensures Cmp(w, v) == -Cmp(v, w)
    decreases v
  {
    if Rank(v) == Rank(w) {
      match v
      case Str(s) => CmpBytesOrder(s, w.text);
      case Blob(s) => CmpBytesOrder(s, w.blob);
      case Map(f) => CmpFieldsOrder(f, w.fields);
      case Arr(e) => CmpSeqOrder(e, w.elems);
      case _ =>
    }
  }

  lemma {:induction false} CmpSeqOrder(a: seq<Value>, b: seq<Value>)
    ensures CmpSeq(a, b) == 0 <==> a == b
    ensures CmpSeq(b, a) == -CmpSeq(a, b)
    decreases a
  {
    if a != [] && b != [] {
      CmpOrder(a[0], b[0]);
      CmpSeqOrder(a[1..], b[1..]);
      assert a == [a[0]] + a[1..] && b == [b[0]] + b[1..];
    }
  }

  lemma {:induction false} CmpFieldsOrder(a: seq<Field>, b: seq<Field>)
    ensures CmpFields(a, b) == 0 <==> a == b
    ensures CmpFields(b, a) == -CmpFields(a, b)
    decreases a
  {
    if a != [] && b != [] {
      CmpBytesOrder(a[0].key, b[0].key);
      CmpOrder(a[0].value, b[0].value);
      CmpFieldsOrder(a[1..], b[1..]);
      assert a == [a[0]] + a[1..] && b == [b[0]] + b[1..];
    }
  }

  lemma {:induction false} CmpTrans(u: Value, v: Value, w: Value)
    requires Less(u, v) && Less(v, w)
    ensures Less(u, w)
    decreases u
  {
    if Rank(u) == Rank(v) && Rank(v) == Rank(w) {
      match u
      case Str(s) => CmpBytesTrans(s, v.text, w.text);
      case Blob(s) => CmpBytesTrans(s, v.blob, w.blob);
      case Map(f) => CmpFieldsTrans(f, v.fields, w.fields);
      case Arr(e) => CmpSeqTrans(e, v.elems, w.elems);
      case _ =>
    }
  }

  lemma {:induction false} CmpSeqTrans(a: seq<Value>, b: seq<Value>, c: seq<Value>)
    requires CmpSeq(a, b) < 0 && CmpSeq(b, c) < 0
    ensures CmpSeq(a, c) < 0
    decreases a
  {
    if a != [] && b != [] && c != [] {
      CmpOrder(a[0], b[0]);
      CmpOrder(b[0], c[0]);
      if a[0] == b[0] && b[0] == c[0] {
        CmpSeqTrans(a[1..], b[1..], c[1..]);
      } else if a[0] != b[0] && b[0] != c[0] {
        CmpTrans(a[0], b[0], c[0]);
      }
    }
  }

  lemma {:induction false} CmpFieldsTrans(a: seq<Field>, b: seq<Field>, c: seq<Field>)
    requires CmpFields(a, b) < 0 && CmpFields(b, c) < 0
    ensures CmpFields(a, c) < 0
    decreases a
  {
    if a != [] && b != [] && c != [] {
      CmpBytesOrder(a[0].key, b[0].key);
      CmpBytesOrder(b[0].key, c[0].key);
      if a[0].key != b[0].key && b[0].key != c[0].key {
        CmpBytesTrans(a[0].key, b[0].key, c[0].key);
      } else if a[0].key == b[0].key && b[0].key == c[0].key {
        CmpOrder(a[0].value, b[0].value);
        CmpOrder(b[0].value, c[0].value);
        if a[0].value == b[0].value && b[0].value == c[0].value {
          CmpFieldsTrans(a[1..], b[1..], c[1..]);
        } else if a[0].value != b[0].value && b[0].value != c[0].value {
          CmpTrans(a[0].value, b[0].value, c[0].value);
        }
      }
    }
  }

  /** less_data is a strict total order on contents. */
  lemma LessIsStrictTotalOrder(u: Value, v: Value, w: Value)
    ensures !Less(v, v)
    ensures v != w ==> Less(v, w) != Less(w, v)
    ensures Less(u, v) && Less(v, w) ==> Less(u, w)
  {
    CmpOrder(v, v);
    CmpOrder(v, w);
    if Less(u, v) && Less(v, w) {
      CmpTrans(u, v, w);
    }
  }

  // ---- sorting by content -------------------------------------------------

  ghost predicate Ascending(s: seq<Value>) {
    forall i, j | 0 <= i < j < |s| :: Less(s[i], s[j])
  }

  /** Inserts `x` into an ascending sequence, unless it is already there. */
  function Place(x: Value, s: seq<Value>): seq<Value> {
    if s == [] then [x]
    else if x == s[0] then s
    else if Less(x, s[0]) then [x] + s
    else [s[0]] + Place(x, s[1..])
  }

  /** The distinct elements of `s` in content order. */
  function SortDedup(s: seq<Value>): seq<Value> {
    if s == [] then [] else Place(s[0], SortDedup(s[1..]))
  }

  lemma {:induction false} PlaceElems(x: Value, s: seq<Value>)
    ensures Elems(Place(x, s)) == Elems(s) + {x}
  {
    if s != [] && x != s[0] && !Less(x, s[0]) {
      PlaceElems(x, s[1..]);
      assert s == [s[0]] + s[1..];
      assert Elems(Place(x, s)) == {s[0]} + Elems(Place(x, s[1..]));
    }
  }

  lemma {:induction false} PlaceAscending(x: Value, s: seq<Value>)
    requires Ascending(s)
    ensures Ascending(Place(x, s))
  {
    if s != [] && x != s[0] {
      CmpOrder(x, s[0]);
      if Less(x, s[0]) {
        forall j | 0 <= j < |s| ensures Less(x, s[j]) {
          if j > 0 { CmpTrans(x, s[0], s[j]); }
        }
      } else {
        PlaceAscending(x, s[1..]);
        PlaceElems(x, s[1..]);
        var t := Place(x, s[1..]);
        forall j | 0 <= j < |t| ensures Less(s[0], t[j]) {
          assert t[j] in Elems(s[1..]) + {x};
        }
      }
    }
  }

  lemma {:induction false} SortDedupSorts(s: seq<Value>)
    ensures Ascending(SortDedup(s))
    ensures Elems(SortDedup(s)) == Elems(s)
  {
    if s != [] {
      SortDedupSorts(s[1..]);
      PlaceAscending(s[0], SortDedup(s[1..]));
      PlaceElems(s[0], SortDedup(s[1..]));
      assert s == [s[0]] + s[1..];
    }
  }

  lemma HeadIsLeast(a: seq<Value>, x: Value)
    requires Ascending(a) && x in a
    ensures a[0] == x || Less(a[0], x)
  {
  }

  /** An ascending sequence is determined by its set of elements. */
  lemma {:induction false} AscendingUnique(a: seq<Value>, b: seq<Value>)
    requires Ascending(a) && Ascending(b) && Elems(a) == Elems(b)
    ensures a == b
  {
    assert a != [] ==> a[0] in Elems(b);
    assert b != [] ==> b[0] in Elems(a);
    if a != [] {
      HeadIsLeast(a, b[0]);
      HeadIsLeast(b, a[0]);
      CmpOrder(a[0], b[0]);
      TailElems(a);
      TailElems(b);
      AscendingUnique(a[1..], b[1..]);
      assert a == [a[0]] + a[1..] && b == [b[0]] + b[1..];
    }
  }

  lemma TailElems(a: seq<Value>)
    requires Ascending(a) && a != []
    ensures Ascending(a[1..]) && Elems(a[1..]) == Elems(a) - {a[0]}
  {
    forall j | 1 <= j < |a| ensures a[j] != a[0] {
      CmpOrder(a[0], a[j]);
    }
    forall x | x in Elems(a) - {a[0]} ensures x in a[1..] {
      var j :| 0 <= j < |a| && a[j] == x;
      assert a[1..][j - 1] == x;
    }
  }
}
