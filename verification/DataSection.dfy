/**
 The data section: values are written once and referred to by pointers
 afterwards (Builder::serialize_data), and a reader of the format recovers
 exactly the values that are `Encodable`.
 */
module DataSection {
  import opened Bytes
  import opened ContentOrder
  import opened DataFormat

  // ---- serialization ------------------------------------------------------

  /** Bytes written so far and the offset of every value that can be pointed to. */
  datatype Section = Section(bytes: seq<byte>, emitted: map<Value, u32>)

  predicate Remembered(v: Value) {
    v.Str? || v.Map? || v.Arr?
  }

  function Begin(st: Section, v: Value, first: seq<byte>): Section {
    Section(st.bytes + first,
            if Remembered(v) then st.emitted[v := |st.bytes| % TWO32] else st.emitted)
  }

  /** serialize_data by content. */
  function Emit(st: Section, v: Value): Section
    decreases v
  {
    if v.Null? then st
    else if v in st.emitted then Section(st.bytes + Pointer(st.emitted[v]), st.emitted)
    else if v.Map? then EmitFields(Begin(st, v, Header(7, |v.fields|)), v.fields)
    else if v.Arr? then EmitSeq(Begin(st, v, Header(11, |v.elems|)), v.elems)
    else Begin(st, v, ScalarBytes(v))
  }

  function EmitSeq(st: Section, xs: seq<Value>): Section
    decreases xs
  {
    if xs == [] then st else EmitSeq(Emit(st, xs[0]), xs[1..])
  }

  function EmitFields(st: Section, fs: seq<Field>): Section
    decreases fs
  {
    if fs == [] then st else EmitFields(Emit(EmitKey(st, fs[0].key), fs[0].value), fs[1..])
  }

  function EmitKey(st: Section, key: Key): Section {
    if Str(key) in st.emitted then Section(st.bytes + Pointer(st.emitted[Str(key)]), st.emitted)
    else Begin(st, Str(key), ScalarBytes(Str(key)))
  }

  // ---- what reads back ----------------------------------------------------

  /** The values that survive: no null inside, sizes the format can express. */
  predicate Encodable(v: Value) {
    match v
    case Null => false
    case Str(s) => HeaderExact(2, |s|)
    case Blob(s) => HeaderExact(4, |s|)
    case Map(fs) => HeaderExact(7, |fs|) && EncodableFields(fs)
    case Arr(xs) => HeaderExact(11, |xs|) && EncodableSeq(xs)
    case _ => true
  }

  predicate EncodableSeq(xs: seq<Value>) {
    xs == [] || (Encodable(xs[0]) && EncodableSeq(xs[1..]))
  }

  predicate EncodableFields(fs: seq<Field>) {
    fs == [] || (HeaderExact(2, |fs[0].key|) && Encodable(fs[0].value) && EncodableFields(fs[1..]))
  }

  function Max(a: nat, b: nat): nat { if a < b then b else a }

  /** Nesting of containers, which bounds the recursion of the reader. */
  function Depth(v: Value): nat {
    match v
    case Map(fs) => 1 + DepthFields(fs)
    case Arr(xs) => 1 + DepthSeq(xs)
    case _ => 0
  }

  function DepthSeq(xs: seq<Value>): nat {
    if xs == [] then 0 else Max(Depth(xs[0]), DepthSeq(xs[1..]))
  }

  function DepthFields(fs: seq<Field>): nat {
    if fs == [] then 0 else Max(Depth(fs[0].value), DepthFields(fs[1..]))
  }

  function Size(v: Value): nat {
    match v
    case Map(fs) => 1 + SizeFields(fs)
    case Arr(xs) => 1 + SizeSeq(xs)
    case _ => 1
  }

  function SizeSeq(xs: seq<Value>): nat {
    if xs == [] then 0 else Size(xs[0]) + SizeSeq(xs[1..])
  }

  function SizeFields(fs: seq<Field>): nat {
    if fs == [] then 0 else 1 + Size(fs[0].value) + SizeFields(fs[1..])
  }

  /** Whatever follows `b`, reading at `pos` yields `v` if it is encodable and not `v` otherwise. */
  ghost predicate Exact(b: seq<byte>, pos: nat, v: Value, next: nat) {
    forall rest: seq<byte>, fuel: nat, strict: bool | fuel >= Depth(v) :: Result(Read(b + rest, pos, fuel, strict), v, next)
  }

  ghost predicate ExactInline(b: seq<byte>, pos: nat, v: Value, next: nat) {
    forall rest: seq<byte>, fuel: nat, strict: bool | fuel >= Depth(v) :: Result(ReadInline(b + rest, pos, fuel, strict), v, next)
  }

  predicate Result(r: Option<Item>, v: Value, next: nat) {
    if Encodable(v) then r == Some(Item(v, next)) else r.None? || r.value.value != v
  }

  ghost predicate ExactSeq(b: seq<byte>, pos: nat, xs: seq<Value>, next: nat) {
    forall rest: seq<byte>, fuel: nat, strict: bool | fuel >= DepthSeq(xs) ::
      SeqResult(ReadSeq(b + rest, pos, |xs|, fuel, strict), xs, next)
  }

  predicate SeqResult(r: Option<Items>, xs: seq<Value>, next: nat) {
    if EncodableSeq(xs) then r == Some(Items(xs, next)) else r.None? || r.value.values != xs
  }

  ghost predicate ExactFields(b: seq<byte>, pos: nat, fs: seq<Field>, next: nat) {
    forall rest: seq<byte>, fuel: nat, strict: bool | fuel >= DepthFields(fs) ::
      FieldsResult(ReadFields(b + rest, pos, |fs|, fuel, strict), fs, next)
  }

  predicate FieldsResult(r: Option<FieldItems>, fs: seq<Field>, next: nat) {
    if EncodableFields(fs) then r == Some(FieldItems(fs, next)) else r.None? || r.value.fields != fs
  }

  // ---- more bytes change nothing ------------------------------------------

  lemma ExtendInline(b: seq<byte>, b': seq<byte>, pos: nat, v: Value, next: nat)
    requires b <= b' && ExactInline(b, pos, v, next)
    ensures ExactInline(b', pos, v, next)
  {
    forall rest: seq<byte>, fuel: nat, strict: bool | fuel >= Depth(v)
      ensures Result(ReadInline(b' + rest, pos, fuel, strict), v, next)
    {
      assert b' + rest == b + (b'[|b|..] + rest);
    }
  }

  lemma ExtendExact(b: seq<byte>, b': seq<byte>, pos: nat, v: Value, next: nat)
    requires b <= b' && Exact(b, pos, v, next)
    ensures Exact(b', pos, v, next)
  {
    forall rest: seq<byte>, fuel: nat, strict: bool | fuel >= Depth(v)
      ensures Result(Read(b' + rest, pos, fuel, strict), v, next)
    {
      assert b' + rest == b + (b'[|b|..] + rest);
    }
  }

  // ---- single values ------------------------------------------------------

  /** A payload behind a header: the reader finds the head and then the payload. */
  lemma SplitHeader(d: seq<byte>, pos: nat, first: seq<byte>, kind: nat, size: nat, s: seq<byte>)
    requires Heads(first, kind, size) && Holds(d, pos, first + s)
    ensures HeadFound(d, pos, kind, size, pos + |first|) && !IsPointer(d, pos)
    ensures pos + |first| + |s| <= |d| && d[pos + |first|..pos + |first| + |s|] == s
  {
    assert forall i | 0 <= i < |first| :: (first + s)[i] == first[i];
    assert Holds(d, pos, first);
    forall i | 0 <= i < |s| ensures d[pos + |first| + i] == s[i] {
      assert (first + s)[|first| + i] == s[i];
    }
  }

  /** The reader's answer at a head that is not a container. */
  lemma InlineScalar(d: seq<byte>, pos: nat, fuel: nat, strict: bool)
    requires ReadHead(d, pos).Some? && ReadHead(d, pos).value.kind !in {7, 11}
    ensures ReadInline(d, pos, fuel, strict) == ReadScalar(d, ReadHead(d, pos).value)
  {
  }

  lemma TextDecodes(d: seq<byte>, h: Head, v: Value)
    requires (v.Str? || v.Blob?) && h.kind == Kind(v) && h.next + |Payload(v)| <= |d|
    requires d[h.next..h.next + |Payload(v)|] == Payload(v)
    ensures h.size == SizeOf(v) ==> ReadScalar(d, h) == Some(Item(v, h.next + |Payload(v)|))
    ensures h.size != SizeOf(v) ==> ReadScalar(d, h).None? || ReadScalar(d, h).value.value != v
  {
  }

  lemma UintDecodes(d: seq<byte>, h: Head, v: Value, n: nat)
    requires (v.U16? && v.n16 == n) || (v.U32? && v.n32 == n) || (v.U64? && v.n64 == n)
    requires h.kind == Kind(v) && h.size == |UintBytes(n)| && h.next + h.size <= |d|
    requires d[h.next..h.next + h.size] == UintBytes(n)
    ensures ReadScalar(d, h) == Some(Item(v, h.next + h.size))
  {
    UintBytesFit(n);
    UintBytesRead(n);
    NumberDecodes(d, h, v, UintBytes(n), n);
  }

  lemma NumberDecodes(d: seq<byte>, h: Head, v: Value, s: seq<byte>, n: nat)
    requires (v.U16? && v.n16 == n && |s| <= 2) || (v.U32? && v.n32 == n && |s| <= 4)
          || (v.U64? && v.n64 == n && |s| <= 8)
    requires h.kind == Kind(v) && h.size == |s| && h.next + h.size <= |d|
    requires d[h.next..h.next + h.size] == s && BigEndian(s) == n
    ensures ReadScalar(d, h) == Some(Item(v, h.next + h.size))
  {
  }

  lemma IntDecodes(d: seq<byte>, h: Head, i: i32)
    requires h.kind == 8 && h.size == 4 && h.next + 4 <= |d| && d[h.next..h.next + 4] == IntBytes(i)
    ensures ReadScalar(d, h) == Some(Item(I32(i), h.next + 4))
  {
    IntBytesRead(i);
  }

  /** A head followed by the payload decodes to the value. */
  lemma ScalarDecodes(d: seq<byte>, h: Head, v: Value)
    requires IsScalar(v) && h.kind == Kind(v) && h.size == SizeOf(v)
    requires h.next + |Payload(v)| <= |d| && d[h.next..h.next + |Payload(v)|] == Payload(v)
    ensures ReadScalar(d, h) == Some(Item(v, h.next + |Payload(v)|))
  {
    match v
    case Str(_) => TextDecodes(d, h, v);
    case Blob(_) => TextDecodes(d, h, v);
    case U16(n) => UintDecodes(d, h, v, n);
    case U32(n) => UintDecodes(d, h, v, n);
    case U64(n) => UintDecodes(d, h, v, n);
    case I32(i) => IntBytesRead(i); IntDecodes(d, h, i);
    case Bool(b) =>
  }

  lemma ScalarEncodable(v: Value)
    requires IsScalar(v)
    ensures Encodable(v) <==> HeaderExact(Kind(v), SizeOf(v))
    ensures !Encodable(v) ==> v.Str? || v.Blob?
  {
    match v
    case U16(n) => UintBytesFit(n);
    case U32(n) => UintBytesFit(n);
    case U64(n) => UintBytesFit(n);
    case I32(i) => IntBytesRead(i);
    case _ =>
  }

  lemma ScalarReads(d: seq<byte>, pos: nat, first: seq<byte>, v: Value, block: seq<byte>, fuel: nat, strict: bool)
    requires IsScalar(v) && Heads(first, Kind(v), SizeOf(v)) && block == first + Payload(v) && Holds(d, pos, block)
    ensures Result(ReadInline(d, pos, fuel, strict), v, pos + |block|)
    ensures !IsPointer(d, pos)
  {
    SplitHeader(d, pos, first, Kind(v), SizeOf(v), Payload(v));
    ScalarEncodable(v);
    InlineScalar(d, pos, fuel, strict);
    if Encodable(v) {
      ScalarDecodes(d, ReadHead(d, pos).value, v);
    } else {
      TextDecodes(d, ReadHead(d, pos).value, v);
    }
  }

  lemma HoldsAppended(b: seq<byte>, s: seq<byte>, b': seq<byte>)
    requires b + s <= b'
    ensures Holds(b', |b|, s)
    ensures forall rest: seq<byte> :: Holds(b' + rest, |b|, s)
  {
    forall rest: seq<byte> ensures Holds(b' + rest, |b|, s) {
      forall i | 0 <= i < |s| ensures (b' + rest)[|b| + i] == s[i] {
        assert (b + s)[|b| + i] == s[i];
      }
    }
    assert b' + [] == b';
  }

  /** `block` is the encoding of `v` wherever it stands. */
  ghost predicate ReadsAs(block: seq<byte>, v: Value) {
    && block != []
    && (forall d: seq<byte>, pos: nat | Holds(d, pos, block) :: !IsPointer(d, pos))
    && (forall d: seq<byte>, pos: nat, fuel: nat, strict: bool | Holds(d, pos, block) ::
          Result(ReadInline(d, pos, fuel, strict), v, pos + |block|))
  }

  lemma ScalarBlock(first: seq<byte>, v: Value, block: seq<byte>)
    requires IsScalar(v) && Heads(first, Kind(v), SizeOf(v)) && block == first + Payload(v)
    ensures ReadsAs(block, v)
  {
    forall d: seq<byte>, pos: nat, fuel: nat, strict: bool | Holds(d, pos, block)
      ensures Result(ReadInline(d, pos, fuel, strict), v, pos + |block|)
    {
      ScalarReads(d, pos, first, v, block, fuel, strict);
    }
    ScalarBlockNoPointer(first, v, block);
  }

  lemma ScalarBlockNoPointer(first: seq<byte>, v: Value, block: seq<byte>)
    requires IsScalar(v) && Heads(first, Kind(v), SizeOf(v)) && block == first + Payload(v)
    ensures forall d: seq<byte>, pos: nat | Holds(d, pos, block) :: !IsPointer(d, pos)
  {
    forall d: seq<byte>, pos: nat | Holds(d, pos, block) ensures !IsPointer(d, pos) {
      ScalarReads(d, pos, first, v, block, 0, true);
    }
  }

  lemma BlockExact(b: seq<byte>, block: seq<byte>, v: Value, b': seq<byte>)
    requires ReadsAs(block, v) && b' == b + block
    ensures ExactInline(b', |b|, v, |b'|)
    ensures |b'| > |b| && !IsPointer(b', |b|)
  {
    assert Holds(b', |b|, block);
    forall rest: seq<byte>, fuel: nat, strict: bool ensures Result(ReadInline(b' + rest, |b|, fuel, strict), v, |b'|) {
      assert Holds(b' + rest, |b|, block);
    }
  }

  /** A value that is not a pointer is read in place. */
  lemma InPlace(b: seq<byte>, pos: nat, v: Value, next: nat)
    requires pos < |b| && !IsPointer(b, pos) && ExactInline(b, pos, v, next)
    ensures Exact(b, pos, v, next)
  {
    forall rest: seq<byte>, fuel: nat, strict: bool | fuel >= Depth(v) ensures Result(Read(b + rest, pos, fuel, strict), v, next) {
      assert (b + rest)[pos] == b[pos];
      assert Result(ReadInline(b + rest, pos, fuel, strict), v, next);
    }
  }

  // ---- sequences ----------------------------------------------------------

  lemma SeqCons(b: seq<byte>, pos: nat, x: Value, mid: nat, xs: seq<Value>, next: nat)
    requires Exact(b, pos, x, mid) && ExactSeq(b, mid, xs, next)
    ensures ExactSeq(b, pos, [x] + xs, next)
  {
    var ys := [x] + xs;
    assert ys[0] == x && ys[1..] == xs;
    forall rest: seq<byte>, fuel: nat, strict: bool | fuel >= DepthSeq(ys)
      ensures SeqResult(ReadSeq(b + rest, pos, |ys|, fuel, strict), ys, next)
    {
      var r := Read(b + rest, pos, fuel, strict);
      assert Result(r, x, mid);
      assert SeqResult(ReadSeq(b + rest, mid, |xs|, fuel, strict), xs, next);
      var all := ReadSeq(b + rest, pos, |ys|, fuel, strict);
      if all.Some? {
        assert all.value.values[0] == r.value.value;
        assert all.value.values[1..] == ReadSeq(b + rest, r.value.next, |xs|, fuel, strict).value.values;
      }
    }
  }

  lemma FieldsCons(b: seq<byte>, pos: nat, f: Field, p1: nat, p2: nat, fs: seq<Field>, next: nat)
    requires Exact(b, pos, Str(f.key), p1) && Exact(b, p1, f.value, p2) && ExactFields(b, p2, fs, next)
    ensures ExactFields(b, pos, [f] + fs, next)
  {
    var gs := [f] + fs;
    assert gs[0] == f && gs[1..] == fs;
    forall rest: seq<byte>, fuel: nat, strict: bool | fuel >= DepthFields(gs)
      ensures FieldsResult(ReadFields(b + rest, pos, |gs|, fuel, strict), gs, next)
    {
      var d := b + rest;
      assert Result(Read(d, pos, fuel, strict), Str(f.key), p1);
      assert Result(Read(d, p1, fuel, strict), f.value, p2);
      assert FieldsResult(ReadFields(d, p2, |fs|, fuel, strict), fs, next);
      FieldsStep(d, pos, f, p1, p2, fs, next, fuel, strict);
    }
  }

  lemma FieldsStep(d: seq<byte>, pos: nat, f: Field, p1: nat, p2: nat, fs: seq<Field>, next: nat, fuel: nat, strict: bool)
    requires Result(Read(d, pos, fuel, strict), Str(f.key), p1)
    requires Result(Read(d, p1, fuel, strict), f.value, p2)
    requires FieldsResult(ReadFields(d, p2, |fs|, fuel, strict), fs, next)
    ensures FieldsResult(ReadFields(d, pos, |fs| + 1, fuel, strict), [f] + fs, next)
  {
    var gs := [f] + fs;
    assert gs[0] == f && gs[1..] == fs;
    var all := ReadFields(d, pos, |fs| + 1, fuel, strict);
    if all.Some? {
      var k := Read(d, pos, fuel, strict).value;
      var x := Read(d, k.next, fuel, strict).value;
      assert all.value.fields[0] == Field(k.value.text, x.value);
      assert all.value.fields[1..] == ReadFields(d, x.next, |fs|, fuel, strict).value.fields;
    }
  }

  lemma {:induction false} ReadSeqLength(d: seq<byte>, pos: nat, n: nat, fuel: nat, strict: bool)
    ensures ReadSeq(d, pos, n, fuel, strict).Some? ==> |ReadSeq(d, pos, n, fuel, strict).value.values| == n
    decreases n
  {
    if n > 0 && Read(d, pos, fuel, strict).Some? { ReadSeqLength(d, Read(d, pos, fuel, strict).value.next, n - 1, fuel, strict); }
  }

  lemma {:induction false} ReadFieldsLength(d: seq<byte>, pos: nat, n: nat, fuel: nat, strict: bool)
    ensures ReadFields(d, pos, n, fuel, strict).Some? ==> |ReadFields(d, pos, n, fuel, strict).value.fields| == n
    decreases n
  {
    if n > 0 && Read(d, pos, fuel, strict).Some? {
      var k := Read(d, pos, fuel, strict).value;
      if Read(d, k.next, fuel, strict).Some? { ReadFieldsLength(d, Read(d, k.next, fuel, strict).value.next, n - 1, fuel, strict); }
    }
  }

  /** What kind of value a head announces is what is read. */
  lemma InlineKind(d: seq<byte>, pos: nat, fuel: nat, strict: bool, h: Head)
    requires ReadHead(d, pos) == Some(h) && ReadInline(d, pos, fuel, strict).Some?
    ensures ReadInline(d, pos, fuel, strict).value.value.Arr? <==> h.kind == 11
    ensures ReadInline(d, pos, fuel, strict).value.value.Map? <==> h.kind == 7
  {
  }

  lemma InlineArr(d: seq<byte>, pos: nat, fuel: nat, strict: bool, h: Head, r: Option<Items>)
    requires ReadHead(d, pos) == Some(h) && h.kind == 11 && fuel > 0 && r == ReadSeq(d, h.next, h.size, fuel - 1, strict)
    ensures ReadInline(d, pos, fuel, strict) == if r.None? then None else Some(Item(Arr(r.value.values), r.value.next))
  {
  }

  lemma InlineMap(d: seq<byte>, pos: nat, fuel: nat, strict: bool, h: Head, r: Option<FieldItems>)
    requires ReadHead(d, pos) == Some(h) && h.kind == 7 && fuel > 0 && r == ReadFields(d, h.next, h.size, fuel - 1, strict)
    ensures ReadInline(d, pos, fuel, strict) == if r.None? then None else Some(Item(Map(r.value.fields), r.value.next))
  {
  }

  lemma ArrOne(d: seq<byte>, pos: nat, xs: seq<Value>, p: nat, next: nat, fuel: nat, strict: bool)
    requires HeadFound(d, pos, 11, |xs|, p) && fuel > 0
    requires SeqResult(ReadSeq(d, p, |xs|, fuel - 1, strict), xs, next)
    ensures Result(ReadInline(d, pos, fuel, strict), Arr(xs), next)
  {
    var h := ReadHead(d, pos).value;
    if h.kind == 11 {
      InlineArr(d, pos, fuel, strict, h, ReadSeq(d, p, h.size, fuel - 1, strict));
      ReadSeqLength(d, p, h.size, fuel - 1, strict);
    } else if ReadInline(d, pos, fuel, strict).Some? {
      InlineKind(d, pos, fuel, strict, h);
    }
  }

  lemma ArrInline(b: seq<byte>, pos: nat, first: seq<byte>, xs: seq<Value>, next: nat)
    requires Heads(first, 11, |xs|) && Holds(b, pos, first)
    requires ExactSeq(b, pos + |first|, xs, next)
    ensures ExactInline(b, pos, Arr(xs), next)
  {
    forall rest: seq<byte>, fuel: nat, strict: bool | fuel >= Depth(Arr(xs))
      ensures Result(ReadInline(b + rest, pos, fuel, strict), Arr(xs), next)
    {
      assert Holds(b + rest, pos, first);
      ArrOne(b + rest, pos, xs, pos + |first|, next, fuel, strict);
    }
  }

  lemma MapOne(d: seq<byte>, pos: nat, fs: seq<Field>, p: nat, next: nat, fuel: nat, strict: bool)
    requires HeadFound(d, pos, 7, |fs|, p) && fuel > 0
    requires FieldsResult(ReadFields(d, p, |fs|, fuel - 1, strict), fs, next)
    ensures Result(ReadInline(d, pos, fuel, strict), Map(fs), next)
  {
    var h := ReadHead(d, pos).value;
    InlineMap(d, pos, fuel, strict, h, ReadFields(d, p, h.size, fuel - 1, strict));
    ReadFieldsLength(d, p, h.size, fuel - 1, strict);
  }

  lemma MapInline(b: seq<byte>, pos: nat, first: seq<byte>, fs: seq<Field>, next: nat)
    requires Heads(first, 7, |fs|) && Holds(b, pos, first)
    requires ExactFields(b, pos + |first|, fs, next)
    ensures ExactInline(b, pos, Map(fs), next)
  {
    forall rest: seq<byte>, fuel: nat, strict: bool | fuel >= Depth(Map(fs))
      ensures Result(ReadInline(b + rest, pos, fuel, strict), Map(fs), next)
    {
      assert Holds(b + rest, pos, first);
      MapOne(b + rest, pos, fs, pos + |first|, next, fuel, strict);
    }
  }

  // ---- sections -----------------------------------------------------------

  /** A remembered value: its offset is not a pointer, and it is what reads there. */
  ghost predicate Known(st: Section, w: Value) {
    && w in st.emitted
    && Remembered(w)
    && st.emitted[w] < |st.bytes|
    && !IsPointer(st.bytes, st.emitted[w])
    && exists next :: ExactInline(st.bytes, st.emitted[w], w, next)
  }

  ghost predicate KnownUpTo(st: Section, n: nat) {
    forall w | w in st.emitted && Size(w) <= n :: Known(st, w)
  }

  /** Only new bytes and new remembered values, all of them known. */
  ghost predicate Extends(st: Section, st': Section, n: nat) {
    && st.bytes <= st'.bytes
    && (forall w | w in st.emitted :: w in st'.emitted && st'.emitted[w] == st.emitted[w])
    && (forall w | w in st'.emitted && w !in st.emitted :: Size(w) <= n && Known(st', w))
  }

  lemma KnownStays(st: Section, st': Section, w: Value)
    requires Known(st, w) && st.bytes <= st'.bytes && w in st'.emitted && st'.emitted[w] == st.emitted[w]
    ensures Known(st', w)
  {
    var next :| ExactInline(st.bytes, st.emitted[w], w, next);
    ExtendInline(st.bytes, st'.bytes, st.emitted[w], w, next);
  }

  lemma ExtendsTrans(st: Section, st1: Section, st2: Section, n1: nat, n2: nat, n: nat)
    requires Extends(st, st1, n1) && Extends(st1, st2, n2) && n1 <= n && n2 <= n
    ensures Extends(st, st2, n)
  {
    forall w | w in st2.emitted && w !in st.emitted ensures Size(w) <= n && Known(st2, w) {
      if w in st1.emitted { KnownStays(st1, st2, w); }
    }
  }

  lemma KnownAfter(st: Section, st': Section, n: nat, m: nat)
    requires KnownUpTo(st, m) && Extends(st, st', n)
    ensures KnownUpTo(st', m)
  {
    forall w | w in st'.emitted && Size(w) <= m ensures Known(st', w) {
      if w in st.emitted { KnownStays(st, st', w); }
    }
  }

  lemma {:induction false} EmitGrows(st: Section, v: Value)
    ensures st.bytes <= Emit(st, v).bytes
    decreases v
  {
    if v !in st.emitted {
      if v.Map? { EmitFieldsGrows(Begin(st, v, Header(7, |v.fields|)), v.fields); }
      else if v.Arr? { EmitSeqGrows(Begin(st, v, Header(11, |v.elems|)), v.elems); }
    }
  }

  lemma {:induction false} EmitSeqGrows(st: Section, xs: seq<Value>)
    ensures st.bytes <= EmitSeq(st, xs).bytes
    decreases xs
  {
    if xs != [] {
      EmitGrows(st, xs[0]);
      EmitSeqGrows(Emit(st, xs[0]), xs[1..]);
    }
  }

  lemma {:induction false} EmitFieldsGrows(st: Section, fs: seq<Field>)
    ensures st.bytes <= EmitFields(st, fs).bytes
    decreases fs
  {
    if fs != [] {
      var st1 := EmitKey(st, fs[0].key);
      EmitGrows(st1, fs[0].value);
      EmitFieldsGrows(Emit(st1, fs[0].value), fs[1..]);
    }
  }

  /** The pointer to a known value is read as such. */
  lemma PointerIsRead(st: Section, v: Value, ptr: seq<byte>, rest: seq<byte>)
    requires Known(st, v) && Points(ptr, st.emitted[v])
    ensures var d := st.bytes + ptr + rest;
      && IsPointer(d, |st.bytes|)
      && ReadPointer(d, |st.bytes|) == Some(Target(st.emitted[v], |st.bytes + ptr|))
      && st.emitted[v] < |st.bytes| && !IsPointer(d, st.emitted[v])
  {
    var d := st.bytes + ptr + rest;
    assert Holds(d, |st.bytes|, ptr);
    assert d[st.emitted[v]] == st.bytes[st.emitted[v]];
  }

  lemma PointerExact(st: Section, v: Value, ptr: seq<byte>, b: seq<byte>)
    requires Known(st, v) && Points(ptr, st.emitted[v]) && b == st.bytes + ptr
    ensures Exact(b, |st.bytes|, v, |b|)
  {
    var o, pos := st.emitted[v], |st.bytes|;
    var end :| ExactInline(st.bytes, o, v, end);
    ExtendInline(st.bytes, b, o, v, end);
    forall rest: seq<byte>, fuel: nat, strict: bool | fuel >= Depth(v) ensures Result(Read(b + rest, pos, fuel, strict), v, |b|) {
      PointerIsRead(st, v, ptr, rest);
      ReadThrough(b + rest, pos, o, |b|, fuel, strict, v, end);
    }
  }

  lemma ReadThrough(d: seq<byte>, pos: nat, o: nat, next: nat, fuel: nat, strict: bool, v: Value, end: nat)
    requires IsPointer(d, pos) && ReadPointer(d, pos) == Some(Target(o, next))
    requires o < pos && o < |d| && !IsPointer(d, o) && Result(ReadInline(d, o, fuel, strict), v, end)
    ensures Result(Read(d, pos, fuel, strict), v, next)
  {
  }

  lemma NullNeverReads(b: seq<byte>, pos: nat, next: nat)
    ensures Exact(b, pos, Null, next)
  {
  }

  /** The state after starting a value that is not remembered yet. */
  lemma BeginKnown(st: Section, v: Value, first: seq<byte>, m: nat)
    requires v !in st.emitted && KnownUpTo(st, m) && m < Size(v)
    ensures KnownUpTo(Begin(st, v, first), m)
  {
    var st' := Begin(st, v, first);
    forall w | w in st'.emitted && Size(w) <= m ensures Known(st', w) {
      KnownStays(st, st', w);
    }
  }

  /** When the value started at |st.bytes| has been completed. */
  lemma Complete(st: Section, v: Value, first: seq<byte>, st': Section, m: nat)
    requires v !in st.emitted && Remembered(v) && first != []
    requires |st.bytes| < TWO32 && m <= Size(v)
    requires Extends(Begin(st, v, first), st', m)
    requires !IsPointer(st'.bytes, |st.bytes|)
    requires ExactInline(st'.bytes, |st.bytes|, v, |st'.bytes|)
    ensures Extends(st, st', Size(v))
    ensures Exact(st'.bytes, |st.bytes|, v, |st'.bytes|)
  {
    InPlace(st'.bytes, |st.bytes|, v, |st'.bytes|);
    var st0 := Begin(st, v, first);
    assert Known(st', v);
    forall w | w in st'.emitted && w !in st.emitted ensures Size(w) <= Size(v) && Known(st', w) {
      if w != v { assert w !in st0.emitted; }
    }
  }

  /** Serializing any value keeps what is known and writes it exactly as far as the format allows. */
  lemma {:induction false} EmitExact(st: Section, v: Value)
    requires KnownUpTo(st, Size(v)) && |Emit(st, v).bytes| <= TWO32
    ensures Extends(st, Emit(st, v), Size(v))
    ensures Exact(Emit(st, v).bytes, |st.bytes|, v, |Emit(st, v).bytes|)
    decreases Size(v), 1
  {
    if v.Null? {
      NullNeverReads(st.bytes, |st.bytes|, |st.bytes|);
    } else if v in st.emitted {
      PointerPoints(st.emitted[v]);
      PointerExact(st, v, Pointer(st.emitted[v]), Emit(st, v).bytes);
    } else if v.Map? {
      HeaderHeads(7, |v.fields|);
      EmitMapExact(st, v.fields, Header(7, |v.fields|), Emit(st, v));
    } else if v.Arr? {
      HeaderHeads(11, |v.elems|);
      EmitArrExact(st, v.elems, Header(11, |v.elems|), Emit(st, v));
    } else {
      HeaderHeads(Kind(v), SizeOf(v));
      EmitScalarExact(st, v, Header(Kind(v), SizeOf(v)), Emit(st, v));
    }
  }

  lemma EmitScalarExact(st: Section, v: Value, first: seq<byte>, st': Section)
    requires IsScalar(v) && v !in st.emitted && Heads(first, Kind(v), SizeOf(v))
    requires st' == Begin(st, v, first + Payload(v)) && |st'.bytes| <= TWO32
    ensures Extends(st, st', Size(v))
    ensures Exact(st'.bytes, |st.bytes|, v, |st'.bytes|)
  {
    ScalarBlock(first, v, first + Payload(v));
    BlockExact(st.bytes, first + Payload(v), v, st'.bytes);
    InPlace(st'.bytes, |st.bytes|, v, |st'.bytes|);
    if Remembered(v) { Complete(st, v, first + Payload(v), st', Size(v)); }
  }

  lemma {:induction false} EmitArrExact(st: Section, xs: seq<Value>, first: seq<byte>, st': Section)
    requires Arr(xs) !in st.emitted && KnownUpTo(st, 1 + SizeSeq(xs)) && Heads(first, 11, |xs|)
    requires st' == EmitSeq(Begin(st, Arr(xs), first), xs) && |st'.bytes| <= TWO32
    ensures Extends(st, st', Size(Arr(xs)))
    ensures Exact(st'.bytes, |st.bytes|, Arr(xs), |st'.bytes|)
    decreases SizeSeq(xs) + 1, 0
  {
    var v := Arr(xs);
    BeginKnown(st, v, first, SizeSeq(xs));
    EmitSeqExact(Begin(st, v, first), xs);
    FinishArr(st, xs, first, st');
  }

  lemma FinishArr(st: Section, xs: seq<Value>, first: seq<byte>, st': Section)
    requires Arr(xs) !in st.emitted && Heads(first, 11, |xs|) && |st'.bytes| <= TWO32
    requires Extends(Begin(st, Arr(xs), first), st', SizeSeq(xs))
    requires ExactSeq(st'.bytes, |st.bytes + first|, xs, |st'.bytes|)
    ensures Extends(st, st', Size(Arr(xs)))
    ensures Exact(st'.bytes, |st.bytes|, Arr(xs), |st'.bytes|)
  {
    ArrStands(st.bytes, first, xs, st'.bytes);
    Complete(st, Arr(xs), first, st', SizeSeq(xs));
  }

  lemma FinishMap(st: Section, fs: seq<Field>, first: seq<byte>, st': Section)
    requires Map(fs) !in st.emitted && Heads(first, 7, |fs|) && |st'.bytes| <= TWO32
    requires Extends(Begin(st, Map(fs), first), st', SizeFields(fs))
    requires ExactFields(st'.bytes, |st.bytes + first|, fs, |st'.bytes|)
    ensures Extends(st, st', Size(Map(fs)))
    ensures Exact(st'.bytes, |st.bytes|, Map(fs), |st'.bytes|)
  {
    MapStands(st.bytes, first, fs, st'.bytes);
    Complete(st, Map(fs), first, st', SizeFields(fs));
  }

  lemma MapStands(b: seq<byte>, first: seq<byte>, fs: seq<Field>, b': seq<byte>)
    requires b + first <= b' && Heads(first, 7, |fs|) && ExactFields(b', |b + first|, fs, |b'|)
    ensures ExactInline(b', |b|, Map(fs), |b'|) && !IsPointer(b', |b|)
  {
    HoldsAppended(b, first, b');
    MapInline(b', |b|, first, fs, |b'|);
  }

  lemma ArrStands(b: seq<byte>, first: seq<byte>, xs: seq<Value>, b': seq<byte>)
    requires b + first <= b' && Heads(first, 11, |xs|) && ExactSeq(b', |b + first|, xs, |b'|)
    ensures ExactInline(b', |b|, Arr(xs), |b'|) && !IsPointer(b', |b|)
  {
    HoldsAppended(b, first, b');
    ArrInline(b', |b|, first, xs, |b'|);
  }

  lemma {:induction false} EmitMapExact(st: Section, fs: seq<Field>, first: seq<byte>, st': Section)
    requires Map(fs) !in st.emitted && KnownUpTo(st, 1 + SizeFields(fs)) && Heads(first, 7, |fs|)
    requires st' == EmitFields(Begin(st, Map(fs), first), fs) && |st'.bytes| <= TWO32
    ensures Extends(st, st', Size(Map(fs)))
    ensures Exact(st'.bytes, |st.bytes|, Map(fs), |st'.bytes|)
    decreases SizeFields(fs) + 1, 0
  {
    var v := Map(fs);
    BeginKnown(st, v, first, SizeFields(fs));
    EmitFieldsExact(Begin(st, v, first), fs);
    FinishMap(st, fs, first, st');
  }

  lemma {:induction false} EmitSeqExact(st: Section, xs: seq<Value>)
    requires KnownUpTo(st, SizeSeq(xs)) && |EmitSeq(st, xs).bytes| <= TWO32
    ensures Extends(st, EmitSeq(st, xs), SizeSeq(xs))
    ensures ExactSeq(EmitSeq(st, xs).bytes, |st.bytes|, xs, |EmitSeq(st, xs).bytes|)
    decreases SizeSeq(xs), 2, |xs|
  {
    if xs != [] {
      var st1, st2 := Emit(st, xs[0]), EmitSeq(st, xs);
      EmitSeqGrows(st1, xs[1..]);
      EmitExact(st, xs[0]);
      KnownAfter(st, st1, Size(xs[0]), SizeSeq(xs[1..]));
      EmitSeqExact(st1, xs[1..]);
      ExtendsTrans(st, st1, st2, Size(xs[0]), SizeSeq(xs[1..]), SizeSeq(xs));
      ExtendExact(st1.bytes, st2.bytes, |st.bytes|, xs[0], |st1.bytes|);
      SeqCons(st2.bytes, |st.bytes|, xs[0], |st1.bytes|, xs[1..], |st2.bytes|);
      assert [xs[0]] + xs[1..] == xs;
    }
  }

  lemma {:induction false} EmitFieldsExact(st: Section, fs: seq<Field>)
    requires KnownUpTo(st, SizeFields(fs)) && |EmitFields(st, fs).bytes| <= TWO32
    ensures Extends(st, EmitFields(st, fs), SizeFields(fs))
    ensures ExactFields(EmitFields(st, fs).bytes, |st.bytes|, fs, |EmitFields(st, fs).bytes|)
    decreases SizeFields(fs), 2, |fs|
  {
    if fs != [] {
      var key, x := Str(fs[0].key), fs[0].value;
      var st1 := EmitKey(st, fs[0].key);
      var st2, st3 := Emit(st1, x), EmitFields(st, fs);
      var n := SizeFields(fs);
      assert st1 == Emit(st, key);
      EmitGrows(st1, x);
      EmitFieldsGrows(st2, fs[1..]);
      EmitExact(st, key);
      KnownAfter(st, st1, 1, n);
      EmitExact(st1, x);
      KnownAfter(st1, st2, Size(x), n);
      EmitFieldsExact(st2, fs[1..]);
      ExtendsTrans(st, st1, st2, 1, Size(x), n);
      ExtendsTrans(st, st2, st3, n, SizeFields(fs[1..]), n);
      ExtendExact(st1.bytes, st3.bytes, |st.bytes|, key, |st1.bytes|);
      ExtendExact(st2.bytes, st3.bytes, |st1.bytes|, x, |st2.bytes|);
      FieldsCons(st3.bytes, |st.bytes|, fs[0], |st1.bytes|, |st2.bytes|, fs[1..], |st3.bytes|);
      assert [fs[0]] + fs[1..] == fs;
    }
  }
}
