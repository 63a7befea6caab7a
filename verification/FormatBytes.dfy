/** The database file byte by byte: control bytes, sizes, pointers, nodes, and whole small files. */
module FormatBytes {
  import opened Bytes
  import opened ContentOrder
  import opened Trie
  import opened DataFormat
  import opened DataSection
  import opened SearchTree
  import opened Database

  // ---------- values ----------

  /** The type in the upper three bits of the first byte, the size in the lower five; or the type in a byte of its own. */
  lemma ShortHeader(size: nat)
    requires size < 29
    ensures Header(2, size) == [0x40 + size] && Header(4, size) == [0x80 + size]
    ensures Header(5, size) == [0xA0 + size] && Header(6, size) == [0xC0 + size] && Header(7, size) == [0xE0 + size]
    ensures Header(8, size) == [size, 1] && Header(9, size) == [size, 2] && Header(11, size) == [size, 4]
    ensures Header(14, size) == [size, 7]
  {
  }

  /** Short texts and blobs, and booleans. */
  lemma ShortBytes(s: seq<byte>, b: bool)
    requires |s| < 29
    ensures ScalarBytes(Str(s)) == [0x40 + |s|] + s && ScalarBytes(Blob(s)) == [0x80 + |s|] + s
    ensures ScalarBytes(Bool(b)) == [if b then 1 else 0, 7]
  {
    ShortHeader(|s|);
    ShortHeader(0);
    ShortHeader(1);
  }

  lemma TwoDigits(n: nat, a: byte, b: byte)
    requires n == 256 * a + b
    ensures n / 256 == a && n % 256 == b
  {
  }

  lemma ThreeDigits(n: nat, a: byte, b: byte, c: byte)
    requires n == 65536 * a + 256 * b + c
    ensures n / 65536 == a && n / 256 % 256 == b && n % 256 == c
  {
    var high: nat := 256 * a + b;
    assert n / 256 == high;
  }

  /** Longer texts: one, two or three more bytes for the size. */
  lemma LongHeader(size: nat, a: byte, b: byte, c: byte)
    ensures 29 <= size < 285 ==> Header(2, size) == [0x5D, size - 29]
    ensures size == 285 + 256 * a + b ==> Header(2, size) == [0x5E, a, b]
    ensures size == 65821 + 65536 * a + 256 * b + c ==> Header(2, size) == [0x5F, a, b, c]
  {
    if size == 285 + 256 * a + b {
      TwoDigits(size - 285, a, b);
    }
    if size == 65821 + 65536 * a + 256 * b + c {
      ThreeDigits(size - 65821, a, b, c);
    }
  }

  lemma LongTextBytes(s: seq<byte>, a: byte, b: byte, c: byte)
    ensures 29 <= |s| < 285 ==> ScalarBytes(Str(s)) == [0x5D, |s| - 29] + s
    ensures |s| == 285 + 256 * a + b ==> ScalarBytes(Str(s)) == [0x5E, a, b] + s
    ensures |s| == 65821 + 65536 * a + 256 * b + c ==> ScalarBytes(Str(s)) == [0x5F, a, b, c] + s
  {
    LongHeader(|s|, a, b, c);
    assert ScalarBytes(Str(s)) == Header(2, |s|) + s;
  }

  lemma {:induction false} MinimalBytes(s: seq<byte>)
    requires s != [] ==> s[0] != 0
    ensures UintBytes(BigEndian(s)) == s && (s != [] ==> BigEndian(s) > 0)
  {
    if s != [] {
      var init := s[..|s| - 1];
      MinimalBytes(init);
      assert init != [] ==> init[0] == s[0];
      assert s == init + [s[|s| - 1]];
    }
  }

  /** Unsigned numbers: as few bytes as the number needs, most significant first. */
  lemma NumberBytes(n: nat, s: seq<byte>)
    requires BigEndian(s) == n && (s != [] ==> s[0] != 0)
    ensures n < 0x1_0000 ==> |s| <= 2 && ScalarBytes(U16(n)) == [0xA0 + |s|] + s
    ensures n < 0x1_0000_0000 ==> |s| <= 4 && ScalarBytes(U32(n)) == [0xC0 + |s|] + s
    ensures n < 0x1_0000_0000_0000_0000 ==> |s| <= 8 && ScalarBytes(U64(n)) == [|s|, 2] + s
  {
    MinimalBytes(s);
    UintBytesFit(n);
    if |s| < 29 {
      ShortHeader(|s|);
      NumberParts(n, s);
    }
  }

  lemma NumberParts(n: nat, s: seq<byte>)
    requires UintBytes(n) == s
    ensures n < 0x1_0000 ==> ScalarBytes(U16(n)) == Header(5, |s|) + s
    ensures n < 0x1_0000_0000 ==> ScalarBytes(U32(n)) == Header(6, |s|) + s
    ensures n < 0x1_0000_0000_0000_0000 ==> ScalarBytes(U64(n)) == Header(9, |s|) + s
  {
  }

  lemma FourDigits(n: nat, a: byte, b: byte, c: byte, d: byte)
    requires n == 16777216 * a + 65536 * b + 256 * c + d
    ensures n / 16777216 == a && n / 65536 % 256 == b && n / 256 % 256 == c && n % 256 == d
  {
    var high: nat := 65536 * a + 256 * b + c;
    assert n / 256 == high;
    ThreeDigits(high, a, b, c);
    assert n / 65536 == high / 256 && n / 16777216 == high / 65536;
  }

  /** Signed numbers: four bytes, in two's complement. */
  lemma SignedBytes(i: i32, a: byte, b: byte, c: byte, d: byte)
    requires 16777216 * a + 65536 * b + 256 * c + d == if i < 0 then i + 0x1_0000_0000 else i
    ensures ScalarBytes(I32(i)) == [4, 1] + [a, b, c, d]
  {
    ShortHeader(4);
    FourDigits(if i < 0 then i + 0x1_0000_0000 else i, a, b, c, d);
    assert IntBytes(i) == [a, b, c, d];
  }

  /** The four forms of a pointer, at the first and the last offset of each. */
  lemma PointerBytes()
    ensures Pointer(0) == [0x20, 0x00] && Pointer(2047) == [0x27, 0xFF]
    ensures Pointer(2048) == [0x28, 0x00, 0x00] && Pointer(526335) == [0x2F, 0xFF, 0xFF]
    ensures Pointer(526336) == [0x30, 0x00, 0x00, 0x00] && Pointer(134744063) == [0x37, 0xFF, 0xFF, 0xFF]
    ensures Pointer(134744064) == [0x38, 0x08, 0x08, 0x08, 0x00]
    ensures Pointer(0xFFFF_FFFF) == [0x38, 0xFF, 0xFF, 0xFF, 0xFF]
  {
  }

  // ---------- nodes ----------

  /** Each record has three bytes of its own and half of the middle byte, the left record the upper half. */
  lemma NodeBytes(left: nat, right: nat, h: nat, a: byte, b: byte, c: byte, k: nat, d: byte, e: byte, f: byte)
    requires h < 16 && k < 16 && left == 16777216 * h + 65536 * a + 256 * b + c
    requires right == 16777216 * k + 65536 * d + 256 * e + f
    ensures PackNode(left, right) == [a, b, c, 16 * h + k, d, e, f]
  {
    FourDigits(left, h, a, b, c);
    FourDigits(right, k, d, e, f);
  }

  // ---------- whole files ----------

  lemma OneElem(st: Section, x: Value)
    ensures EmitSeq(st, [x]) == Emit(st, x)
  {
    assert [x][1..] == [];
  }

  lemma OneField(st: Section, f: Field)
    ensures EmitFields(st, [f]) == Emit(EmitKey(st, f.key), f.value)
  {
    assert [f][1..] == [];
  }

  /** A text is written out the first time, and pointed to afterwards; keys are texts. */
  lemma TextWritten(st: Section, s: seq<byte>)
    requires |s| < 29 && |st.bytes| < 2048
    ensures EmitKey(st, s) == Emit(st, Str(s))
    ensures Emit(st, Str(s)) ==
      if Str(s) in st.emitted then Section(st.bytes + Pointer(st.emitted[Str(s)]), st.emitted)
      else Section(st.bytes + ([0x40 + |s|] + s), st.emitted[Str(s) := |st.bytes|])
  {
    ShortBytes(s, true);
  }

  lemma ArrayWritten(st: Section, x: Value)
    requires Arr([x]) !in st.emitted && |st.bytes| < 2048
    ensures Emit(st, Arr([x])) == Emit(Section(st.bytes + [0x01, 0x04], st.emitted[Arr([x]) := |st.bytes|]), x)
  {
    ShortHeader(1);
    var begun := Begin(st, Arr([x]), [0x01, 0x04]);
    assert begun == Section(st.bytes + [0x01, 0x04], st.emitted[Arr([x]) := |st.bytes|]);
    assert Emit(st, Arr([x])) == EmitSeq(begun, [x]);
    OneElem(begun, x);
  }

  lemma MapWritten(f: Field)
    ensures Emit(Section([0], map[]), Map([f])) == Emit(EmitKey(Section([0, 0xE1], map[Map([f]) := 1]), f.key), f.value)
  {
    ShortHeader(1);
    assert [0] + [0xE1] == [0, 0xE1];
    OneField(Section([0, 0xE1], map[Map([f]) := 1]), f);
  }

  /** A record of one column with one text: map, key, array, text; a text equal to the key is a pointer to it. */
  lemma RecordBytes(key: Key, text: seq<byte>)
    requires |key| < 29 && |text| < 29
    ensures
      var st := Emit(Section([0], map[]), Map([Field(key, Arr([Str(text)]))]));
      st.bytes == [0, 0xE1] + ([0x40 + |key|] + key) + [0x01, 0x04]
                  + if text == key then [0x20, 0x02] else [0x40 + |text|] + text
  {
    var f := Field(key, Arr([Str(text)]));
    var st0 := Section([0, 0xE1], map[Map([f]) := 1]);
    MapWritten(f);
    TextWritten(st0, key);
    var st1 := Section([0, 0xE1] + ([0x40 + |key|] + key), map[Map([f]) := 1, Str(key) := 2]);
    assert EmitKey(st0, key) == st1;
    ArrayWritten(st1, Str(text));
    TextWritten(Section(st1.bytes + [0x01, 0x04], st1.emitted[f.value := |st1.bytes|]), text);
  }

  lemma OneRecord(v: Value, st: Section)
    requires !v.Null? && Emit(Section([0], map[]), v) == st
    ensures EmitRecords([v]) == Layout(st, map[v := 1])
  {
    assert [v][..0] == [];
    assert EmitRecords([]) == Layout(Section([0], map[]), map[]);
    assert map[][v := 1] == map[v := 1];
  }

  lemma OneNode(left: nat, right: nat)
    ensures PackNodes([(left, right)]) == PackNode(left, right)
  {
    assert [(left, right)][..0] == [];
  }

  lemma HalfSpaceTree(sortKey: Key, v: Value)
    requires !v.Null?
    ensures BuiltTree(sortKey, [Network([true], v)]) == Fork(Absent, Leaf(v))
  {
    var ns := [Network([true], v)];
    assert ns[..0] == [];
    assert [true][1..] == [];
    assert Insert(sortKey, Absent, [], v) == Leaf(v);
    assert InsertAll(sortKey, []) == Leaf(Null);
    assert InsertAll(sortKey, ns) == Insert(sortKey, Leaf(Null), [true], v) == Fork(Absent, Leaf(v));
    assert Prune(Leaf(v)) == Leaf(v) && Prune(Absent) == Absent;
    assert Prune(Fork(Absent, Leaf(v))) == Fork(Absent, Leaf(v));
  }

  lemma HalfSpaceLeaves(v: Value)
    requires !v.Null?
    ensures SortDedup(LeafRecords(Fork(Absent, Leaf(v)))) == [v]
    ensures NodeRecords(Fork(Absent, Leaf(v)), 0, 1, map[v := 1]) == [(1, 18)]
  {
    assert LeafRecords(Fork(Absent, Leaf(v))) == [v];
    assert [v][1..] == [];
  }

  /** The smallest database: one text for the upper half of all addresses. */
  lemma HalfSpaceFile(sortKey: Key, s: seq<byte>)
    requires |s| < 29
    ensures Image(BuiltTree(sortKey, [Network([true], Str(s))]))
         == [0, 0, 1, 0, 0, 0, 18] + [0, 0, 0, 0, 0, 0, 0, 0, 0, 0, 0, 0, 0, 0, 0, 0] + ([0] + ([0x40 + |s|] + s))
  {
    HalfSpaceTree(sortKey, Str(s));
    HalfSpaceLeaves(Str(s));
    TextWritten(Section([0], map[]), s);
    OneRecord(Str(s), Emit(Section([0], map[]), Str(s)));
    NodeBytes(1, 18, 0, 0, 0, 1, 0, 0, 0, 18);
    OneNode(1, 18);
  }
}
