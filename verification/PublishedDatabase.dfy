/** From blocklist text to answers: what a published database says about every address. */
module PublishedDatabase {
  import opened Bytes
  import opened ContentOrder
  import opened RecordMerge
  import opened RowCount
  import opened Trie
  import opened TrieShape
  import opened DataFormat
  import opened DataSection
  import opened SearchTree
  import opened Database
  import opened BuilderModel
  import opened Blocklist
  import opened Compile

  datatype Source = Source(name: string, content: string)

  const SORT_KEY: Key := Ascii("file_name")

  /** The batches of each file are those of reading its text. */
  ghost predicate ReadFrom(syntax: Syntax, sources: seq<Source>, files: seq<File>) {
    |files| == |sources| && forall f | 0 <= f < |files| :: ReadFromOne(syntax, sources[f], files[f])
  }

  ghost predicate ReadFromOne(syntax: Syntax, source: Source, file: File) {
    var reading := ReadFile(syntax, source.name, source.content);
    file.parses == reading.ok && NetworksOf(file) == Blocklist.Inserted(reading)
  }

  /** A network of a file: its prefix fits an address and its record is a one-row record. */
  ghost predicate FileNetwork(n: Network) {
    |n.prefix| <= WIDTH && Single(RecordKeys(), n.record)
  }

  ghost predicate FileNetworks(ns: seq<Network>) {
    forall n | n in ns :: FileNetwork(n)
  }

  lemma {:induction false} LinesGive(syntax: Syntax, file: string, lines: seq<Line>, md: Metadata)
    ensures FileNetworks(ReadLines(syntax, RecorderOf(file), lines, md).networks)
  {
    if lines != [] {
      match lines[0]
      case Blank => LinesGive(syntax, file, lines[1..], md);
      case Comment(key, value) =>
        var next := Annotate(syntax, md, key, value);
        if next.Some? {
          LinesGive(syntax, file, lines[1..], next.value);
        }
      case Entry(text) =>
        LinesGive(syntax, file, lines[1..], md);
        RecordIsColumnar(file, md);
    }
  }

  lemma {:induction false} AllAreFileNetworks(syntax: Syntax, sources: seq<Source>, files: seq<File>)
    requires ReadFrom(syntax, sources, files)
    ensures FileNetworks(AllNetworks(files))
  {
    if files != [] {
      var k := |files| - 1;
      AllAreFileNetworks(syntax, sources[..k], files[..k]);
      assert ReadFromOne(syntax, sources[k], files[k]);
      LinesGive(syntax, sources[k].name, LinesOf(sources[k].content), NO_METADATA);
    }
  }

  /** The records of the networks covering an address, and their merge. */
  function Records(files: seq<File>, addr: Bits): seq<Value> {
    Covering(AllNetworks(files), addr)
  }

  function Verdict(files: seq<File>, addr: Bits): Value {
    FoldMerge(SORT_KEY, Records(files, addr))
  }

  lemma {:induction false} CoveringIsSingle(ns: seq<Network>, addr: Bits)
    requires FileNetworks(ns)
    ensures AllSingle(RecordKeys(), Covering(ns, addr))
  {
    if ns != [] {
      CoveringIsSingle(ns[..|ns| - 1], addr);
      assert FileNetwork(ns[|ns| - 1]);
    }
  }

  lemma FileNetworksAreColumnar(ns: seq<Network>)
    requires FileNetworks(ns)
    ensures ColumnarNetworks(RecordKeys(), ns) && PrefixesWithin(ns, WIDTH)
  {
    forall k | 0 <= k < |ns| ensures Record(RecordKeys(), ns[k].record) {
      assert FileNetwork(ns[k]);
    }
  }

  lemma PublishedBytes(syntax: Syntax, sources: seq<Source>, files: seq<File>, states: seq<State>, moves: seq<Move>, i: nat)
    requires ReadFrom(syntax, sources, files)
    requires Run(SORT_KEY, files, states, moves) && i < |states| && states[i].outcome.Published?
    ensures states[i].outcome.bytes == Image(BuiltTree(SORT_KEY, AllNetworks(files)))
    ensures forall f | 0 <= f < |files| :: files[f].parses
  {
    AllAreFileNetworks(syntax, sources, files);
    FileNetworksAreColumnar(AllNetworks(files));
    PublishedIsComplete(SORT_KEY, files, states, moves, i, RecordKeys());
  }

  /** If a database is published then every source could be read, and all its networks are in it. */
  lemma PublishedSourcesParse(syntax: Syntax, sources: seq<Source>, files: seq<File>, states: seq<State>, moves: seq<Move>,
                              i: nat, f: nat)
    requires ReadFrom(syntax, sources, files) && f < |sources|
    requires Run(SORT_KEY, files, states, moves) && i < |states| && states[i].outcome.Published?
    ensures ReadFile(syntax, sources[f].name, sources[f].content).ok
    ensures NetworksOf(files[f]) == ReadFile(syntax, sources[f].name, sources[f].content).networks
  {
    PublishedBytes(syntax, sources, files, states, moves, i);
    assert files[f].parses && ReadFromOne(syntax, sources[f], files[f]);
  }

  /** The rows of a verdict are exactly the rows of the covering records. */
  lemma VerdictIsUnion(syntax: Syntax, sources: seq<Source>, files: seq<File>, addr: Bits)
    requires ReadFrom(syntax, sources, files) && Records(files, addr) != []
    ensures Record(RecordKeys(), Verdict(files, addr)) && AllRecords(RecordKeys(), Records(files, addr))
    ensures Elems(Rows(SORT_KEY, Verdict(files, addr))) == AllRows(SORT_KEY, RecordKeys(), Records(files, addr))
  {
    AllAreFileNetworks(syntax, sources, files);
    CoveringIsSingle(AllNetworks(files), addr);
    AllRowsAreRowSet(SORT_KEY, RecordKeys(), Records(files, addr));
    MergeCounts(SORT_KEY, RecordKeys(), Records(files, addr));
  }

  // ---------- how many records an answer can list ----------

  lemma {:induction false} TextsEncodable(xs: seq<Value>)
    requires forall k | 0 <= k < |xs| :: ShortText(xs[k])
    ensures EncodableSeq(xs) && DepthSeq(xs) == 0
  {
    if xs != [] {
      TextsEncodable(xs[1..]);
    }
  }

  lemma {:induction false} ColumnsEncodable(fs: seq<Field>, rows: nat)
    requires forall k | 0 <= k < |fs| :: TextColumn(fs[k], rows)
    ensures EncodableFields(fs) <==> fs == [] || HeaderExact(11, rows)
    ensures DepthFields(fs) <= 1
  {
    if fs != [] {
      assert TextColumn(fs[0], rows);
      TextsEncodable(fs[0].value.elems);
      ColumnsEncodable(fs[1..], rows);
    }
  }

  predicate ShortText(v: Value) {
    v.Str? && |v.text| <= MAX_SIZE
  }

  predicate TextColumn(f: Field, rows: nat) {
    && |f.key| <= MAX_SIZE && f.value.Arr? && |f.value.elems| == rows
    && forall k | 0 <= k < rows :: ShortText(f.value.elems[k])
  }

  /** The numbers of rows at which the headers of the columns can be read. */
  predicate ReadableCount(rows: nat) {
    rows < 29 || rows == 33 || rows == 1313 || rows == 328993
  }

  /**
   A record of text columns reads back exactly for some numbers of rows: fewer than 29, or one of
   three sizes at which the misplaced type byte happens to spell itself.
   */
  lemma RowsDecideReadability(fs: seq<Field>, rows: nat)
    requires 0 < |fs| < 29 && forall k | 0 <= k < |fs| :: TextColumn(fs[k], rows)
    ensures Encodable(Map(fs)) <==> ReadableCount(rows)
    ensures Depth(Map(fs)) <= 2
  {
    ColumnsEncodable(fs, rows);
  }

  /** A one-row record whose texts the format can express. */
  ghost predicate ShortRecord(v: Value) {
    Single(RecordKeys(), v) && forall c | 0 <= c < |v.fields| :: ShortText(Column(v.fields[c])[0])
  }

  ghost predicate ShortRecords(vs: seq<Value>) {
    forall v | v in vs :: ShortRecord(v)
  }

  ghost predicate ShortRow(r: Value) {
    r.Arr? && forall j | 0 <= j < |r.elems| :: ShortText(r.elems[j])
  }

  lemma ShortRowOf(v: Value)
    requires ShortRecord(v)
    ensures ShortRow(RowOf(SORT_KEY, RecordKeys(), v))
  {
  }

  lemma ShortColumns(v: Value, c: nat)
    requires Record(RecordKeys(), v) && c < |v.fields|
    requires forall r | r in Rows(SORT_KEY, v) :: ShortRow(r)
    ensures TextColumn(v.fields[c], |Rows(SORT_KEY, v)|)
  {
    var k, table := SortColumn(SORT_KEY, RecordKeys()), Rows(SORT_KEY, v);
    FromTableTable(k, v.fields);
    KeysAreShort(c);
    var j := PositionOf(|RecordKeys()|, k, c);
    assert v.fields[c] == FromTable(k, RecordKeys(), table)[c];
    forall r | 0 <= r < |table| ensures ShortText(v.fields[c].value.elems[r]) {
      assert ShortRow(table[r]);
      assert v.fields[c].value.elems[r] == table[r].elems[j];
    }
  }

  lemma KeysAreShort(c: nat)
    requires c < |RecordKeys()|
    ensures |RecordKeys()[c]| <= MAX_SIZE && |RecordKeys()| == 6
  {
  }

  /** A verdict is readable exactly if the number of distinct records it merges is. */
  lemma VerdictReadable(vs: seq<Value>)
    requires ShortRecords(vs) && vs != []
    ensures Encodable(FoldMerge(SORT_KEY, vs)) <==> ReadableCount(|Elems(vs)|)
    ensures Depth(FoldMerge(SORT_KEY, vs)) <= 2 && FoldMerge(SORT_KEY, vs) != Null
  {
    var v := FoldMerge(SORT_KEY, vs);
    MergeCounts(SORT_KEY, RecordKeys(), vs);
    forall r | r in Rows(SORT_KEY, v) ensures ShortRow(r) {
      assert r in Elems(Rows(SORT_KEY, v));
      var u :| u in Elems(vs) && RowOf(SORT_KEY, RecordKeys(), u) == r;
      ShortRowOf(u);
    }
    forall c | 0 <= c < |v.fields| ensures TextColumn(v.fields[c], |Rows(SORT_KEY, v)|) {
      ShortColumns(v, c);
    }
    KeysAreShort(0);
    RowsDecideReadability(v.fields, |Rows(SORT_KEY, v)|);
  }

  // ---------- from text to answers ----------

  /** The distinct records covering an address. */
  function Covered(files: seq<File>, addr: Bits): set<Value> {
    Elems(Records(files, addr))
  }

  /** Some other address is covered by different records. */
  ghost predicate Varies(files: seq<File>, addr: Bits) {
    exists other: Bits :: |other| == WIDTH && Covered(files, other) != Covered(files, addr)
  }

  lemma VariesIffFork(files: seq<File>, addr: Bits)
    requires FileNetworks(AllNetworks(files)) && |addr| == WIDTH && Verdict(files, addr) != Null
    ensures BuiltTree(SORT_KEY, AllNetworks(files)).Fork? <==> Varies(files, addr)
  {
    var ns, d := AllNetworks(files), Verdict(files, addr);
    var t := BuiltTree(SORT_KEY, ns);
    FileNetworksAreColumnar(ns);
    DegenerateTree(SORT_KEY, ns, WIDTH, d);
    HeightInsertAll(SORT_KEY, ns, WIDTH);
    PruneKeepsLookup(InsertAll(SORT_KEY, ns), addr);
    LookupIsFold(SORT_KEY, ns, addr);
    assert Lookup(t, addr) == d;
    assert !t.Fork? ==> t == Leaf(d);
    forall other: Bits | |other| == WIDTH
      ensures FoldMerge(SORT_KEY, Covering(ns, other)) == d <==> Covered(files, other) == Covered(files, addr)
    {
      CoveringIsSingle(ns, addr);
      CoveringIsSingle(ns, other);
      MergeDetermines(SORT_KEY, RecordKeys(), Covering(ns, other), Covering(ns, addr));
    }
  }

  /**
   From blocklist text to the reader's answer, whatever the interleaving: a published file answers
   with the merge of all records covering the address exactly if nothing covers it, or some other
   address is covered by different records and the number of distinct covering records is readable.
   */
  lemma PublishedAnswers(syntax: Syntax, sources: seq<Source>, files: seq<File>, states: seq<State>, moves: seq<Move>,
                         i: nat, meta: seq<byte>, addr: Bits, fuel: nat, strict: bool)
    requires ReadFrom(syntax, sources, files)
    requires Run(SORT_KEY, files, states, moves) && i < |states| && states[i].outcome.Published?
    requires |addr| == WIDTH && FitsFormat(BuiltTree(SORT_KEY, AllNetworks(files))) && fuel >= 2
    requires ShortRecords(Records(files, addr))
    ensures
      var n := NodeCount(BuiltTree(SORT_KEY, AllNetworks(files)));
      Query(states[i].outcome.bytes + meta, n, addr, fuel, strict) == Some(Verdict(files, addr))
      <==> Covered(files, addr) == {} || (Varies(files, addr) && ReadableCount(|Covered(files, addr)|))
  {
    PublishedBytes(syntax, sources, files, states, moves, i);
    AllAreFileNetworks(syntax, sources, files);
    TextAnswers(files, meta, addr, fuel, strict);
  }

  lemma TextAnswers(files: seq<File>, meta: seq<byte>, addr: Bits, fuel: nat, strict: bool)
    requires FileNetworks(AllNetworks(files)) && ShortRecords(Records(files, addr))
    requires |addr| == WIDTH && FitsFormat(BuiltTree(SORT_KEY, AllNetworks(files))) && fuel >= 2
    ensures
      var t := BuiltTree(SORT_KEY, AllNetworks(files));
      Query(Image(t) + meta, NodeCount(t), addr, fuel, strict) == Some(Verdict(files, addr))
      <==> Covered(files, addr) == {} || (Varies(files, addr) && ReadableCount(|Covered(files, addr)|))
  {
    var ns, vs := AllNetworks(files), Records(files, addr);
    FileNetworksAreColumnar(ns);
    CoveringIsSingle(ns, addr);
    EmptyMerge(SORT_KEY, RecordKeys(), vs);
    if vs != [] {
      VerdictReadable(vs);
      VariesIffFork(files, addr);
    }
    DatabaseAnswers(SORT_KEY, ns, meta, addr, fuel, strict);
  }
}
