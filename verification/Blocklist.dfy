/**
 Reading one blocklist into the builder (`process_file` in src/firehol_blocklist_ipsets/compiler.cpp).
 Parsing a date and parsing a network are parameters.
 */
module Blocklist {
  import opened Bytes
  import opened StringUtils
  import opened ContentOrder
  import opened RecordMerge
  import opened PoolModel
  import opened Pool
  import opened Trie
  import opened BuilderModel

  datatype Metadata = Metadata(category: string, maintainerUrl: string, maintainer: string,
                               listSourceUrl: string, sourceFileDate: string)

  const NO_METADATA := Metadata("", "", "", "", "")
  const BATCH_SIZE := 32768

  datatype Network16 = Network16(bits: seq<byte>, prefixLen: nat)
  type Address = a: Network16 | |a.bits| == 16 && a.prefixLen <= WIDTH
    witness Network16([0, 0, 0, 0, 0, 0, 0, 0, 0, 0, 0, 0, 0, 0, 0, 0], 0)

  /** How dates and networks are spelled. */
  datatype Syntax = Syntax(date: string -> Option<string>, network: string -> Option<Address>)

  // ---------- records ----------

  function OneRow(s: string): Value {
    Arr([Str(Ascii(s))])
  }

  /** The record of a file under the metadata in force: six columns of one row. */
  function RecordOf(file: string, md: Metadata): Value {
    Map([Field(Ascii("category"), OneRow(md.category)),
         Field(Ascii("file_name"), OneRow(file)),
         Field(Ascii("list_source_url"), OneRow(md.listSourceUrl)),
         Field(Ascii("maintainer"), OneRow(md.maintainer)),
         Field(Ascii("maintainer_url"), OneRow(md.maintainerUrl)),
         Field(Ascii("source_file_date_rfc3339"), OneRow(md.sourceFileDate))])
  }

  function RecordKeys(): seq<Key> {
    Keys(RecordOf("", NO_METADATA).fields)
  }

  lemma RecordIsColumnar(file: string, md: Metadata)
    ensures Record(RecordKeys(), RecordOf(file, md))
  {
  }

  lemma {:induction false} PrefixIsSmaller(a: seq<byte>, b: seq<byte>)
    requires b != []
    ensures CmpBytes(a, a + b) < 0
  {
    if a != [] {
      assert (a + b)[1..] == a[1..] + b;
      PrefixIsSmaller(a[1..], b);
    }
  }

  lemma FirstByteDecides(a: seq<byte>, b: seq<byte>)
    requires a != [] && b != [] && a[0] < b[0]
    ensures CmpBytes(a, b) < 0
  {
  }

  lemma FieldsAscend(fs: seq<Field>, firsts: seq<byte>, suffix: seq<byte>)
    requires |fs| == 6 && firsts == [99, 102, 108, 109, 109, 115] && suffix != []
    requires forall k | 0 <= k < |fs| :: fs[k].key != [] && fs[k].key[0] == firsts[k]
    requires fs[4].key == fs[3].key + suffix
    ensures KeysAscending(fs)
  {
    forall i, j | 0 <= i < j < |fs| ensures CmpBytes(fs[i].key, fs[j].key) < 0 {
      if i == 3 && j == 4 {
        PrefixIsSmaller(fs[3].key, suffix);
      } else {
        assert firsts[i] < firsts[j];
        FirstByteDecides(fs[i].key, fs[j].key);
      }
    }
  }

  lemma RecordIsStorable(file: string, md: Metadata)
    ensures Storable(RecordOf(file, md))
  {
    var fs := RecordOf(file, md).fields;
    assert fs[4].key == fs[3].key + Ascii("_url");
    FieldsAscend(fs, [99, 102, 108, 109, 109, 115], Ascii("_url"));
    forall k | 0 <= k < |fs| ensures Storable(fs[k].value) {
      assert fs[k].value.Arr? && |fs[k].value.elems| == 1 && fs[k].value.elems[0].Str?;
    }
  }

  /** The records of one file, by metadata. */
  type Recorder = Metadata -> Value

  function RecorderOf(file: string): Recorder {
    md => RecordOf(file, md)
  }

  ghost predicate StorableRecords(record: Recorder) {
    forall md: Metadata :: Storable(record(md)) && record(md) != Null
  }

  lemma RecorderRecords(file: string)
    ensures StorableRecords(RecorderOf(file))
  {
    forall md: Metadata ensures Storable(RecordOf(file, md)) {
      RecordIsStorable(file, md);
    }
  }

  // ---------- the meaning of a file ----------

  /** The first position of `c` in `s` from `i` on, or the length. */
  function Find(s: string, c: char, i: nat): (e: nat)
    requires i <= |s|
    ensures i <= e <= |s| && (e < |s| ==> s[e] == c)
    ensures forall k | i <= k < e :: s[k] != c
    decreases |s| - i
  {
    if i < |s| && s[i] != c then Find(s, c, i + 1) else i
  }

  datatype Line = Blank | Comment(key: string, value: string) | Entry(text: string)

  function Classify(raw: string): Line {
    var line := if raw != "" && raw[|raw| - 1] == '\r' then raw[..|raw| - 1] else raw;
    if line == "" then Blank
    else if line[0] == '#' then
      var comment := line[1..];
      var colon := Find(comment, ':', 0);
      if colon == |comment| then Blank else Comment(Trim(comment[..colon]), Trim(comment[colon + 1..]))
    else if Trim(line) == "" then Blank
    else Entry(Trim(line))
  }

  /** The lines from position `pos` on; `classify` is always `Classify`. */
  function LinesVia(classify: string -> Line, s: string, pos: nat): seq<Line>
    decreases |s| - pos
  {
    if pos >= |s| then []
    else
      var end := Find(s, '\n', pos);
      [classify(s[pos..end])] + LinesVia(classify, s, end + 1)
  }

  function LinesOf(s: string): seq<Line> {
    LinesVia(Classify, s, 0)
  }

  /** The metadata after a comment; a date that cannot be read is an error. */
  function Annotate(syntax: Syntax, md: Metadata, key: string, value: string): Option<Metadata> {
    if key == "Category" then Some(md.(category := value))
    else if key == "Maintainer URL" then Some(md.(maintainerUrl := value))
    else if key == "Maintainer" then Some(md.(maintainer := value))
    else if key == "List source URL" then Some(md.(listSourceUrl := value))
    else if key == "Source File Date" then
      (if syntax.date(value).None? then None else Some(md.(sourceFileDate := syntax.date(value).value)))
    else Some(md)
  }

  function Tagged(a: Address, record: Value): Network {
    Network(Path(a.bits, 0, a.prefixLen), record)
  }

  /**
   What a file stands for: its networks, each with the record in force at its line, and the last
   metadata. Both are up to the first malformed line, if there is one; then `ok` is false.
   */
  datatype Reading = Reading(networks: seq<Network>, metadata: Metadata, ok: bool)

  /** The simple reading, without caching or batches. */
  function ReadLines(syntax: Syntax, record: Recorder, lines: seq<Line>, md: Metadata): Reading {
    if lines == [] then Reading([], md, true)
    else match lines[0]
      case Blank => ReadLines(syntax, record, lines[1..], md)
      case Comment(key, value) =>
        (match Annotate(syntax, md, key, value)
         case None => Reading([], md, false)
         case Some(md') => ReadLines(syntax, record, lines[1..], md'))
      case Entry(text) =>
        (match syntax.network(text)
         case None => Reading([], md, false)
         case Some(a) => After([Tagged(a, record(md))], ReadLines(syntax, record, lines[1..], md)))
  }

  function After(done: seq<Network>, r: Reading): Reading {
    r.(networks := done + r.networks)
  }

  function ReadFile(syntax: Syntax, file: string, content: string): Reading {
    ReadLines(syntax, RecorderOf(file), LinesOf(content), NO_METADATA)
  }

  /** What reaches the builder: everything, or the full batches before a malformed line. */
  function Inserted(r: Reading): seq<Network> {
    if r.ok then r.networks else r.networks[..|r.networks| - |r.networks| % BATCH_SIZE]
  }

  /** The lines still to be read complete what was read so far. */
  ghost predicate Pending(syntax: Syntax, record: Recorder, all: Reading, done: seq<Network>, rest: seq<Line>, md: Metadata) {
    all == After(done, ReadLines(syntax, record, rest, md))
  }

  /** What a line does to the networks read and the metadata, or that it fails and changes neither. */
  ghost predicate Handled(syntax: Syntax, record: Recorder, line: Line, done: seq<Network>, md: Metadata,
                          ok: bool, done': seq<Network>, md': Metadata) {
    match line
    case Blank => ok && done' == done && md' == md
    case Comment(key, value) =>
      var next := Annotate(syntax, md, key, value);
      ok == next.Some? && done' == done && md' == if ok then next.value else md
    case Entry(text) =>
      var a := syntax.network(text);
      ok == a.Some? && done' == (if ok then done + [Tagged(a.value, record(md))] else done) && md' == md
  }

  lemma PendingStep(syntax: Syntax, record: Recorder, all: Reading, done: seq<Network>, rest: seq<Line>, md: Metadata,
                    ok: bool, done': seq<Network>, md': Metadata)
    requires Pending(syntax, record, all, done, rest, md) && rest != []
    requires Handled(syntax, record, rest[0], done, md, ok, done', md')
    ensures if ok then Pending(syntax, record, all, done', rest[1..], md') else all == Reading(done', md', false)
  {
    if !ok {
      assert done + [] == done;
    } else if rest[0].Entry? {
      var n := Tagged(syntax.network(rest[0].text).value, record(md));
      ConcatAssoc(done, [n], ReadLines(syntax, record, rest[1..], md).networks);
    }
  }

  lemma FirstLine(classify: string -> Line, content: string, pos: nat, end: nat)
    requires pos < |content| && end == Find(content, '\n', pos)
    ensures
      var lines := LinesVia(classify, content, pos);
      lines != [] && lines[0] == classify(content[pos..end]) && lines[1..] == LinesVia(classify, content, end + 1)
  {
  }

  lemma PendingStarts(syntax: Syntax, record: Recorder, lines: seq<Line>, md: Metadata)
    ensures Pending(syntax, record, ReadLines(syntax, record, lines, md), [], lines, md)
  {
    assert [] + ReadLines(syntax, record, lines, md).networks == ReadLines(syntax, record, lines, md).networks;
  }

  lemma PendingEnds(syntax: Syntax, record: Recorder, all: Reading, done: seq<Network>, md: Metadata)
    requires Pending(syntax, record, all, done, [], md)
    ensures all == Reading(done, md, true)
  {
    assert done + [] == done;
  }

  // ---------- the code ----------

  /** The state of `process_file`: current metadata, cached record id, counts and the batch. */
  class FileReader {
    const builder: Builder
    const syntax: Syntax
    const record: Recorder
    var metadata: Metadata
    var did: nat
    var networkCount: nat
    var totalNetworks: nat
    var batch: seq<NetworkEntry>
    /** The networks read so far, by content, and the builder's networks before this file. */
    ghost var done: seq<Network>
    ghost const before: seq<Network>

    ghost predicate Batched()
      reads this, builder, builder.pool
    {
      && builder.Valid() && StorableRecords(record)
      && BatchOk(|builder.pool.entries|, batch)
      && builder.history + Networks(builder.pool.entries, batch) == before + done
      && totalNetworks == |done|
    }

    /** Only full batches have been flushed. */
    ghost predicate Aligned()
      reads this
    {
      |batch| == |done| % BATCH_SIZE
    }

    lemma OnlyFullBatches()
      requires Batched() && Aligned()
      ensures builder.history == before + done[..|done| - |done| % BATCH_SIZE]
    {
      FullBatches(builder.history, Networks(builder.pool.entries, batch), before, done);
    }

    /** A cached id always stands for the metadata in force, and has been used. */
    ghost predicate Cached()
      reads this, builder.pool
      requires builder.pool.Valid()
    {
      did == 0 || (did < |builder.pool.entries| && networkCount > 0
                   && Val(builder.pool.entries, did) == record(metadata))
    }

    ghost predicate Valid()
      reads this, builder, builder.pool
    {
      Batched() && Aligned() && Cached()
    }

    constructor (b: Builder, s: Syntax, r: Recorder)
      requires b.Valid() && StorableRecords(r)
      ensures Valid() && builder == b && syntax == s && record == r && metadata == NO_METADATA
      ensures done == [] && before == b.history
    {
      builder, syntax, record := b, s, r;
      metadata, did, networkCount, totalNetworks, batch := NO_METADATA, 0, 0, 0, [];
      done, before := [], b.history;
    }

    method UpdateDid()
      requires Batched()
      modifies this`did, this`networkCount, builder.pool
      ensures Batched() && 0 < did < |builder.pool.entries| && Val(builder.pool.entries, did) == record(metadata)
    {
      ghost var es := builder.pool.entries;
      did := builder.StoreData(record(metadata));
      NetworksStable(es, builder.pool.entries, batch);
      networkCount := 0;
    }

    method Flush()
      requires Batched()
      modifies this`batch, builder, builder.pool
      ensures Batched() && batch == [] && builder.history == before + done
      ensures old(builder.pool.entries) <= builder.pool.entries
    {
      builder.InsertParsed(batch);
      batch := [];
    }

    /** One of the recognised comments: a changed value ends the record in use. */
    method SetSlot(key: string, value: string) returns (ok: bool)
      requires Valid()
      modifies this`metadata, this`did
      ensures Valid() && (ok <==> old(Annotate(syntax, metadata, key, value)).Some?)
      ensures ok ==> Some(metadata) == old(Annotate(syntax, metadata, key, value))
      ensures !ok ==> metadata == old(metadata)
    {
      var next := Annotate(syntax, metadata, key, value);
      if next.None? {
        return false;
      }
      if next.value != metadata {
        if networkCount > 0 {
          did := 0;
        }
        metadata := next.value;
      }
      ok := true;
    }

    /** A parsed network joins the batch. */
    method Append(a: Address)
      requires Batched() && did < |builder.pool.entries| && Val(builder.pool.entries, did) == record(metadata)
      modifies this`batch, this`done, this`networkCount, this`totalNetworks
      ensures Batched() && done == old(done) + [Tagged(a, record(metadata))]
      ensures |batch| == old(|batch|) + 1 && networkCount == old(networkCount) + 1
    {
      var entry := NetworkEntry(a.bits, a.prefixLen, did);
      ghost var n := Tagged(a, record(metadata));
      NetworksSnoc(builder.pool.entries, batch, entry);
      Regroup(builder.history, Networks(builder.pool.entries, batch), before, done, n);
      batch := batch + [entry];
      done := done + [n];
      networkCount := networkCount + 1;
      totalNetworks := totalNetworks + 1;
    }

    /** The batch is flushed when full. */
    method Push(a: Address)
      requires Batched() && Aligned()
      requires did < |builder.pool.entries| && Val(builder.pool.entries, did) == record(metadata)
      modifies this`batch, this`done, this`networkCount, this`totalNetworks, builder, builder.pool
      ensures Valid() && done == old(done) + [Tagged(a, record(metadata))]
    {
      OneMore(|done|);
      Append(a);
      if |batch| == BATCH_SIZE {
        ghost var es := builder.pool.entries;
        Flush();
        ValStableAt(es, builder.pool.entries, did);
      }
    }

    /** A network line: stored under the cached record, or under a new one. */
    method AddEntry(text: string) returns (ok: bool)
      requires Valid()
      modifies this, builder, builder.pool
      ensures metadata == old(metadata) && Batched() && Aligned()
      ensures ok <==> syntax.network(text).Some?
      ensures ok ==> Cached() && done == old(done) + [Tagged(syntax.network(text).value, record(metadata))]
      ensures !ok ==> done == old(done)
    {
      if did == 0 {
        UpdateDid();
      }
      var parsed := syntax.network(text);
      if parsed.None? {
        return false;
      }
      Push(parsed.value);
      ok := true;
    }

    /** One line of the file. */
    method ProcessLine(line: string) returns (ok: bool)
      requires Valid()
      modifies this, builder, builder.pool
      ensures Batched() && Aligned() && (ok ==> Cached())
      ensures Handled(syntax, record, Classify(line), old(done), old(metadata), ok, done, metadata)
    {
      var kind := Classify(line);
      match kind
      case Blank => ok := true;
      case Comment(key, value) => ok := SetSlot(key, value);
      case Entry(text) => ok := AddEntry(text);
    }
  }

  lemma OneMore(n: nat)
    ensures (n + 1) % BATCH_SIZE == if n % BATCH_SIZE + 1 == BATCH_SIZE then 0 else n % BATCH_SIZE + 1
  {
  }

  lemma Regroup(history: seq<Network>, batched: seq<Network>, before: seq<Network>, done: seq<Network>, n: Network)
    requires history + batched == before + done
    ensures history + (batched + [n]) == before + (done + [n])
  {
    assert history + (batched + [n]) == history + batched + [n];
    assert before + (done + [n]) == before + done + [n];
  }

  datatype ParsedBlocklist = ParsedBlocklist(networks: nat, category: string)

  ghost predicate Classifies(classify: string -> Line) {
    forall x: string {:trigger Classify(x)} :: classify(x) == Classify(x)
  }

  method NextLine(reader: FileReader, text: string, ghost classify: string -> Line, ghost all: Reading,
                  ghost rest: seq<Line>, ghost tail: seq<Line>)
    returns (ok: bool)
    requires reader.Valid() && Classifies(classify) && rest != [] && rest[0] == classify(text) && rest[1..] == tail
    requires Pending(reader.syntax, reader.record, all, reader.done, rest, reader.metadata)
    modifies reader, reader.builder, reader.builder.pool
    ensures reader.Batched() && reader.Aligned() && (ok ==> reader.Cached())
    ensures if ok then Pending(reader.syntax, reader.record, all, reader.done, tail, reader.metadata)
            else all == Reading(reader.done, reader.metadata, false)
  {
    ghost var done, md := reader.done, reader.metadata;
    ok := reader.ProcessLine(text);
    PendingStep(reader.syntax, reader.record, all, done, rest, md, ok, reader.done, reader.metadata);
  }

  /** One turn of the loop of `process_file`: the line that starts at `pos`. */
  method LineAt(reader: FileReader, content: string, pos: nat, ghost classify: string -> Line, ghost all: Reading,
                ghost rest: seq<Line>)
    returns (ok: bool, pos': nat, ghost tail: seq<Line>)
    requires reader.Valid() && Classifies(classify) && pos < |content| && rest == LinesVia(classify, content, pos)
    requires Pending(reader.syntax, reader.record, all, reader.done, rest, reader.metadata)
    modifies reader, reader.builder, reader.builder.pool
    ensures reader.Batched() && reader.Aligned() && (ok ==> reader.Cached())
    ensures pos' > pos && tail == LinesVia(classify, content, pos')
    ensures if ok then Pending(reader.syntax, reader.record, all, reader.done, tail, reader.metadata)
            else all == Reading(reader.done, reader.metadata, false)
  {
    var end := Find(content, '\n', pos);
    FirstLine(classify, content, pos, end);
    pos', tail := end + 1, LinesVia(classify, content, end + 1);
    ok := NextLine(reader, content[pos..end], classify, all, rest, tail);
  }

  /** The loop of `process_file` over the lines of the file. */
  method ProcessLines(reader: FileReader, content: string, ghost classify: string -> Line, ghost all: Reading)
    returns (ok: bool)
    requires reader.Valid() && Classifies(classify)
    requires Pending(reader.syntax, reader.record, all, reader.done, LinesVia(classify, content, 0), reader.metadata)
    modifies reader, reader.builder, reader.builder.pool
    ensures reader.Batched() && reader.Aligned() && all == Reading(reader.done, reader.metadata, ok)
  {
    var pos := 0;
    ghost var rest := LinesVia(classify, content, 0);
    while pos < |content|
      invariant reader.Valid() && rest == LinesVia(classify, content, pos)
      invariant Pending(reader.syntax, reader.record, all, reader.done, rest, reader.metadata)
      decreases |content| - pos
    {
      ok, pos, rest := LineAt(reader, content, pos, classify, all, rest);
      if !ok {
        return;
      }
    }
    PendingEnds(reader.syntax, reader.record, all, reader.done, reader.metadata);
    ok := true;
  }

  lemma FullBatches(history: seq<Network>, batched: seq<Network>, before: seq<Network>, done: seq<Network>)
    requires history + batched == before + done && |batched| == |done| % BATCH_SIZE
    ensures history == before + done[..|done| - |done| % BATCH_SIZE]
  {
    assert history == (before + done)[..|history|] == before + done[..|done| - |batched|];
  }

  /**
   `process_file`. The builder receives exactly the networks of the simple reading, in order and
   each under the record in force at its line. A malformed file fails, after the full batches
   before the malformed line have been inserted.
   */
  method ProcessFile(builder: Builder, syntax: Syntax, fileName: string, content: string)
    returns (r: Option<ParsedBlocklist>)
    requires builder.Valid()
    modifies builder, builder.pool
    ensures builder.Valid()
    ensures builder.history == old(builder.history) + Inserted(ReadFile(syntax, fileName, content))
    ensures
      var reading := ReadFile(syntax, fileName, content);
      r == if reading.ok then Some(ParsedBlocklist(|reading.networks|, reading.metadata.category)) else None
  {
    if content == "" {
      return Some(ParsedBlocklist(0, ""));
    }
    RecorderRecords(fileName);
    ghost var all := ReadFile(syntax, fileName, content);
    var reader := new FileReader(builder, syntax, RecorderOf(fileName));
    PendingStarts(syntax, RecorderOf(fileName), LinesOf(content), NO_METADATA);
    var ok := ProcessLines(reader, content, Classify, all);
    if !ok {
      reader.OnlyFullBatches();
      return None;
    }
    reader.Flush();
    r := Some(ParsedBlocklist(reader.totalNetworks, reader.metadata.category));
  }
}
