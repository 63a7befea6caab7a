/**
 What a blocklist says, read off its text line by line: which lines are networks, and which comment
 fills which column of their records. Nothing here goes through the state the reader keeps.
 */
module BlocklistText {
  import opened Bytes
  import opened StringUtils
  import opened ContentOrder
  import opened RecordMerge
  import opened Trie
  import opened Addresses
  import opened Blocklist

  // ---------- lines ----------

  /** Every line followed by a newline. */
  function Unlines(raws: seq<string>): string {
    if raws == [] then "" else raws[0] + "\n" + Unlines(raws[1..])
  }

  /** `raws` are the lines of `content`; the last one need not end in a newline. */
  ghost predicate SplitsInto(content: string, raws: seq<string>) {
    && (forall k | 0 <= k < |raws| :: '\n' !in raws[k])
    && (Unlines(raws) == content
        || (content != "" && content[|content| - 1] != '\n' && Unlines(raws) == content + "\n"))
  }

  /** A line without the carriage return at its end. */
  function Stripped(raw: string): string {
    if raw != "" && raw[|raw| - 1] == '\r' then raw[..|raw| - 1] else raw
  }

  /** The line begins with `#`; what precedes its first colon is the key, what follows it the value. */
  ghost predicate IsComment(raw: string, key: string, value: string) {
    var line := Stripped(raw);
    line != "" && line[0] == '#' && exists c: nat :: ColonAt(line, c) && key == Trim(line[1..c]) && value == Trim(line[c + 1..])
  }

  /** The first colon after the `#`. */
  predicate ColonAt(line: string, c: nat) {
    1 <= c < |line| && line[c] == ':' && forall k | 1 <= k < c :: line[k] != ':'
  }

  /** The line does not begin with `#` and is not blank; trimmed, it spells a network. */
  predicate IsEntry(raw: string, text: string) {
    var line := Stripped(raw);
    line != "" && line[0] != '#' && text == Trim(line) && text != ""
  }

  lemma FindIsColon(line: string)
    requires line != ""
    ensures
      var c := Find(line[1..], ':', 0);
      c < |line| - 1 ==> ColonAt(line, c + 1)
    ensures forall c: nat :: ColonAt(line, c) ==> c == Find(line[1..], ':', 0) + 1
  {
    var comment := line[1..];
    assert forall k | 0 <= k < |comment| :: comment[k] == line[k + 1];
    assert forall k | 1 <= k < |line| :: line[k] == comment[k - 1];
  }

  lemma ClassifyComment(raw: string, key: string, value: string)
    ensures Classify(raw) == Comment(key, value) <==> IsComment(raw, key, value)
  {
    var line := Stripped(raw);
    if line != "" && line[0] == '#' {
      FindIsColon(line);
      var comment := line[1..];
      var c := Find(comment, ':', 0);
      if c < |comment| {
        assert comment[..c] == line[1..c + 1] && comment[c + 1..] == line[c + 2..];
        assert ColonAt(line, c + 1);
      }
    }
  }

  lemma ClassifyEntry(raw: string, text: string)
    ensures Classify(raw) == Entry(text) <==> IsEntry(raw, text)
  {
  }

  function Classified(classify: string -> Line, raws: seq<string>): seq<Line> {
    if raws == [] then [] else [classify(raws[0])] + Classified(classify, raws[1..])
  }

  /** `raws` are the lines of `s` from `pos` on. */
  ghost predicate SplitsFrom(s: string, pos: nat, raws: seq<string>) {
    if pos > |s| then raws == [] else SplitsInto(s[pos..], raws)
  }

  function LineFrom(s: string, pos: nat): string {
    if pos < |s| then s[pos..Find(s, '\n', pos)] else ""
  }

  function NextFrom(s: string, pos: nat): nat {
    if pos < |s| then Find(s, '\n', pos) + 1 else pos
  }

  /** Peeling off one line after the other gives the lines, however a line and its end are found. */
  lemma {:induction false} LinesPeel(classify: string -> Line, lines: nat -> seq<Line>, line: nat -> string, next: nat -> nat,
                                     limit: nat, splits: (nat, seq<string>) -> bool, pos: nat, raws: seq<string>)
    requires forall p: nat :: lines(p) == if p >= limit then [] else [classify(line(p))] + lines(next(p))
    requires forall p: nat, rs | splits(p, rs) ::
      if rs == [] then p >= limit else p < limit && line(p) == rs[0] && splits(next(p), rs[1..])
    requires splits(pos, raws)
    ensures lines(pos) == Classified(classify, raws)
    decreases |raws|
  {
    if raws != [] {
      LinesPeel(classify, lines, line, next, limit, splits, next(pos), raws[1..]);
    }
  }

  /** The reader's lines are the lines of the text. */
  lemma LinesAre(classify: string -> Line, s: string, raws: seq<string>)
    requires SplitsInto(s, raws)
    ensures LinesVia(classify, s, 0) == Classified(classify, raws)
  {
    ghost var lines := (p: nat) => LinesVia(classify, s, p);
    ghost var line := (p: nat) => LineFrom(s, p);
    ghost var next := (p: nat) => NextFrom(s, p);
    ghost var splits := (p: nat, rs: seq<string>) => SplitsFrom(s, p, rs);
    forall p: nat ensures lines(p) == if p >= |s| then [] else [classify(line(p))] + lines(next(p)) {
      LinesStep(classify, s, p);
    }
    forall p: nat, rs | splits(p, rs)
      ensures if rs == [] then p >= |s| else p < |s| && line(p) == rs[0] && splits(next(p), rs[1..])
    {
      SplitsStep(s, p, rs);
    }
    assert s[0..] == s;
    LinesPeel(classify, lines, line, next, |s|, splits, 0, raws);
  }

  lemma LinesStep(classify: string -> Line, s: string, pos: nat)
    ensures LinesVia(classify, s, pos)
         == if pos >= |s| then [] else [classify(LineFrom(s, pos))] + LinesVia(classify, s, NextFrom(s, pos))
  {
  }

  lemma SplitsStep(s: string, pos: nat, raws: seq<string>)
    requires SplitsFrom(s, pos, raws)
    ensures if raws == [] then pos >= |s|
            else pos < |s| && LineFrom(s, pos) == raws[0] && SplitsFrom(s, NextFrom(s, pos), raws[1..])
  {
    if raws != [] {
      var t, n := s[pos..], |raws[0]|;
      HeadLine(t, raws);
      LineEnd(s, pos, n);
      if pos + n < |s| {
        assert s[pos + n + 1..] == t[n + 1..];
      }
    }
  }

  /** The first line of a text, and what is left behind its newline. */
  lemma HeadLine(t: string, raws: seq<string>)
    requires SplitsInto(t, raws) && raws != []
    ensures t != "" && |raws[0]| <= |t| && t[..|raws[0]|] == raws[0] && '\n' !in raws[0]
    ensures |raws[0]| == |t| ==> |raws| == 1
    ensures |raws[0]| < |t| ==> t[|raws[0]|] == '\n' && SplitsInto(t[|raws[0]| + 1..], raws[1..])
  {
    var first, rest := raws[0], raws[1..];
    assert forall k | 0 <= k < |rest| :: rest[k] == raws[k + 1];
    var all := first + "\n" + Unlines(rest);
    assert Unlines(raws) == all;
    assert t <= all && |all| <= |t| + 1;
    assert first == all[..|first|] && all[|first|] == '\n';
    if |first| == |t| {
      UnlinesEmpty(rest);
    } else {
      assert Unlines(rest) == all[|first| + 1..];
    }
  }

  lemma LineEnd(s: string, pos: nat, n: nat)
    requires pos + n <= |s| && '\n' !in s[pos..][..n] && (pos + n < |s| ==> s[pos..][n] == '\n')
    ensures Find(s, '\n', pos) == pos + n && s[pos..pos + n] == s[pos..][..n]
  {
    forall k | pos <= k < pos + n ensures s[k] != '\n' {
      assert s[k] == s[pos..][..n][k - pos];
    }
  }

  lemma UnlinesEmpty(raws: seq<string>)
    ensures Unlines(raws) == "" <==> raws == []
  {
  }

  /** Every text splits into lines. */
  lemma {:induction false} Splits(s: string) returns (raws: seq<string>)
    ensures SplitsInto(s, raws)
    decreases |s|
  {
    raws := [];
    if s != "" {
      var end := Find(s, '\n', 0);
      if end == |s| {
        raws := [s];
        assert Unlines(raws) == s + "\n" + Unlines([]);
      } else {
        var rest := Splits(s[end + 1..]);
        raws := [s[..end]] + rest;
        assert raws[1..] == rest;
        assert s == s[..end] + "\n" + s[end + 1..];
      }
    }
  }

  // ---------- metadata ----------

  /** Whether a line is a comment with a key and a value; always `IsComment`. */
  type Comments = (string, string, string) -> bool

  /** No line before line `n` is a comment with this key. */
  ghost predicate NoComment(says: Comments, raws: seq<string>, n: nat, key: string)
    requires n <= |raws|
  {
    forall j, v | 0 <= j < n :: !says(raws[j], key, v)
  }

  /** Line `j` is the last comment with this key before line `n`. */
  ghost predicate LastAt(says: Comments, raws: seq<string>, n: nat, key: string, value: string, j: nat)
    requires n <= |raws|
  {
    j < n && says(raws[j], key, value) && forall i, w | j < i < n :: !says(raws[i], key, w)
  }

  /** The last comment with this key before line `n` has this value. */
  ghost predicate LastComment(says: Comments, raws: seq<string>, n: nat, key: string, value: string)
    requires n <= |raws|
  {
    exists j: nat :: LastAt(says, raws, n, key, value, j)
  }

  /** The value in force at line `n`: that of the last comment with this key, or nothing. */
  ghost predicate InForce(says: Comments, raws: seq<string>, n: nat, key: string, value: string)
    requires n <= |raws|
  {
    LastComment(says, raws, n, key, value) || (NoComment(says, raws, n, key) && value == "")
  }

  ghost predicate DateInForce(says: Comments, syntax: Syntax, raws: seq<string>, n: nat, date: string)
    requires n <= |raws|
  {
    || (NoComment(says, raws, n, "Source File Date") && date == "")
    || (exists v :: LastComment(says, raws, n, "Source File Date", v) && syntax.date(v) == Some(date))
  }

  /** The line is not a comment with this key. */
  ghost predicate Silent(says: Comments, raw: string, key: string) {
    forall v :: !says(raw, key, v)
  }

  lemma SilentKeepsNone(says: Comments, raws: seq<string>, n: nat, key: string)
    requires n < |raws| && Silent(says, raws[n], key) && NoComment(says, raws, n, key)
    ensures NoComment(says, raws, n + 1, key)
  {
  }

  lemma SilentKeepsLast(says: Comments, raws: seq<string>, n: nat, key: string, v: string)
    requires n < |raws| && Silent(says, raws[n], key) && LastComment(says, raws, n, key, v)
    ensures LastComment(says, raws, n + 1, key, v)
  {
    var j: nat :| LastAt(says, raws, n, key, v, j);
    assert LastAt(says, raws, n + 1, key, v, j);
  }

  lemma SilentKeeps(says: Comments, raws: seq<string>, n: nat, key: string, v: string)
    requires n < |raws| && Silent(says, raws[n], key) && InForce(says, raws, n, key, v)
    ensures InForce(says, raws, n + 1, key, v)
  {
    if LastComment(says, raws, n, key, v) {
      SilentKeepsLast(says, raws, n, key, v);
    } else {
      SilentKeepsNone(says, raws, n, key);
    }
  }

  lemma SilentKeepsDate(says: Comments, syntax: Syntax, raws: seq<string>, n: nat, d: string)
    requires n < |raws| && Silent(says, raws[n], "Source File Date") && DateInForce(says, syntax, raws, n, d)
    ensures DateInForce(says, syntax, raws, n + 1, d)
  {
    if NoComment(says, raws, n, "Source File Date") && d == "" {
      SilentKeepsNone(says, raws, n, "Source File Date");
    } else {
      var v :| LastComment(says, raws, n, "Source File Date", v) && syntax.date(v) == Some(d);
      SilentKeepsLast(says, raws, n, "Source File Date", v);
    }
  }

  lemma CommentSets(says: Comments, raws: seq<string>, n: nat, key: string, value: string)
    requires n < |raws| && says(raws[n], key, value)
    ensures LastComment(says, raws, n + 1, key, value)
  {
    assert LastAt(says, raws, n + 1, key, value, n);
  }

  /** The reader's metadata is what the comments so far say. */
  ghost predicate MetadataAt(says: Comments, syntax: Syntax, raws: seq<string>, n: nat, md: Metadata)
    requires n <= |raws|
  {
    && InForce(says, raws, n, "Category", md.category)
    && InForce(says, raws, n, "Maintainer URL", md.maintainerUrl)
    && InForce(says, raws, n, "Maintainer", md.maintainer)
    && InForce(says, raws, n, "List source URL", md.listSourceUrl)
    && DateInForce(says, syntax, raws, n, md.sourceFileDate)
  }

  /** A text column keeps its value unless the line is a comment for it. */
  lemma TextNext(says: Comments, raws: seq<string>, n: nat, key: string, was: string, now: string)
    requires n < |raws| && InForce(says, raws, n, key, was)
    requires says(raws[n], key, now) || (Silent(says, raws[n], key) && now == was)
    ensures InForce(says, raws, n + 1, key, now)
  {
    if says(raws[n], key, now) {
      CommentSets(says, raws, n, key, now);
    } else {
      SilentKeeps(says, raws, n, key, was);
    }
  }

  lemma DateNext(says: Comments, syntax: Syntax, raws: seq<string>, n: nat, was: string, value: string, now: string)
    requires n < |raws| && DateInForce(says, syntax, raws, n, was)
    requires || (says(raws[n], "Source File Date", value) && syntax.date(value) == Some(now))
             || (Silent(says, raws[n], "Source File Date") && now == was)
    ensures DateInForce(says, syntax, raws, n + 1, now)
  {
    if says(raws[n], "Source File Date", value) && syntax.date(value) == Some(now) {
      CommentSets(says, raws, n, "Source File Date", value);
    } else {
      SilentKeepsDate(says, syntax, raws, n, was);
    }
  }

  /** The line is this comment and no other. */
  ghost predicate OnlyComment(says: Comments, raw: string, key: string, value: string) {
    says(raw, key, value) && forall k | k != key :: Silent(says, raw, k)
  }

  lemma SilentLine(says: Comments, syntax: Syntax, raws: seq<string>, n: nat, md: Metadata)
    requires n < |raws| && MetadataAt(says, syntax, raws, n, md) && forall key :: Silent(says, raws[n], key)
    ensures MetadataAt(says, syntax, raws, n + 1, md)
  {
    TextNext(says, raws, n, "Category", md.category, md.category);
    TextNext(says, raws, n, "Maintainer URL", md.maintainerUrl, md.maintainerUrl);
    TextNext(says, raws, n, "Maintainer", md.maintainer, md.maintainer);
    TextNext(says, raws, n, "List source URL", md.listSourceUrl, md.listSourceUrl);
    DateNext(says, syntax, raws, n, md.sourceFileDate, "", md.sourceFileDate);
  }

  lemma CommentLine(says: Comments, syntax: Syntax, raws: seq<string>, n: nat, md: Metadata,
                    key: string, value: string, md': Metadata)
    requires n < |raws| && MetadataAt(says, syntax, raws, n, md) && OnlyComment(says, raws[n], key, value)
    requires Annotate(syntax, md, key, value) == Some(md')
    ensures MetadataAt(says, syntax, raws, n + 1, md')
  {
    assert key != "Category" ==> md'.category == md.category;
    TextNext(says, raws, n, "Category", md.category, md'.category);
    TextNext(says, raws, n, "Maintainer URL", md.maintainerUrl, md'.maintainerUrl);
    TextNext(says, raws, n, "Maintainer", md.maintainer, md'.maintainer);
    TextNext(says, raws, n, "List source URL", md.listSourceUrl, md'.listSourceUrl);
    DateNext(says, syntax, raws, n, md.sourceFileDate, value, md'.sourceFileDate);
  }

  /** How a comment and a network line look; always `MARKS`. */
  datatype Marks = Marks(comment: Comments, entry: (string, string) -> bool)

  ghost predicate Tells(classify: string -> Line, marks: Marks) {
    && (forall raw, key, value :: marks.comment(raw, key, value) <==> classify(raw) == Comment(key, value))
    && (forall raw, text :: marks.entry(raw, text) <==> classify(raw) == Entry(text))
  }

  ghost const MARKS := Marks(IsComment, IsEntry)

  lemma ClassifyTells()
    ensures Tells(Classify, MARKS)
  {
    forall raw, key, value ensures IsComment(raw, key, value) <==> Classify(raw) == Comment(key, value) {
      ClassifyComment(raw, key, value);
    }
    forall raw, text ensures IsEntry(raw, text) <==> Classify(raw) == Entry(text) {
      ClassifyEntry(raw, text);
    }
  }

  /** The metadata after a line that can be read. */
  lemma NextMetadata(classify: string -> Line, marks: Marks, syntax: Syntax, raws: seq<string>, n: nat, md: Metadata, md': Metadata)
    requires n < |raws| && Tells(classify, marks) && MetadataAt(marks.comment, syntax, raws, n, md)
    requires if classify(raws[n]).Comment? then Annotate(syntax, md, classify(raws[n]).key, classify(raws[n]).value) == Some(md') else md' == md
    ensures MetadataAt(marks.comment, syntax, raws, n + 1, md')
  {
    if classify(raws[n]).Comment? {
      CommentLine(marks.comment, syntax, raws, n, md, classify(raws[n]).key, classify(raws[n]).value, md');
    } else {
      SilentLine(marks.comment, syntax, raws, n, md);
    }
  }

  // ---------- what a file says ----------

  /** The column named `column` holds one text. */
  predicate Says(fs: seq<Field>, column: string, text: string) {
    ValueAt(fs, Ascii(column)) == Arr([Str(Ascii(text))])
  }

  lemma RecordSays(file: string, md: Metadata)
    ensures
      var fs := RecordOf(file, md).fields;
      && Says(fs, "file_name", file) && Says(fs, "category", md.category) && Says(fs, "maintainer", md.maintainer)
      && Says(fs, "maintainer_url", md.maintainerUrl) && Says(fs, "list_source_url", md.listSourceUrl)
      && Says(fs, "source_file_date_rfc3339", md.sourceFileDate) && |fs| == 6
  {
    var fs := RecordOf(file, md).fields;
    ColumnOf(fs, 0);
    ColumnOf(fs, 1);
    ColumnOf(fs, 2);
    ColumnOf(fs, 3);
    ColumnOf(fs, 4);
    ColumnOf(fs, 5);
  }

  lemma {:induction false} ColumnOf(fs: seq<Field>, c: nat)
    requires c < |fs| && forall d | 0 <= d < c :: |fs[d].key| != |fs[c].key|
    ensures ValueAt(fs, fs[c].key) == fs[c].value
  {
    if c > 0 {
      assert forall d | 0 <= d < c - 1 :: fs[1..][d] == fs[d + 1];
      ColumnOf(fs[1..], c - 1);
    }
  }

  /** A column holds what the comments with this key say at line `n`. */
  ghost predicate SaysComment(says: Comments, raws: seq<string>, n: nat, fs: seq<Field>, column: string, key: string)
    requires n <= |raws|
  {
    exists v :: InForce(says, raws, n, key, v) && Says(fs, column, v)
  }

  /** The record of a network at line `n`: the six columns and where their texts come from. */
  ghost predicate RecordAtLine(says: Comments, syntax: Syntax, file: string, raws: seq<string>, n: nat, record: Value)
    requires n <= |raws|
  {
    && record.Map? && |record.fields| == 6
    && Says(record.fields, "file_name", file)
    && SaysComment(says, raws, n, record.fields, "category", "Category")
    && SaysComment(says, raws, n, record.fields, "maintainer", "Maintainer")
    && SaysComment(says, raws, n, record.fields, "maintainer_url", "Maintainer URL")
    && SaysComment(says, raws, n, record.fields, "list_source_url", "List source URL")
    && (exists d :: DateInForce(says, syntax, raws, n, d) && Says(record.fields, "source_file_date_rfc3339", d))
  }

  lemma RecordFits(says: Comments, syntax: Syntax, file: string, raws: seq<string>, n: nat, md: Metadata)
    requires n <= |raws| && MetadataAt(says, syntax, raws, n, md)
    ensures RecordAtLine(says, syntax, file, raws, n, RecordOf(file, md))
  {
    RecordSays(file, md);
  }

  /** The leading bits of the network: its length and the number they spell. */
  predicate FixesBits(a: Address, prefix: Bits) {
    |prefix| == a.prefixLen && Num(prefix) == BigEndian(a.bits) / Pow2(128 - a.prefixLen)
  }

  /** Network `net` is what line `n` lists. */
  ghost predicate ListedAt(marks: Marks, syntax: Syntax, file: string, raws: seq<string>, n: nat, net: Network) {
    && n < |raws| && RecordAtLine(marks.comment, syntax, file, raws, n, net.record)
    && exists text :: marks.entry(raws[n], text) && syntax.network(text).Some? && FixesBits(syntax.network(text).value, net.prefix)
  }

  ghost predicate Lists(marks: Marks, raw: string) {
    exists text :: marks.entry(raw, text)
  }

  /** The line spells no network, or a date that cannot be read. */
  ghost predicate Malformed(marks: Marks, syntax: Syntax, raw: string) {
    || (exists text :: marks.entry(raw, text) && syntax.network(text).None?)
    || (exists v :: marks.comment(raw, "Source File Date", v) && syntax.date(v).None?)
  }

  /** Lines `at` are exactly the network lines from `n` to `stop`, in order. */
  ghost predicate NetworkLines(marks: Marks, raws: seq<string>, n: nat, stop: nat, at: seq<nat>)
    requires stop <= |raws|
  {
    && (forall k | 0 <= k < |at| :: n <= at[k] < stop && Lists(marks, raws[at[k]]))
    && (forall j, k | 0 <= j < k < |at| :: at[j] < at[k])
    && (forall i | n <= i < stop && Lists(marks, raws[i]) :: i in at)
  }

  /** Network `k` is what line `at[k]` lists. */
  ghost predicate Listed(marks: Marks, syntax: Syntax, file: string, raws: seq<string>, at: seq<nat>, networks: seq<Network>) {
    |at| == |networks| && forall k | 0 <= k < |at| :: ListedAt(marks, syntax, file, raws, at[k], networks[k])
  }

  /** Line `stop` is the first malformed one from `n` on, or the end. */
  ghost predicate StopsAt(marks: Marks, syntax: Syntax, raws: seq<string>, n: nat, stop: nat)
    requires stop <= |raws|
  {
    && (forall i | n <= i < stop :: !Malformed(marks, syntax, raws[i]))
    && (stop < |raws| ==> Malformed(marks, syntax, raws[stop]))
  }

  /** The reading is what lines `n` to `stop` list, and stops at the first malformed line. */
  ghost predicate Faithful(marks: Marks, syntax: Syntax, file: string, raws: seq<string>, n: nat, r: Reading, stop: nat, at: seq<nat>) {
    && n <= stop <= |raws| && StopsAt(marks, syntax, raws, n, stop) && (r.ok <==> stop == |raws|)
    && NetworkLines(marks, raws, n, stop, at) && Listed(marks, syntax, file, raws, at, r.networks)
    && InForce(marks.comment, raws, stop, "Category", r.metadata.category)
  }

  lemma MalformedIff(classify: string -> Line, marks: Marks, syntax: Syntax, md: Metadata, raw: string)
    requires Tells(classify, marks)
    ensures Lists(marks, raw) <==> classify(raw).Entry?
    ensures Malformed(marks, syntax, raw) <==>
      match classify(raw)
      case Blank => false
      case Entry(text) => syntax.network(text).None?
      case Comment(key, value) => Annotate(syntax, md, key, value).None?
  {
    if classify(raw).Entry? {
      assert marks.entry(raw, classify(raw).text);
    } else if classify(raw).Comment? {
      assert marks.comment(raw, classify(raw).key, classify(raw).value);
    }
  }

  lemma ClassifiedHead(classify: string -> Line, raws: seq<string>, n: nat)
    requires n < |raws|
    ensures Classified(classify, raws[n..]) == [classify(raws[n])] + Classified(classify, raws[n + 1..])
  {
    assert raws[n..][1..] == raws[n + 1..];
  }

  lemma NetworkLinesSkip(marks: Marks, raws: seq<string>, n: nat, stop: nat, at: seq<nat>)
    requires n < stop <= |raws| && NetworkLines(marks, raws, n + 1, stop, at) && !Lists(marks, raws[n])
    ensures NetworkLines(marks, raws, n, stop, at)
  {
  }

  lemma NetworkLinesMore(marks: Marks, raws: seq<string>, n: nat, stop: nat, at: seq<nat>)
    requires n < stop <= |raws| && NetworkLines(marks, raws, n + 1, stop, at) && Lists(marks, raws[n])
    ensures NetworkLines(marks, raws, n, stop, [n] + at)
  {
  }

  lemma ListedMore(marks: Marks, syntax: Syntax, file: string, raws: seq<string>, n: nat, net: Network,
                   at: seq<nat>, networks: seq<Network>)
    requires Listed(marks, syntax, file, raws, at, networks) && ListedAt(marks, syntax, file, raws, n, net)
    ensures Listed(marks, syntax, file, raws, [n] + at, [net] + networks)
  {
  }

  lemma StopsLater(marks: Marks, syntax: Syntax, raws: seq<string>, n: nat, stop: nat)
    requires n < stop <= |raws| && StopsAt(marks, syntax, raws, n + 1, stop) && !Malformed(marks, syntax, raws[n])
    ensures StopsAt(marks, syntax, raws, n, stop)
  {
  }

  lemma TaggedFixes(a: Address, record: Value)
    ensures FixesBits(a, Tagged(a, record).prefix)
  {
    PrefixSpells(a.bits, a.prefixLen);
  }

  lemma TaggedIsListed(marks: Marks, syntax: Syntax, file: string, raws: seq<string>, n: nat, md: Metadata, text: string)
    requires n < |raws| && MetadataAt(marks.comment, syntax, raws, n, md)
    requires marks.entry(raws[n], text) && syntax.network(text).Some?
    ensures ListedAt(marks, syntax, file, raws, n, Tagged(syntax.network(text).value, RecordOf(file, md)))
  {
    TaggedFixes(syntax.network(text).value, RecordOf(file, md));
    RecordFits(marks.comment, syntax, file, raws, n, md);
  }

  lemma FaithfulSkip(marks: Marks, syntax: Syntax, file: string, raws: seq<string>, n: nat, r: Reading, stop: nat, at: seq<nat>)
    requires n < |raws| && Faithful(marks, syntax, file, raws, n + 1, r, stop, at)
    requires !Malformed(marks, syntax, raws[n]) && !Lists(marks, raws[n])
    ensures Faithful(marks, syntax, file, raws, n, r, stop, at)
  {
    StopsLater(marks, syntax, raws, n, stop);
    NetworkLinesSkip(marks, raws, n, stop, at);
  }

  lemma FaithfulMore(marks: Marks, syntax: Syntax, file: string, raws: seq<string>, n: nat, net: Network,
                     r: Reading, stop: nat, at: seq<nat>)
    requires n < |raws| && Faithful(marks, syntax, file, raws, n + 1, r, stop, at)
    requires !Malformed(marks, syntax, raws[n]) && Lists(marks, raws[n]) && ListedAt(marks, syntax, file, raws, n, net)
    ensures Faithful(marks, syntax, file, raws, n, After([net], r), stop, [n] + at)
  {
    StopsLater(marks, syntax, raws, n, stop);
    NetworkLinesMore(marks, raws, n, stop, at);
    ListedMore(marks, syntax, file, raws, n, net, at, r.networks);
  }

  lemma FaithfulEnd(marks: Marks, syntax: Syntax, file: string, raws: seq<string>, n: nat, md: Metadata)
    requires n <= |raws| && MetadataAt(marks.comment, syntax, raws, n, md)
    requires n < |raws| ==> Malformed(marks, syntax, raws[n])
    ensures Faithful(marks, syntax, file, raws, n, Reading([], md, n == |raws|), n, [])
  {
  }

  lemma ReadLine(syntax: Syntax, record: Recorder, line: Line, rest: seq<Line>, md: Metadata, md': Metadata)
    requires if line.Comment? then Annotate(syntax, md, line.key, line.value) == Some(md') else md' == md
    requires line.Entry? ==> syntax.network(line.text).Some?
    ensures
      var r := ReadLines(syntax, record, rest, md');
      ReadLines(syntax, record, [line] + rest, md)
      == if line.Entry? then After([Tagged(syntax.network(line.text).value, record(md))], r) else r
  {
    assert ([line] + rest)[1..] == rest;
  }

  lemma {:induction false} ReadingMeans(classify: string -> Line, marks: Marks, syntax: Syntax, file: string,
                                        raws: seq<string>, n: nat, md: Metadata)
    returns (stop: nat, at: seq<nat>)
    requires n <= |raws| && Tells(classify, marks) && MetadataAt(marks.comment, syntax, raws, n, md)
    ensures Faithful(marks, syntax, file, raws, n,
                     ReadLines(syntax, RecorderOf(file), Classified(classify, raws[n..]), md), stop, at)
    decreases |raws| - n
  {
    stop, at := n, [];
    if n < |raws| {
      var line, rest := classify(raws[n]), Classified(classify, raws[n + 1..]);
      ClassifiedHead(classify, raws, n);
      MalformedIff(classify, marks, syntax, md, raws[n]);
      if Malformed(marks, syntax, raws[n]) {
        FaithfulEnd(marks, syntax, file, raws, n, md);
      } else {
        var md' := if line.Comment? then Annotate(syntax, md, line.key, line.value).value else md;
        NextMetadata(classify, marks, syntax, raws, n, md, md');
        ReadLine(syntax, RecorderOf(file), line, rest, md, md');
        stop, at := ReadingMeans(classify, marks, syntax, file, raws, n + 1, md');
        var r := ReadLines(syntax, RecorderOf(file), rest, md');
        if line.Entry? {
          TaggedIsListed(marks, syntax, file, raws, n, md, line.text);
          FaithfulMore(marks, syntax, file, raws, n, Tagged(syntax.network(line.text).value, RecordOf(file, md)), r, stop, at);
          at := [n] + at;
        } else {
          FaithfulSkip(marks, syntax, file, raws, n, r, stop, at);
        }
      }
    } else {
      FaithfulEnd(marks, syntax, file, raws, n, md);
    }
  }

  /**
   What `process_file` reads is what the text says: the networks of its lines in order, each under the
   comments in force at its line, up to the first malformed line, where the file fails.
   */
  lemma FileMeans(syntax: Syntax, file: string, content: string, raws: seq<string>) returns (stop: nat, at: seq<nat>)
    requires SplitsInto(content, raws)
    ensures Faithful(MARKS, syntax, file, raws, 0, ReadFile(syntax, file, content), stop, at)
  {
    LinesAre(Classify, content, raws);
    assert raws[0..] == raws;
    ClassifyTells();
    stop, at := ReadingMeans(Classify, MARKS, syntax, file, raws, 0, NO_METADATA);
  }
}
