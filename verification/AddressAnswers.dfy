/** What a published database answers for an address of sixteen bytes, in terms of the lines of the blocklists. */
module AddressAnswers {
  import opened Bytes
  import opened ContentOrder
  import opened RecordMerge
  import opened RowOrder
  import opened Trie
  import opened SearchTree
  import opened Database
  import opened Addresses
  import opened Blocklist
  import opened BlocklistText
  import opened Compile
  import opened PublishedDatabase

  /** `p` is the address bit by bit: the bits spell the same number. */
  predicate IsAddress(addr: seq<byte>, p: Bits) {
    |addr| == 16 && |p| == 128 && Num(p) == BigEndian(addr)
  }

  /** The line names a network and the address lies in it. */
  ghost predicate Names(marks: Marks, syntax: Syntax, raw: string, addr: seq<byte>) {
    exists text :: marks.entry(raw, text) && syntax.network(text).Some?
                && InNetwork(syntax.network(text).value.bits, syntax.network(text).value.prefixLen, addr)
  }

  /** Line `n` names a network the address lies in, and `v` is the record of that line. */
  ghost predicate Gives(marks: Marks, syntax: Syntax, file: string, raws: seq<string>, n: nat, addr: seq<byte>, v: Value) {
    n < |raws| && Names(marks, syntax, raws[n], addr) && RecordAtLine(marks.comment, syntax, file, raws, n, v)
  }

  /** A line names one network only. */
  ghost predicate OneEntry(marks: Marks) {
    forall raw, s, t | marks.entry(raw, s) && marks.entry(raw, t) :: s == t
  }

  lemma ListedCovers(marks: Marks, syntax: Syntax, file: string, raws: seq<string>, n: nat, net: Network, addr: seq<byte>, p: Bits)
    requires OneEntry(marks) && ListedAt(marks, syntax, file, raws, n, net) && IsAddress(addr, p)
    ensures net.prefix <= p <==> Names(marks, syntax, raws[n], addr)
  {
    var text :| marks.entry(raws[n], text) && syntax.network(text).Some? && FixesBits(syntax.network(text).value, net.prefix);
    PrefixByNumber(net.prefix, p);
  }

  /** Of a file that could be read, a covering network is named by a line ... */
  lemma CoveringIsNamed(marks: Marks, syntax: Syntax, file: string, raws: seq<string>, r: Reading, at: seq<nat>,
                        addr: seq<byte>, p: Bits, k: nat)
    requires OneEntry(marks) && IsAddress(addr, p) && Faithful(marks, syntax, file, raws, 0, r, |raws|, at)
    requires k < |r.networks| && r.networks[k].prefix <= p
    ensures k < |at| && Gives(marks, syntax, file, raws, at[k], addr, r.networks[k].record)
  {
    assert ListedAt(marks, syntax, file, raws, at[k], r.networks[k]);
    ListedCovers(marks, syntax, file, raws, at[k], r.networks[k], addr, p);
  }

  /** ... and a line that names the address has a covering network. */
  lemma NamedIsCovering(marks: Marks, syntax: Syntax, file: string, raws: seq<string>, r: Reading, at: seq<nat>,
                        addr: seq<byte>, p: Bits, n: nat) returns (net: Network)
    requires OneEntry(marks) && IsAddress(addr, p) && Faithful(marks, syntax, file, raws, 0, r, |raws|, at)
    requires n < |raws| && Names(marks, syntax, raws[n], addr)
    ensures net in r.networks && net.prefix <= p && Gives(marks, syntax, file, raws, n, addr, net.record)
  {
    assert Lists(marks, raws[n]);
    var k :| 0 <= k < |at| && at[k] == n;
    net := r.networks[k];
    assert ListedAt(marks, syntax, file, raws, at[k], net);
    ListedCovers(marks, syntax, file, raws, n, net, addr, p);
  }

  lemma {:induction false} CoveringIff(ns: seq<Network>, p: Bits, v: Value)
    ensures v in Covering(ns, p) <==> exists n :: n in ns && n.prefix <= p && n.record == v
  {
    if ns != [] {
      var init, last := ns[..|ns| - 1], ns[|ns| - 1];
      CoveringIff(init, p, v);
      assert ns == init + [last];
    }
  }

  /** The lines of every source. */
  ghost predicate Texts(sources: seq<Source>, texts: seq<seq<string>>) {
    |texts| == |sources| && forall f | 0 <= f < |sources| :: SplitsInto(sources[f].content, texts[f])
  }

  ghost predicate GivesAt(syntax: Syntax, sources: seq<Source>, texts: seq<seq<string>>, f: nat, n: nat, addr: seq<byte>, v: Value) {
    f < |sources| == |texts| && Gives(MARKS, syntax, sources[f].name, texts[f], n, addr, v)
  }

  /** Some line of some source names a network the address lies in, and `v` is its record. */
  ghost predicate Given(syntax: Syntax, sources: seq<Source>, texts: seq<seq<string>>, addr: seq<byte>, v: Value) {
    exists f: nat, n: nat :: GivesAt(syntax, sources, texts, f, n, addr, v)
  }

  /** Some line of some source names a network the address lies in. */
  ghost predicate Named(syntax: Syntax, texts: seq<seq<string>>, f: nat, n: nat, addr: seq<byte>) {
    f < |texts| && n < |texts[f]| && Names(MARKS, syntax, texts[f][n], addr)
  }

  lemma OneEntryEach()
    ensures OneEntry(MARKS)
  {
  }

  lemma IndexOf(ns: seq<Network>, net: Network) returns (k: nat)
    requires net in ns
    ensures k < |ns| && ns[k] == net
  {
    k :| k < |ns| && ns[k] == net;
  }

  /** One published source: its covering networks are those its lines name. */
  lemma SourceCovers(syntax: Syntax, sources: seq<Source>, files: seq<File>, states: seq<State>, moves: seq<Move>, i: nat,
                     texts: seq<seq<string>>, f: nat, addr: seq<byte>, p: Bits)
    requires ReadFrom(syntax, sources, files) && Texts(sources, texts) && f < |sources| && IsAddress(addr, p)
    requires Run(SORT_KEY, files, states, moves) && i < |states| && states[i].outcome.Published?
    ensures forall net | net in NetworksOf(files[f]) && net.prefix <= p :: Given(syntax, sources, texts, addr, net.record)
    ensures forall n: nat | Named(syntax, texts, f, n, addr) ::
      exists net :: net in NetworksOf(files[f]) && net.prefix <= p && GivesAt(syntax, sources, texts, f, n, addr, net.record)
  {
    var name, content, raws := sources[f].name, sources[f].content, texts[f];
    PublishedSourcesParse(syntax, sources, files, states, moves, i, f);
    var stop, at := FileMeans(syntax, name, content, raws);
    OneEntryEach();
    var r := ReadFile(syntax, name, content);
    forall net | net in r.networks && net.prefix <= p ensures Given(syntax, sources, texts, addr, net.record) {
      var k := IndexOf(r.networks, net);
      CoveringIsNamed(MARKS, syntax, name, raws, r, at, addr, p, k);
      assert GivesAt(syntax, sources, texts, f, at[k], addr, net.record);
    }
    forall n: nat | Named(syntax, texts, f, n, addr)
      ensures exists net :: net in r.networks && net.prefix <= p && GivesAt(syntax, sources, texts, f, n, addr, net.record)
    {
      var net := NamedIsCovering(MARKS, syntax, name, raws, r, at, addr, p, n);
      assert GivesAt(syntax, sources, texts, f, n, addr, net.record);
    }
  }

  /**
   The records a published database merges for an address are those of the lines naming a network
   the address lies in: every one of them comes from such a line, and every such line has one.
   */
  lemma CoveredMeans(syntax: Syntax, sources: seq<Source>, files: seq<File>, states: seq<State>, moves: seq<Move>, i: nat,
                     texts: seq<seq<string>>, addr: seq<byte>, p: Bits)
    requires ReadFrom(syntax, sources, files) && Texts(sources, texts) && IsAddress(addr, p)
    requires Run(SORT_KEY, files, states, moves) && i < |states| && states[i].outcome.Published?
    ensures forall v | v in Covered(files, p) :: Given(syntax, sources, texts, addr, v)
    ensures forall f: nat, n: nat | Named(syntax, texts, f, n, addr) ::
      exists v :: v in Covered(files, p) && GivesAt(syntax, sources, texts, f, n, addr, v)
  {
    forall v | v in Covered(files, p) ensures Given(syntax, sources, texts, addr, v) {
      CoveringIff(AllNetworks(files), p, v);
      var net :| net in AllNetworks(files) && net.prefix <= p && net.record == v;
      AllComesFrom(files, net);
      var f: nat :| f < |files| && net in NetworksOf(files[f]);
      SourceCovers(syntax, sources, files, states, moves, i, texts, f, addr, p);
    }
    forall f: nat, n: nat | Named(syntax, texts, f, n, addr)
      ensures exists v :: v in Covered(files, p) && GivesAt(syntax, sources, texts, f, n, addr, v)
    {
      SourceCovers(syntax, sources, files, states, moves, i, texts, f, addr, p);
      var net :| net in NetworksOf(files[f]) && net.prefix <= p && GivesAt(syntax, sources, texts, f, n, addr, net.record);
      AllHolds(files, f);
      CoveringIff(AllNetworks(files), p, net.record);
    }
  }

  /**
   For an address of sixteen bytes: a published file answers with the merge of the records of all lines naming
   a network the address lies in, exactly if there is no such line, or the answer is not the same
   for all addresses and the number of distinct records is readable.
   */
  lemma AddressAnswer(syntax: Syntax, sources: seq<Source>, files: seq<File>, states: seq<State>, moves: seq<Move>, i: nat,
                      texts: seq<seq<string>>, meta: seq<byte>, addr: seq<byte>, p: Bits, fuel: nat, strict: bool)
    requires ReadFrom(syntax, sources, files) && Texts(sources, texts) && IsAddress(addr, p)
    requires Run(SORT_KEY, files, states, moves) && i < |states| && states[i].outcome.Published?
    requires FitsFormat(BuiltTree(SORT_KEY, AllNetworks(files))) && fuel >= 2 && ShortRecords(Records(files, p))
    ensures
      var n := NodeCount(BuiltTree(SORT_KEY, AllNetworks(files)));
      Query(states[i].outcome.bytes + meta, n, p, fuel, strict) == Some(Verdict(files, p))
      <==> || (forall f: nat, n: nat :: !Named(syntax, texts, f, n, addr))
           || (Varies(files, p) && ReadableCount(|Covered(files, p)|))
  {
    CoveredMeans(syntax, sources, files, states, moves, i, texts, addr, p);
    PublishedAnswers(syntax, sources, files, states, moves, i, meta, p, fuel, strict);
    if v :| v in Covered(files, p) {
      var f: nat, n: nat :| GivesAt(syntax, sources, texts, f, n, addr, v);
      assert Named(syntax, texts, f, n, addr);
    }
  }

  /**
   The answer lists the covering records row by row, sorted by file name, and on equal names by the first
   other column that differs.
   */
  lemma VerdictIsSorted(syntax: Syntax, sources: seq<Source>, files: seq<File>, p: Bits)
    requires ReadFrom(syntax, sources, files) && Records(files, p) != []
    ensures AllRecords(RecordKeys(), Records(files, p)) && Record(RecordKeys(), Verdict(files, p))
    ensures
      var fs := Verdict(files, p).fields;
      && |fs| == 6 && fs[1].key == Ascii("file_name") && SortedBy(fs, 1)
      && (forall v | v in Records(files, p) :: |v.fields| == 6 && HasRows(fs, v.fields))
      && (forall r: nat | r < |Column(fs[0])| :: RowFrom(RecordKeys(), Records(files, p), fs, r))
  {
    var vs := Records(files, p);
    AllAreFileNetworks(syntax, sources, files);
    CoveringIsSingle(AllNetworks(files), p);
    FileNameColumn();
    FoldRows(SORT_KEY, RecordKeys(), vs);
    if Constant(vs) {
      FoldIsUnion(SORT_KEY, RecordKeys(), vs);
      assert vs[0] in vs;
    } else {
      FoldIsSorted(SORT_KEY, RecordKeys(), vs, 1);
    }
    assert Keys(Verdict(files, p).fields)[1] == Verdict(files, p).fields[1].key;
  }

  lemma FileNameColumn()
    ensures |RecordKeys()| == 6 && RecordKeys()[1] == Ascii("file_name") && IsSortColumn(SORT_KEY, RecordKeys(), 1)
  {
    assert |RecordKeys()[0]| == 8 && |RecordKeys()[1]| == 9;
  }
}
