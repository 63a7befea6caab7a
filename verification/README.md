# A verified model of the FireHOL blocklist agent for HAProxy

The program compiles FireHOL blocklists into a MaxMind database, serves the database to HAProxy over
SPOE, and replaces it while running. This project models its core in Dafny and proves, for all inputs
and all interleavings, what the parts promise and how they fit together.

**Compiling.** `Blocklist` reads one list: comments change the metadata in force, other lines are
networks, and the record id of the metadata is cached. `Compile` lets workers claim files from a
shared counter and insert batches into one builder. `BuilderModel` is that builder: a binary trie in a
node vector, a hash-consed pool of values (`Pool`), a columnar merge, pruning, preorder numbering,
28-bit packing and a data section with back pointers. The simple meaning is "address -> merge of the
records of the covering networks". It is refined stage by stage, from the inductive trie (`Trie`) and
the content order (`ContentOrder`) down to the bytes (`DataFormat`, `DataSection`, `SearchTree`,
`Database`). `Database` reads those bytes back as the MaxMind DB File Format Specification 2.0
prescribes, and `PublishedDatabase` joins everything from blocklist text to the reader's answer, with
`RowCount` for the number of records an answer lists.

Four modules say what this means without the functions the code computes with. `Addresses` takes
addresses and networks as numbers, `BlocklistText` takes a list as lines and says which lines are
networks and which comment fills which column, `RowOrder` describes the rows of a merged record cell
by cell, and `FormatBytes` gives the bytes of headers, pointers, nodes and small files. `AddressAnswers`
is the end-to-end statement in these terms: for every sixteen-byte address, a published file answers
with the records of exactly the lines that name a network the address lies in, sorted by file name.

**Serving.** `Varint`, `ProtocolIo`, `TypedData`, `FrameParsing` and `FrameEncoding` are the SPOE
codec (section 3 of HAProxy's doc/SPOE.txt); `Grammar` holds repetition for any item parser, and
`FrameBytes` spells out the frames byte by byte, for all ids and values. `Agent`
and `DropCategoriesModel` decide and count. `Reload` is the hot-reload protocol, and `CronPrev` the
backward search of the scheduler.

Code that changes things in place is modelled by classes, arrays and loops proved against
specification functions; the two concurrent parts are state machines whose runs are all interleavings
of their steps. Exceptions become `None` or `false`. In a few modules an item parser or a text
function is a (mostly ghost) parameter, so that laws about repetition do not depend on what is repeated;
the parameter is always the function named in the comment.

Where the code does not do what it is meant to do, the model follows the code and states the exact
condition:

- A header of an array writes the extended type byte after the size bytes, while the format puts it
  before. An array is readable exactly if it has fewer than 29 elements or 33, 1313 or 328993
  (`DataFormat.HeaderReads`, `PublishedDatabase.RowsDecideReadability`); an array of 29 is read as a
  map of 33 entries (`DataFormat.ArrayOf29IsMisread`).
- A trie that prunes to a single leaf has no nodes, so a reader finds nothing. This happens exactly if
  all addresses share one record (`Database.ImageAnswers`, `Database.DegenerateTree`), for example
  under a network of prefix length 0 (`Database.WholeSpaceIsLost`). Both format failures are stated
  in terms of the covering records in `PublishedDatabase.PublishedAnswers`.
- `cron_prev` uses -1 both as "no occurrence" and as a time. An occurrence at -1 hides later ones from
  the earlier instants it asks about, so the search can miss an occurrence or answer with an older
  one (`CronPrev.MissesAnOccurrence`, `CronPrev.FindsAnOlderOccurrence`). `CronPrev.RightIff` says
  for every date exactly when the result is right; it is right on all dates exactly if -1 is not an
  occurrence (`CronPrev.RightOnAllDatesIff`).
- Decoding a typed value ignores header bits and cuts 32-bit numbers down. Re-encoding gives the
  original bytes exactly for canonical inputs (`TypedData.ReencodesIffCanonical`).

## Model

| member | source | states |
|---|---|---|
| ContentOrder.CmpOrder | src/mmdb_builder/builder.cpp:103-133 | the comparison of values is zero only for equal content and antisymmetric |
| ContentOrder.LessIsStrictTotalOrder | src/mmdb_builder/builder.cpp:103-133 | the content order is irreflexive, total and transitive on all values |
| ContentOrder.SortDedupSorts | src/mmdb_builder/builder.cpp:694-705 | sorting by content gives an ascending sequence with exactly the given elements |
| ContentOrder.AscendingUnique | src/mmdb_builder/builder.cpp:694-705 | an ascending sequence is determined by its set of elements |
| PoolModel.IdIffContent | src/mmdb_builder/builder.cpp:57-65 | in a valid pool two ids are equal iff their values are deeply equal, and only id 0 is null |
| PoolModel.MergedIdsAgree | src/mmdb_builder/builder.cpp:207-239 | commutativity, associativity, idempotence and the unit hold for ids: equal merges have the same id |
| PoolModel.ValStableAt | src/mmdb_builder/builder.cpp:57-101 | an id never changes its meaning when the pool grows |
| PoolModel.LessDataIsLess | src/mmdb_builder/builder.cpp:103-133 | comparing by ids, with its shortcut for equal ids, is comparing by content |
| PoolModel.LessDataIgnoresInterning | src/mmdb_builder/builder.cpp:103-133 | the order of two values is the same in any two pools, however they were interned |
| Pool.DataPool.Intern | src/mmdb_builder/builder.cpp:57-65 | returns the one id of the content, adding it only if new, and keeps the pool duplicate-free |
| Pool.DataPool.Store | src/mmdb_builder/builder.cpp:67-101 | the id of a stored value stands for exactly that value; old ids keep theirs |
| Pool.DataPool.ColumnarRows | src/mmdb_builder/builder.cpp:135-150 | recognises exactly the maps whose fields are arrays of one common length, and that length |
| Pool.ComputeColumnOrder | src/mmdb_builder/builder.cpp:152-171 | every column is compared, the one whose key is the sort key first, the others in key order |
| Pool.SortRows | src/mmdb_builder/builder.cpp:185-197 | sorts rows of ids by the content of their columns, keeping the rows |
| Pool.UniqueRows | src/mmdb_builder/builder.cpp:185-205 | drops repeated neighbours: the rows are then strictly ascending and the same set |
| Pool.DataPool.MergeColumnar | src/mmdb_builder/builder.cpp:152-205 | the new record is the merge of the two, whose rows and order `RowOrder.MergedRows` and `RowOrder.MergedIsSorted` describe |
| Pool.DataPool.DeepMerge | src/mmdb_builder/builder.cpp:207-269 | the merge of two ids stands for the merge of their values; no old id changes meaning |
| RecordMerge.TableFromTable | src/mmdb_builder/builder.cpp:152-205 | rows survive the trip through columns: columns stay aligned |
| RecordMerge.MergeIsUnion | src/mmdb_builder/builder.cpp:152-239 | merging records over the same keys gives the union of their rows, ascending unless they are equal |
| RecordMerge.MergeIsSemilattice | src/mmdb_builder/builder.cpp:207-239 | on records over the same keys the merge is commutative, associative and idempotent, with null as unit |
| RecordMerge.FoldDependsOnSet | src/mmdb_builder/builder.cpp:207-239 | the merge of many records depends only on which records occur |
| RecordMerge.FoldIsUnion | src/mmdb_builder/builder.cpp:207-239 | the merge of many records has exactly the rows of all of them |
| RecordMerge.MergeFieldsValueAt | src/mmdb_builder/builder.cpp:240-269 | maps that are not columnar merge key by key, a missing key counting as null |
| RecordMerge.MergeFieldsAscending | src/mmdb_builder/builder.cpp:240-269 | a merged map has its keys in ascending order |
| RowOrder.MergedIsSorted | src/mmdb_builder/builder.cpp:155-192 | in the merge of two different records the sort column never descends, and where it is equal the first other column that differs ascends |
| RowOrder.MergedWithoutSortColumn | src/mmdb_builder/builder.cpp:155-192 | without a sort column the first column that differs ascends |
| RowOrder.MergedRows | src/mmdb_builder/builder.cpp:172-205 | the rows of a merge are rows of its operands, cell by cell, and all of those are there |
| RowOrder.FoldIsSorted | src/mmdb_builder/builder.cpp:152-239 | the merge of many records is sorted in the same way |
| RowOrder.FoldRows | src/mmdb_builder/builder.cpp:152-239 | the rows of the merge of many records are exactly theirs, cell by cell |
| RowOrder.OtherMerges | src/mmdb_builder/builder.cpp:207-269 | null gives way, equal values stay, different arrays are joined, and otherwise the later value stays |
| RowOrder.TextOrder | src/mmdb_builder/builder.cpp:103-133 | a text is below another iff it has the smaller byte at the first difference or is a strict prefix |
| RowOrder.NumberOrder | src/mmdb_builder/builder.cpp:103-133 | numbers of one type are ordered as numbers |
| RowOrder.VariantOrder | src/mmdb_builder/builder.cpp:108-109 | values of different types are ordered by their place in the list of types |
| RowOrder.ArrayOrder | src/mmdb_builder/builder.cpp:124-128 | an array is below another iff it has the smaller element at the first difference or is a strict prefix |
| RowOrder.MapOrder | src/mmdb_builder/builder.cpp:116-123 | a map is below another iff the first differing field has the smaller key, or the same key and the smaller value, or it is a strict prefix |
| Addresses.PathSpells | src/mmdb_builder/builder.cpp:355-381 | the bits of an address, in the order they are walked, spell its number |
| Addresses.PrefixSpells | src/mmdb_builder/builder.cpp:383-399 | the bits walked for a network spell its leading bits |
| Addresses.CoversIffInNetwork | src/mmdb_builder/builder.cpp:383-399 | the path of a network leads to an address iff network and address agree in the leading bits as numbers |
| Trie.LookupInsert | src/mmdb_builder/builder.cpp:383-424 | an insertion merges the record at exactly the covered addresses and changes no other answer |
| Trie.LookupIsFold | src/mmdb_builder/builder.cpp:334-424 | after any insertions every address has the left-to-right merge of exactly the covering records |
| Trie.InsertIsGrowThenOverlay | src/mmdb_builder/builder.cpp:383-400 | inserting is walking to the node of the prefix, then merging below it |
| Trie.GrowTwice | src/mmdb_builder/builder.cpp:383-400 | walking through the ::/96 node creates the same trie as walking from the root |
| Trie.PruneKeepsLookup | src/mmdb_builder/builder.cpp:426-460 | pruning changes no answer |
| Trie.PruneIsMaximal | src/mmdb_builder/builder.cpp:426-460 | afterwards no node has two equal leaf children with data, and pruning again does nothing |
| Trie.PrunedToLeaf | src/mmdb_builder/builder.cpp:426-460 | the pruned trie is one leaf exactly if all addresses share its record |
| TrieShape.InsertAllIsShape | src/mmdb_builder/builder.cpp:334-424 | the trie built step by step is a direct function of the list of networks |
| TrieShape.InsertOrderIrrelevant | src/mmdb_builder/builder.cpp:334-424 | with columnar records the trie depends only on the set of networks |
| Nodes.Frame | src/mmdb_builder/builder.cpp:355-424 | a subtree whose nodes are untouched keeps its meaning while the node vector and the pool grow |
| Nodes.PutAtPath | src/mmdb_builder/builder.cpp:355-424 | changing the subtree at the end of a path changes the tree at that path only |
| BuilderModel.Builder.constructor | src/mmdb_builder/builder.cpp:271-277 | a new builder is valid and empty |
| BuilderModel.Builder.Descend | src/mmdb_builder/builder.cpp:355-381 | ends at the node of the prefix, whose bits are those of `Addresses.PrefixSpells`; the tree has grown along the path, splitting leaves on the way |
| BuilderModel.Builder.MergeSubtree | src/mmdb_builder/builder.cpp:402-424 | the record is merged into every leaf below the node, filling missing children, and nothing else changes |
| BuilderModel.Builder.Locate | src/mmdb_builder/builder.cpp:383-399 | the node found through the ::/96 shortcut is the node of the full prefix, and the shortcut stays 0 or the node at 96 zero bits |
| BuilderModel.Builder.InsertBits | src/mmdb_builder/builder.cpp:383-400 | the trie is the one of all networks so far and this one; the invariants hold |
| BuilderModel.Builder.StoreData | src/mmdb_builder/builder.cpp:285-288 | the id stands for the record and the trie keeps its meaning |
| BuilderModel.Builder.InsertParsed | src/mmdb_builder/builder.cpp:334-341 | a batch is inserted in order, each entry under the record its id stood for |
| BuilderModel.Builder.PruneTree | src/mmdb_builder/builder.cpp:426-460 | the subtree becomes the pruned subtree, whatever the depth limit, and nothing outside it changes |
| BuilderModel.Builder.AssignNodeIds | src/mmdb_builder/builder.cpp:462-475 | internal nodes get consecutive numbers in preorder, each exactly once |
| BuilderModel.Builder.CollectUsed | src/mmdb_builder/builder.cpp:477-520 | collects exactly the records at leaves, whatever the depth limit |
| BuilderModel.Builder.SortIds | src/mmdb_builder/builder.cpp:700-705 | puts the used ids in content order |
| BuilderModel.Builder.EncodeUint | src/mmdb_builder/builder.cpp:569-583 | appends the control byte and the shortest big-endian form |
| BuilderModel.Builder.EncodeScalar | src/mmdb_builder/builder.cpp:593-654 | appends the bytes of a scalar |
| BuilderModel.Builder.SerializeData | src/mmdb_builder/builder.cpp:593-654 | appends exactly the emission of the value, pointers included, and remembers offsets by id as by content |
| BuilderModel.Builder.LayOutRecords | src/mmdb_builder/builder.cpp:690-716 | the data section and the offsets are those of the records in content order |
| BuilderModel.Builder.WriteNodes | src/mmdb_builder/builder.cpp:723-759 | the buffered output is the packed pairs of the numbered nodes, in order |
| BuilderModel.Builder.Build | src/mmdb_builder/builder.cpp:682-765 | the bytes before the metadata are a function of the networks inserted, not of ids or node indices |
| Numbering.PreorderCount | src/mmdb_builder/builder.cpp:462-475 | as many nodes are numbered as the tree has internal nodes |
| Numbering.PreorderMembers | src/mmdb_builder/builder.cpp:462-475 | only internal nodes of the subtree are numbered |
| Numbering.ResolveIsRecordOf | src/mmdb_builder/builder.cpp:727-741 | the value resolved for a child is the number of its node, the count for no entry, or the data offset of its record |
| Numbering.WrittenRecords | src/mmdb_builder/builder.cpp:727-756 | the pairs written for the node vector are the records of the tree |
| SearchTree.RecordsSurvive | src/mmdb_builder/builder.cpp:740-749 | records below 2^28 are unpacked as they were packed |
| SearchTree.LinkedDetermines | src/mmdb_builder/builder.cpp:462-475 | records that link the tree are forced: the numbering is a dense preorder bijection |
| SearchTree.SearchIsLookup | src/mmdb_builder/builder.cpp:727-756 | searching the packed nodes bit by bit answers as the trie does, for every address |
| SearchTree.LeafRootFindsNothing | src/mmdb_builder/builder.cpp:727-756 | without internal nodes a search finds nothing |
| DataFormat.HeaderReads | src/mmdb_builder/builder.cpp:522-543 | type and size are read back exactly for the sizes at which the written order of bytes is harmless |
| DataFormat.ArrayOf29IsMisread | src/mmdb_builder/builder.cpp:522-543 | the header of an array of 29 reads as that of a map of 33 |
| DataFormat.PointerReads | src/mmdb_builder/builder.cpp:545-567 | every 32-bit offset is read back from its pointer |
| DataFormat.UintBytesRead | src/mmdb_builder/builder.cpp:569-583 | unsigned numbers are read back from their shortest form |
| DataFormat.IntBytesRead | src/mmdb_builder/builder.cpp:585-591 | signed 32-bit numbers are read back |
| FormatBytes.ShortHeader | src/mmdb_builder/builder.cpp:522-543 | the first bytes of every type, for all sizes below 29 |
| FormatBytes.LongTextBytes | src/mmdb_builder/builder.cpp:522-543 | the one, two or three size bytes of larger texts |
| FormatBytes.NumberBytes | src/mmdb_builder/builder.cpp:569-583 | unsigned numbers of each width: control bytes and the digits without leading zeros |
| FormatBytes.SignedBytes | src/mmdb_builder/builder.cpp:585-591 | signed numbers: control bytes and four bytes in two's complement |
| FormatBytes.PointerBytes | src/mmdb_builder/builder.cpp:545-567 | the first and the last pointer of each form |
| FormatBytes.NodeBytes | src/mmdb_builder/builder.cpp:740-749 | the seven bytes of a node, the upper half of the middle byte belonging to the left record |
| FormatBytes.TextWritten | src/mmdb_builder/builder.cpp:593-654 | a text is written out the first time and pointed to afterwards, also as a key |
| FormatBytes.RecordBytes | src/mmdb_builder/builder.cpp:593-654 | the bytes of a record of one column and one row, for all short keys and texts |
| FormatBytes.HalfSpaceFile | src/mmdb_builder/builder.cpp:682-765 | the whole file of one network that covers the upper half of all addresses |
| DataSection.EmitExact | src/mmdb_builder/builder.cpp:593-654 | a value is read back where it was written iff it is encodable, also by a reader that follows only pointers to strictly smaller offsets that hold no pointer; what was emitted before stays readable |
| Database.RecordsReadBack | src/mmdb_builder/builder.cpp:694-716 | every used record is read back at its offset iff it is encodable, with backward pointers only |
| Database.ImageAnswers | src/mmdb_builder/builder.cpp:682-765 | a query of the bytes answers as the tree does iff the record is encodable and the tree has a node |
| Database.DatabaseAnswers | src/mmdb_builder/builder.cpp:334-765 | a query of the built file gives the merge of exactly the covering records, iff that can be carried |
| Database.DegenerateTree | src/mmdb_builder/builder.cpp:426-460 | the built tree is a single leaf exactly if every address has that record |
| Database.WholeSpaceIsLost | src/mmdb_builder/builder.cpp:426-460 | a record for the whole address space is lost: every query answers "no entry" |
| Database.ReproducibleOutput | src/mmdb_builder/builder.cpp:682-765 | any order, batching or repetition of the same columnar networks gives the same bytes |
| StringUtils.Trim | src/utils/string_utils.h:13-19 | the part between leading and trailing whitespace, empty exactly for whitespace |
| StringUtils.TrimIs | src/utils/string_utils.h:9-19 | what stands between blanks, tabs, carriage returns and newlines is what is left |
| Blocklist.RecordIsColumnar | src/firehol_blocklist_ipsets/compiler.cpp:127-138 | every record is columnar over the same six keys |
| Blocklist.FileReader.UpdateDid | src/firehol_blocklist_ipsets/compiler.cpp:127-141 | the new id stands for the metadata in force |
| Blocklist.FileReader.SetSlot | src/firehol_blocklist_ipsets/compiler.cpp:176-204 | the metadata changes as the comment says (`BlocklistText.CommentLine`), and a cached id still stands for the metadata in force |
| Blocklist.FileReader.Append | src/firehol_blocklist_ipsets/compiler.cpp:214-221 | one more network in the batch, tagged with the record of the current metadata |
| Blocklist.FileReader.Push | src/firehol_blocklist_ipsets/compiler.cpp:219-223 | the batch is flushed at exactly 32768 entries, and a cached id stays right |
| Blocklist.FileReader.AddEntry | src/firehol_blocklist_ipsets/compiler.cpp:207-223 | the network is tagged with the record of the current metadata, cached or not |
| Blocklist.FileReader.Flush | src/firehol_blocklist_ipsets/compiler.cpp:145-148 | the builder has all networks read so far |
| Blocklist.ProcessFile | src/firehol_blocklist_ipsets/compiler.cpp:106-235 | the builder receives exactly the networks of the file in order, each under the record in force at its line (`BlocklistText.FileMeans`); a malformed file fails after exactly the full batches before its malformed line |
| BlocklistText.Splits | src/firehol_blocklist_ipsets/compiler.cpp:150-161 | every text is a sequence of lines |
| BlocklistText.LinesAre | src/firehol_blocklist_ipsets/compiler.cpp:154-161 | the lines visited are those of the text, whether or not the last one ends in a newline |
| BlocklistText.ClassifyComment | src/firehol_blocklist_ipsets/compiler.cpp:163-174 | a line is a comment with key and value iff it begins with # and these surround its first colon, trimmed |
| BlocklistText.ClassifyEntry | src/firehol_blocklist_ipsets/compiler.cpp:163-209 | a line is an entry iff it is not blank and does not begin with # |
| BlocklistText.CommentLine | src/firehol_blocklist_ipsets/compiler.cpp:176-204 | after a comment each column still holds the value of the last comment with its own key |
| BlocklistText.RecordSays | src/firehol_blocklist_ipsets/compiler.cpp:127-138 | which of the six columns holds which part of the metadata |
| BlocklistText.FileMeans | src/firehol_blocklist_ipsets/compiler.cpp:106-235 | the networks read are those of the network lines before the first malformed one, in order; each has the bits its line names and, column by column, the last comment before its line |
| Compile.StepKeeps | src/firehol_blocklist_ipsets/compiler.cpp:352-402 | every step keeps the claims, the sums, the inserted networks and the outcome consistent |
| Compile.NoFileTwice | src/firehol_blocklist_ipsets/compiler.cpp:363-373 | in every interleaving files are claimed in order, once each, and two workers never hold the same file |
| Compile.PublishedIsComplete | src/firehol_blocklist_ipsets/compiler.cpp:352-435 | on success each file was read once and to its end, the total is the sum of the counts, and the bytes are those of the files in order |
| Compile.FailureNeverPublishes | src/firehol_blocklist_ipsets/compiler.cpp:374-402 | once a worker has failed the target is never replaced |
| RowCount.MergeCounts | src/mmdb_builder/builder.cpp:152-239 | the merge of one-row records has exactly one row for each distinct record |
| RowCount.MergeDetermines | src/mmdb_builder/builder.cpp:152-239 | two merges of one-row records are equal iff the same records were merged |
| PublishedDatabase.PublishedSourcesParse | src/firehol_blocklist_ipsets/compiler.cpp:352-419 | a database is published only if every source could be read, and then with all its networks |
| PublishedDatabase.PublishedAnswers | src/firehol_blocklist_ipsets/compiler.cpp:318-437 | from text to answers: a published file gives an address the merge of the covering records iff nothing covers it, or some other address is covered by different records and the number of distinct covering records is below 29 or 33, 1313 or 328993 |
| AddressAnswers.CoveredMeans | src/firehol_blocklist_ipsets/compiler.cpp:106-235 | the records merged for a sixteen-byte address are those of the lines naming a network it lies in, and each such line has one |
| AddressAnswers.AddressAnswer | src/firehol_blocklist_ipsets/compiler.cpp:327-435 | for every sixteen-byte address the published file answers with their merge, iff no line names it or the answer varies and the number of records is readable |
| AddressAnswers.VerdictIsSorted | src/firehol_blocklist_ipsets/compiler.cpp:336-336 | the answer lists exactly the rows of those records, sorted by file name, and on equal names by the first other column that differs |
| PublishedDatabase.VerdictIsUnion | src/firehol_blocklist_ipsets/compiler.cpp:123-126 | the rows of an answer are exactly the rows of the covering records |
| PublishedDatabase.VerdictReadable | src/mmdb_builder/builder.cpp:522-543 | a merge of blocklist records is readable iff the number of distinct records is |
| PublishedDatabase.VariesIffFork | src/mmdb_builder/builder.cpp:426-460 | the built tree has a node iff some address is covered by other records |
| PublishedDatabase.RowsDecideReadability | src/mmdb_builder/builder.cpp:522-543 | a record of text columns is readable exactly for fewer than 29 rows, or 33, 1313 or 328993 |
| Varint.ValueIffEncoded | src/spoa/varint.h:44-72 | a number is read exactly from the byte strings that begin with its encoding |
| Varint.PrefixFree | src/spoa/varint.h:76-100 | no encoding is a prefix of another |
| Varint.ValueUnlessTruncated | src/spoa/varint.h:44-72 | every byte string begins with one encoding or is truncated |
| Varint.EncodedSizeBound | src/spoa/varint.h:20-34 | ten bytes suffice for every 64-bit number, and are needed |
| Varint.EncodedSize | src/spoa/varint.h:23-34 | the length of the encoding |
| Varint.Decode | src/spoa/varint.h:44-72 | succeeds iff the input begins with the encoding of a 64-bit number, rejects exactly truncation and overflow, and consumes the encoded size |
| Varint.DecodeChain | src/spoa/varint.h:53-72 | the loop agrees with the reference reading, and every shift it makes is 4, 11 and so on up to 60 |
| Varint.Value64OfPrefix | src/spoa/varint.h:44-72 | every strict prefix of an encoding is rejected |
| Varint.EncodeUnsafe | src/spoa/varint.h:103-117 | writes exactly the encoding and touches no other byte |
| Varint.EncodeBounded | src/spoa/varint.h:76-100 | fails iff the capacity is below the encoded size; then the capacity holds the first bytes of the encoding |
| Varint.EncodeToVec | src/spoa/varint.h:120-125 | appends exactly the encoding |
| Varint.ValueIsSum | src/spoa/varint.h:42-71 | a complete chain of bytes stands for their sum, the first weighed once, the second 2^4 times and each further one 2^7 times as much |
| Varint.EncodedSizes | src/spoa/varint.h:23-34 | the numbers at which an encoding becomes longer |
| ProtocolIo.TextIff | src/spoa/protocol_io.h:76-84 | a string is read exactly where its length-prefixed form stands |
| ProtocolIo.Reader.ReadBytes | src/spoa/protocol_io.h:56-63 | takes the next bytes, or fails without moving iff there are too few |
| ProtocolIo.Reader.ReadVarint | src/spoa/protocol_io.h:67-74 | takes the number at the cursor and advances by its encoding |
| ProtocolIo.Reader.ReadLengthPrefixed | src/spoa/protocol_io.h:76-82 | takes the string at the cursor, or fails; the cursor stays in bounds |
| ProtocolIo.BufferWriter.WriteBytes | src/spoa/protocol_io.h:111-117 | appends all bytes or, iff they do not fit, changes nothing |
| ProtocolIo.BufferWriter.WriteByte | src/spoa/protocol_io.h:104-109 | appends the byte or, iff full, changes nothing |
| ProtocolIo.BufferWriter.WriteVarint | src/spoa/protocol_io.h:119-126 | appends the encoding or, iff it does not fit, changes nothing |
| ProtocolIo.BufferWriter.WriteLengthPrefixed | src/spoa/protocol_io.h:128-131 | appends length and bytes, and fails iff both together do not fit; then only the length may stay behind |
| ProtocolIo.BufferWriter.WriteU32Be | src/spoa/protocol_io.h:137-146 | appends the four bytes that read back as the number |
| TypedData.RoundTrip | src/spoa/typed_data.cpp:43-124 | every value is read back from its encoding followed by any bytes, consuming exactly it |
| TypedData.TruncationRejected | src/spoa/typed_data.cpp:86-124 | every strict prefix of an encoding is rejected |
| TypedData.PrefixRejected | src/spoa/typed_data.cpp:86-124 | every strict prefix of what any decoding consumed is rejected |
| TypedData.ValueLocal | src/spoa/typed_data.cpp:86-130 | decoding consumes at least a byte, stays in bounds and depends on nothing further |
| TypedData.ReencodesIffCanonical | src/spoa/typed_data.cpp:43-124 | re-encoding gives the bytes consumed iff header bits are clear and 32-bit numbers were not cut |
| TypedData.EncodedSize | src/spoa/typed_data.cpp:18-41 | the precomputed size is the length of the encoding |
| TypedData.EncodeTo | src/spoa/typed_data.cpp:43-75 | appends the encoding, and fails iff it does not fit; what then stays behind is stated |
| TypedData.EncodeAppend | src/spoa/typed_data.cpp:77-84 | appends the encoding; the writer cannot fail |
| TypedData.DecodeFrom | src/spoa/typed_data.cpp:86-124 | takes the value at the cursor and advances by what it takes |
| Grammar.ManyNeed | src/spoa/frame.cpp:140-150 | a number of items needs at least that many times their least size |
| Grammar.ManyRoundTrip | src/spoa/frame.cpp:146-150 | a counted run of items is read back, whatever follows |
| Grammar.AllRoundTrip | src/spoa/frame.cpp:30-35 | a run of items to the end of the input is read back |
| FrameParsing.GuardIsInvisible | src/spoa/frame.cpp:140-145 | an impossible argument count is rejected by the parser without the guard too |
| FrameParsing.ReadArg | src/spoa/frame.cpp:24-27 | takes the argument at the cursor |
| FrameParsing.ReadMessage | src/spoa/frame.cpp:138-151 | with the guard, takes exactly the message the grammar without it gives |
| FrameParsing.ParseNotify | src/spoa/frame.cpp:133-154 | the messages of the rest of the payload, or a failure; ends on every input |
| FrameParsing.ParseHello | src/spoa/frame.cpp:99-116 | for each known key the last field of the right type decides |
| FrameParsing.ParseDisconnect | src/spoa/frame.cpp:118-131 | for each known key the last field of the right type decides |
| FrameParsing.Parse | src/spoa/frame.cpp:158-179 | the frame the payload spells, for every byte string and every frame type |
| FrameParsing.NotifyRoundTrip | src/spoa/frame.cpp:133-179 | parsing inverts serialization for all ids, messages, arguments and flags |
| FrameParsing.ParsedNotifyIsStable | src/spoa/frame.cpp:133-179 | whatever was parsed serializes to something that parses the same |
| FrameParsing.FieldFramesRoundTrip | src/spoa/frame.cpp:99-131 | hello and disconnect frames read back from any list of fields |
| FrameBytes.FlagBytes | src/spoa/typed_data.cpp:43-75 | null is 0x00, false 0x01 and true 0x11 |
| FrameBytes.SignedBytes | src/spoa/typed_data.cpp:43-75 | signed numbers: type byte and the two's complement as a number |
| FrameBytes.UnsignedBytes | src/spoa/typed_data.cpp:43-75 | unsigned numbers: type byte and the number |
| FrameBytes.AddressBytes | src/spoa/typed_data.cpp:43-75 | addresses: type byte and the four or sixteen bytes |
| FrameBytes.TextBytes | src/spoa/typed_data.cpp:43-75 | texts: type byte, length and bytes |
| FrameBytes.NotifyBytes | src/spoa/frame.cpp:133-179 | a NOTIFY of one message with one address, spelled out for all ids, flags, names and addresses |
| FrameBytes.HelloBytes | src/spoa/frame.cpp:99-116 | a hello spelled out: which field fills which part |
| FrameBytes.DisconnectBytes | src/spoa/frame.cpp:118-131 | a disconnect spelled out |
| FrameBytes.LastTextIsLast | src/spoa/frame.cpp:99-116 | of several fields with one key the last text counts |
| FrameBytes.AckBytes | src/spoa/frame.cpp:220-243 | the bytes of every ACK of the agent: length, type, flags, ids, SET-VAR, session scope, name, and 0x11 or 0x01 for the decision |
| FrameBytes.RefusalBytes | src/spoa/spoa_agent.cpp:154-158 | the bytes of the disconnect for an unsupported type: status 14 and its reason |
| FrameBytes.GreetingBytes | src/spoa/frame.cpp:181-188 | the bytes of the agent's hello: version 2.0, the frame size offered, pipelining |
| FrameEncoding.AddSize | src/spoa/frame.cpp:39-45 | fails exactly if the sum exceeds the 32-bit frame length |
| FrameEncoding.FieldSize | src/spoa/frame.cpp:47-51 | the size of a field, failing exactly beyond the limit |
| FrameEncoding.BeginFrame | src/spoa/frame.cpp:61-83 | followed by any body of the announced size it is the frame of that body |
| FrameEncoding.EncodeFields | src/spoa/frame.cpp:85-97 | the bytes of the frame, or a failure exactly if it is too long |
| FrameEncoding.EncodeAgentHello | src/spoa/frame.cpp:181-188 | the hello frame; it is never too long |
| FrameEncoding.EncodeAgentDisconnect | src/spoa/frame.cpp:190-198 | the disconnect frame, or a failure exactly if it is too long |
| FrameEncoding.FrameReadsBack | src/spoa/frame.cpp:61-83 | the prefix counts the bytes that follow, and type, ids and body are read back |
| FrameEncoding.FieldFrameReadsBack | src/spoa/frame.cpp:85-97 | the fields of a frame are read back |
| FrameEncoding.ActionsRoundTrip | src/spoa/frame.cpp:234-240 | the actions of an ACK are read back in order |
| FrameEncoding.ActionsSize | src/spoa/frame.cpp:203-210 | the size of all actions, failing exactly beyond the limit |
| FrameEncoding.EnvelopeSize | src/spoa/frame.cpp:211-215 | the frame size, failing exactly beyond the limit |
| FrameEncoding.EncodeAckInto | src/spoa/frame.cpp:220-243 | 0 iff the buffer is too small, otherwise precisely the ACK at its head and nothing else; no write fails |
| FrameEncoding.EncodeAck | src/spoa/frame.cpp:245-252 | the same bytes in a vector |
| FrameEncoding.IpBadFits | src/spoa/spoa_agent.cpp:160-170 | for all ids the ACK takes at most 40 of the 64 bytes |
| DropCategoriesModel.DropCategories.Load | src/spoa/drop_categories.cpp:9-17 | the names are exactly the non-empty trimmed items, all at zero; the empty name is never stored |
| DropCategoriesModel.DropCategories.MatchAndIncrement | src/spoa/drop_categories.cpp:46-54 | counts a configured category once and says so |
| DropCategoriesModel.DropCategories.MatchFirst | src/spoa/drop_categories.cpp:56-64 | counts only the first configured category of a list |
| DropCategoriesModel.TotalBumped | src/spoa/drop_categories.cpp:52-52 | one increment raises the sum of all counters by one |
| Agent.FirstMatchIsFirst | src/spoa/spoa_agent.cpp:43-57 | there is a match iff some readable category is configured, and it is the first such |
| Agent.SpoaAgent.EvaluateLookup | src/spoa/spoa_agent.cpp:30-65 | decision and counters follow the first match, whether or not logging is enabled |
| Agent.SpoaAgent.EvaluateArgument | src/spoa/spoa_agent.cpp:67-112 | only supported types are looked up; errors and lookups are counted |
| Agent.SpoaAgent.EvaluateAll | src/spoa/spoa_agent.cpp:140-153 | decision and counters after all arguments of all messages |
| Agent.SpoaAgent.HandleNotify | src/spoa/spoa_agent.cpp:138-177 | disconnects iff some argument of some message is neither an address nor a string; otherwise the receiver reads ip_bad as true iff for some argument of some message the lookup succeeds with a configured category |
| Agent.SpoaAgent.HandleFrame | src/spoa/spoa_agent.cpp:179-212 | the reply and the counters for every payload |
| Agent.Acknowledge | src/spoa/spoa_agent.cpp:160-176 | the stack buffer always suffices |
| Agent.AckReadsBack | src/spoa/spoa_agent.cpp:160-170 | the receiver finds one session variable, named ip_bad, with the decision as its value |
| Agent.SomeBlockedIff | src/spoa/spoa_agent.cpp:43-60 | the decision is "bad" iff a member of the answer for an argument of a message is configured |
| Agent.SomeUnsupportedIff | src/spoa/spoa_agent.cpp:67-77 | a frame is refused iff an argument of a message is neither an address nor a string |
| Agent.BlockedForIsCount | src/spoa/spoa_agent.cpp:43-60 | a counter grows by the number of arguments for which its category is the first configured member |
| Agent.LookedIsCount | src/spoa/spoa_agent.cpp:67-112 | every address and every string is one lookup, if there is a database |
| Agent.ErrorsIsCount | src/spoa/spoa_agent.cpp:30-42 | every failed lookup is one error |
| Agent.CountersConserve | src/spoa/spoa_agent.cpp:43-60 | the counters grow in total by the number of blocked arguments |
| Agent.CounterOf | src/spoa/spoa_agent.cpp:43-60 | each counter grows by the arguments whose first match it is |
| Agent.BlockedIffSome | src/spoa/spoa_agent.cpp:58-60 | something is counted iff the decision is "bad" |
| Agent.RunConserves | src/spoa/spoa_agent.cpp:138-153 | over any run of frames and database versions the counters grow by the blocked arguments |
| Reload.Scan | src/mmdb/mmdb_reload.cpp:173-190 | a buffer stops the watcher iff the directory is gone, and otherwise flags a change iff one was flagged before, the queue overflowed, or a database event has the name of the database |
| Reload.StepKeeps | src/mmdb/mmdb_reload.cpp:83-199 | every step keeps the newest version published, failed, in progress or announced |
| Reload.NoLostUpdate | src/mmdb/mmdb_reload.cpp:141-199 | an idle watcher with no overflow and no event of its database queued has published the newest version, unless loading it failed |
| Reload.NeverBackwards | src/mmdb/mmdb_reload.cpp:126-139 | published versions never decrease |
| Reload.CounterTrails | src/mmdb/mmdb_reload.cpp:130-131 | the counter trails the published reloads by at most the one in progress |
| Reload.FailureKeepsSnapshot | src/mmdb/mmdb_reload.cpp:126-139 | only a completed load replaces the snapshot |
| Reload.WatcherSettles | src/mmdb/mmdb_reload.cpp:141-199 | left alone at any point of a run the watcher comes to rest in bounded steps, with the newest version published or found unloadable |
| CronPrev.CronPrev | src/job_scheduler/croncpp.h:1592-1643 | asks at most 34 times; if the forward search keeps its promise, the result is the greatest earlier occurrence exactly under the condition of `RightIff` |
| CronPrev.Probe | src/job_scheduler/croncpp.h:1607-1624 | finds the smallest window in range that passes the test |
| CronPrev.Bisect | src/job_scheduler/croncpp.h:1628-1638 | the halving, within the halvings of the window |
| CronPrev.RightIff | src/job_scheduler/croncpp.h:1592-1643 | for every date the result is right iff the last occurrence is not at -1 and the deciding window and the halving ask about no instant that an occurrence at -1 hides |
| CronPrev.RightOnAllDatesIff | src/job_scheduler/croncpp.h:1592-1643 | the code is right on all dates iff -1 is not an occurrence |
| CronPrev.LateWindowIsRight | src/job_scheduler/croncpp.h:1607-1642 | the result is right whenever a window starting at -1 or later holds an occurrence |
| CronPrev.BlindWindowsFail | src/job_scheduler/croncpp.h:1607-1626 | the result is INVALID_TIME and wrong whenever no window passes although something occurs after -1 |
| CronPrev.MissesAnOccurrence | src/job_scheduler/croncpp.h:1607-1626 | with occurrences at -1 and 500, the search before 1000 finds none |
| CronPrev.FindsAnOlderOccurrence | src/job_scheduler/croncpp.h:1628-1642 | with occurrences at -2000, -1 and 500, the search before 1000 answers -2000 |

## Left out

- Floating-point values: NaN breaks the equality that hash-consing rests on.
- The metadata section after the data section: fixed content; queries are proved for any bytes there.
- The builder after `build`: pruning may detach the shortcut node, and `build` is documented as final.
- 32-bit overflow of node indices, value ids and record values: indices are unbounded; queries assume the file fits the format (`FitsFormat`), and data offsets do wrap at 2^32.
- 64-bit overflow of counters and sizes: counters are natural numbers.
- Parsing of addresses and dates (`parse_network`, `strptime`): parameters of the blocklist model.
- Opening and reading files, empty-directory handling, file order by size: a file is its text.
- Real threads, locks and parallel tree passes: a locked batch is one step, and parallel passes are sequential.
- Hash tables: the pool index and the category table are maps.
- Columns whose texts exceed the 24-bit size form: `PublishedDatabase.PublishedAnswers` and `AddressAnswers.AddressAnswer` are stated for shorter texts; `Database.DatabaseAnswers` covers all.
- In-place writing of the database file: a new version appears by renaming, in one step.
- Closing the reloadable database: `close` withdraws the snapshot and is not a step of the protocol.
- The cron field search, expression parsing and the rejection of an empty expression: they depend on calendar functions; the forward search is a parameter.
- Sockets, futures, and splitting the byte stream into frames: the agent is modelled from payload to reply bytes.
- The text of error messages and log lines: an exception is a failure without a message.
- Database lookups through libmaxminddb: an abstract function from values to results; its agreement with the format is the subject of `Database.Query`.
- Sorted name listing, Prometheus registration, git synchronization, environment and start-up code: no hard property.
