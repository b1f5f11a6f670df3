# A verified model of LevelDB and nanopb

RomanWalk vendors two pieces of code that carry real invariants: **LevelDB**, a log-structured storage engine
(`RomanWalk/Pods/leveldb-library`), and **nanopb**, an encoder and decoder for the Protocol Buffers wire format
(`RomanWalk/Pods/nanopb`).  This project models both in Dafny and proves what they are for.  Run
`dafny verify dfyconfig.toml` to check it.

Code that works on objects, buffers or loops is modelled by classes and methods with the source's fields and
branches, each proved against a specification function or predicate; what the source promises is then proved about
those specifications.  Where threads interleave (skip list, writer queue, background work), each method or relation is
one atomic step, and the results hold for every order of steps.

## Main results

- **A compaction preserves reads exactly when it exposes nothing.**  For every version, every choice of inputs the
  code can make and every cutting of the output into files, the installed version is well-formed, and every read at
  every live snapshot is unchanged if and only if no deletion is dropped while a left-out file of the next level goes on
  with its user key (`CompactionTheorem.CompactionPreservesReads`, `Database.BackgroundCompaction`).  The code closes its
  inputs over shared boundary keys at the upper level only.  `BoundaryExample.CompactExample` picks and runs a
  compaction of a well-formed version and makes a deleted value readable again;
  `CompactionTheorem.ClosedInputsExposeNothing` shows that closing them at the lower level too would prevent it.  The
  outputs hold exactly the inputs that are still needed (`CompactionTheorem.OutputsAreNeeded`), and a pick determines
  the inputs (`CompactionInputs.SelectedIsUnique`).
- **Lookups and scans are reads.**  `Database.Get` returns the newest visible entry over memtables and all levels.
  `DBIter` over `MergingIterator`, through every change of direction, is a cursor over exactly what reads at its
  snapshot find; so is the two-level iterator over the concatenation of its blocks.
- **Whole runs read the history.**  Writes, memtable switches, flushes, moves, compactions and snapshots in any order
  keep every state well-formed, and as long as no compaction exposes a value, every read at a live snapshot finds what
  the history of all writes holds (`Runs.RunIsFaithful`): a snapshot goes on reading what was there when it was taken
  (`Runs.SnapshotReadsStay`), and a key reads as it was last written (`Runs.LastWriteIsRead`).
- **From entries to bytes and back.**  Blocks, tables with index and filter, logs, write batches, version edits and
  protobuf messages: what is written is read back.  A table lookup through index keys, Bloom filter and block finds
  the first entry at or after the key, or nothing under conditions that are proved exactly; it never misses an entry
  of the key's own user.  What round trips cannot tell, tags, types and constants, is fixed by bytes in `Formats`.
- **A log gives what is in it.**  From any file exactly the whole records with matching checksums are recovered, and
  every loss is reported.  A log cut at any byte gives exactly its whole records, and damage is contained: a record
  comes back if the blocks that hold it are as written, whatever has become of the others
  (`LogDamage.DamageIsContained`).
- **Nothing acknowledged is lost, and nothing is invented.**  Across memtable switches, flushes, compactions, failing
  manifest writes, deletion of obsolete files, crashes at any point and recovery, which replays exactly the logs that
  are still wanted.
- **Group commit, skip list, cache.**  In every interleaving of writers each acknowledged batch is in the memtable
  once, in one piece and in order; searches run between any two stores of an insertion and skip nothing; tables,
  lists, references, charges and deleters of the LRU cache agree in every state.
- **nanopb** decodes what it encodes, with unknown fields anywhere, and sizing agrees with writing, so a nested
  message never fails because its size changed.  A reader that knows only some of the fields gets those
  (`ProtobufSubset.SubsetRoundTrip`), decoding fails when a required field is missing (`ProtobufSafety.LeftOut`),
  whatever decodes fits its struct (`ProtobufSafety.MessageHeld`), and of repeated values the last one counts.

## How it is put together

| files | what they model |
|---|---|
| InternalKeys, KeyBytes, Coding, Slices, Reads | keys and their order, separators, varints and fixed words, what a read means |
| MergingIterator (`Cursors`), TwoLevelIterator (`TwoLevel`), UserIterator | the iterators |
| Versions, LevelMoves, VersionEdits, EditCodec | the levels, lookups, flush placement, edits and their records |
| CompactionInputs, Compaction (`CompactionWork`), CompactionTheorem, Counterexample (`BoundaryExample`), Database, Runs | compaction, the operations of the whole, and its runs |
| Blocks, BlockBuilder (`BlockBuilding`), Bloom, FilterBlock (`FilterBlocks`), TableFormat, Tables, TableBuilder (`TableBuilding`), TableGap | table files |
| Log, LogReader (`LogReading`), LogDamage, WriteBatch (`WriteBatches`), WriteQueue (`WriteQueues`), Durability | the write path and recovery |
| SkipList (`SkipLists`) | the memtable's list under concurrent readers |
| LruHandles, HandleTable (`HandleTables`), LruCache (`LruCaches`) | the cache |
| Protobuf, ProtobufEncode (`ProtobufEncoding`), ProtobufDecode (`ProtobufDecoding`), ProtobufDecoder | nanopb: the wire format, the encoder, the decoder's specification, the decoder |
| ProtobufTheorem, ProtobufSubset, ProtobufSafety, ProtobufMerge | the round trip, readers that know less, what any decoding keeps to, repeated values |
| Formats | the formats on small examples, byte for byte |

A name in parentheses is that of the module, where it differs from the file's.

## Hypotheses

- Sequence numbers are unique among the entries of a user key, as the write path gives them out
  (`WriteQueues.WriteQueue.SequencesAscend`); merging and reading rely on it.  The smallest snapshot of a compaction
  is below the largest possible sequence number, which the loop uses as a marker.
- For the level invariants a flush, a trivial move and a compaction are one atomic step each, although the source may
  flush a memtable inside a compaction (`RomanWalk/Pods/leveldb-library/db/db_impl.cc:908`).
- Which compaction to run, where output files end and how tall skip-list nodes are is left open: the results hold for
  every choice.
- User keys stand for their rank, a real number; `KeyBytes.RankOrders` and `KeyBytes.EncodedOrder` justify this for
  the bytewise order.
- The checksum and the hash are uninterpreted functions.  A checksum is assumed to identify what was stored only where
  the code checks it and the result says so.
- Single keys, values, blocks, filters and batches stay below 4 GiB and files below 2^61 bytes, as their 32-bit and
  64-bit fields need; preconditions say so.  `TableBuilding.BuildAndGet`, which goes the whole way from entries to an
  answer, asks that all entries of the table together, with 64 bytes for each, stay below 4 GiB.  Other sizes are
  unbounded.
- Atomic loads and stores are sequentially consistent.  A manifest append is atomic, but one that fails may or may not
  have reached the disk.

## Where the code surprises

- The boundary closure is missing at the lower level of a compaction, see above.
- A writer without a batch, by which a manual compaction asks for a new memtable, may be told OK with the group of
  another writer although none was started: `WriteQueues.JoinedWithoutRoom` is a run of two writers,
  `WriteQueues.GroupWithoutRoom` says for every state when it happens, and `WriteQueues.WriteQueue.RoomOnlyForLeaders`
  that of such writers only those that led got what they asked for.
- Clearing a version edit keeps its compaction pointers, so decoding into a used edit does not give the encoded edit
  back (`EditCodec.FreshRoundTrip` says exactly when it does).
- The comment on the reverse direction of the user iterator (`RomanWalk/Pods/leveldb-library/db/db_iter.cc:44-45`)
  places the inner iterator just before all entries of the current key.  It stands at the nearest entry of an earlier
  user that the snapshot can see, or has run off the front; `UserIterator.DBIter.WhereReversed` says exactly when that
  is where the comment puts it, and `UserIterator.ReversedElsewhere` is an input for which it is not.  The model follows
  the code.
- A fragment of type 5 whose checksum is right is taken for the end of the log (`LogDamage.WhatStopsReading`).
- A table lookup may find nothing although the table holds later entries: a key after the last of a block but not
  after its index key ends the search in that block.  `Tables.WhenNothingIsFound` gives the exact condition,
  `TableGap.LookupInGap` a table and a key; no entry of the key's own user is missed (`TableBuilding.Table.InternalGet`).

## Model

| member | source | states |
|---|---|---|
| KeyBytes.RankOrders | RomanWalk/Pods/leveldb-library/util/comparator.cc:25-27 | Ranks compare as the bytewise order does, and equal ranks mean equal strings: byte strings embed in the reals in order, which is why other modules take a rank for a key |
| KeyBytes.Compare | RomanWalk/Pods/leveldb-library/include/leveldb/slice.h:101-111 | The sign of the comparison is the bytewise order, zero exactly for equal strings |
| KeyBytes.InternalCompare | RomanWalk/Pods/leveldb-library/db/dbformat.cc:51-67 | User key ascending, then packed tag descending; zero exactly when both agree |
| KeyBytes.InternalRankOrders | RomanWalk/Pods/leveldb-library/db/dbformat.cc:51-67 | One real number orders internal keys as the comparator does |
| KeyBytes.EncodedOrder | RomanWalk/Pods/leveldb-library/db/dbformat.cc:20-23 | The order of encoded internal keys is the order of the (user, sequence, type) triples that the other modules use |
| KeyBytes.ParseInternalKey | RomanWalk/Pods/leveldb-library/db/dbformat.h:165-175 | Parsing undoes encoding, and fails exactly on strings that encode no internal key |
| KeyBytes.FindShortestSeparator | RomanWalk/Pods/leveldb-library/util/comparator.cc:29-50 | The result is the start cut behind the first byte that differs, raised by one, if that leaves it below the limit, and the start otherwise; it is no longer than the start, not before it, and before the limit whenever the start is |
| KeyBytes.FindShortSuccessor | RomanWalk/Pods/leveldb-library/util/comparator.cc:52-64 | The result is no longer and not before the key, and shorter when a byte other than the last can be incremented |
| KeyBytes.InternalSeparator | RomanWalk/Pods/leveldb-library/db/dbformat.cc:69-86 | A separator lies in [start, limit) of the internal order; it is the start itself, or the first key of a shorter user key strictly between the two, and which of them is fixed by the two keys |
| KeyBytes.InternalSuccessor | RomanWalk/Pods/leveldb-library/db/dbformat.cc:88-101 | A successor is not before the key, and is the key itself or of a later user key |
| InternalKeys.LookupKeySplits | RomanWalk/Pods/leveldb-library/db/dbformat.cc:121-138 | A lookup key stands after exactly the entries of earlier users and the entries of its own user that are too new for its snapshot |
| Reads.ReadOfNewest | RomanWalk/Pods/leveldb-library/db/db_impl.cc:1100-1145 | A read returns the newest visible entry of its user, or nothing when that is a deletion |
| Reads.NewestIsUnique | RomanWalk/Pods/leveldb-library/db/dbformat.cc:51-67 | Unique sequence numbers make the newest visible entry unique |
| Reads.VisibleHasNewest | RomanWalk/Pods/leveldb-library/db/dbformat.cc:51-67 | Among visible entries of a user there is a newest one |
| Coding.VarintRoundTrip | RomanWalk/Pods/leveldb-library/util/coding.cc:47-73 | Reading a varint undoes writing it, whatever follows |
| Coding.PutVarint32 | RomanWalk/Pods/leveldb-library/util/coding.cc:47-79 | The five unrolled cases write the varint encoding |
| Coding.PutVarint64 | RomanWalk/Pods/leveldb-library/util/coding.cc:81-96 | The loop writes the varint encoding |
| Coding.GetVarint | RomanWalk/Pods/leveldb-library/util/coding.cc:112-169 | The reading loops return value and length of the varint, cut to the word size, and fail when it is too long or cut short |
| Coding.VarintFits | RomanWalk/Pods/leveldb-library/util/coding.cc:103-110 | A 32-bit number takes at most five bytes, a 64-bit number at most ten |
| Coding.VarintLength | RomanWalk/Pods/leveldb-library/util/coding.cc:103-110 | The count is the length of the encoding |
| Coding.Fixed32RoundTrip | RomanWalk/Pods/leveldb-library/util/coding.cc:9-18 | Decoding a fixed 32-bit word undoes encoding it |
| Coding.Fixed64RoundTrip | RomanWalk/Pods/leveldb-library/util/coding.cc:20-33 | The same for 64 bits |
| Coding.Fixed64Unique | RomanWalk/Pods/leveldb-library/util/coding.cc:20-33 | Eight bytes are the encoding of what they decode to |
| Coding.LengthPrefixedRoundTrip | RomanWalk/Pods/leveldb-library/util/coding.cc:98-101 | Reading a length-prefixed string undoes writing it, whatever follows |
| Coding.GetLengthPrefixedSlice | RomanWalk/Pods/leveldb-library/util/coding.cc:181-190 | The string and what follows it, or a failure when it is cut short |
| Cursors.UnionExists | RomanWalk/Pods/leveldb-library/table/merger.cc:179-189 | Sorted runs that share no internal key have a sorted union with exactly their entries |
| Cursors.MergingIterator.constructor | RomanWalk/Pods/leveldb-library/table/merger.cc:21-25 | A merging iterator over sorted children is a cursor over their union, not positioned |
| Cursors.MergingIterator.FindSmallest | RomanWalk/Pods/leveldb-library/table/merger.cc:148-161 | With each child at its first entry from position p on, the current child is the one at p |
| Cursors.MergingIterator.FindLargest | RomanWalk/Pods/leveldb-library/table/merger.cc:163-176 | With each child at its last entry up to position p, the current child is the one at p |
| Cursors.MergingIterator.SeekToFirst | RomanWalk/Pods/leveldb-library/table/merger.cc:31-37 | Positioned at the first entry of the union |
| Cursors.MergingIterator.SeekToLast | RomanWalk/Pods/leveldb-library/table/merger.cc:39-45 | Positioned at the last entry of the union |
| Cursors.MergingIterator.Seek | RomanWalk/Pods/leveldb-library/table/merger.cc:47-53 | Positioned at the first entry of the union at or after the target |
| Cursors.MergingIterator.Next | RomanWalk/Pods/leveldb-library/table/merger.cc:55-79 | One position forward, from either direction; forward mode keeps every other child at its first entry after the current one |
| Cursors.MergingIterator.Prev | RomanWalk/Pods/leveldb-library/table/merger.cc:81-108 | One position back, from either direction; reverse mode keeps every other child at its last entry before the current one |
| Cursors.MergingIterator.TurnForward | RomanWalk/Pods/leveldb-library/table/merger.cc:58-75 | Changing to the forward direction moves the children but not the position |
| Cursors.MergingIterator.TurnReverse | RomanWalk/Pods/leveldb-library/table/merger.cc:84-105 | Changing to the reverse direction moves the children but not the position |
| Cursors.OthersStayForward | RomanWalk/Pods/leveldb-library/table/merger.cc:58-75 | After a forward step the children that were not current need no move |
| Cursors.OwnerStepsReverse | RomanWalk/Pods/leveldb-library/table/merger.cc:84-108 | After a step back of the current child all children are placed for the reverse direction |
| TwoLevel.TwoLevelIterator.constructor | RomanWalk/Pods/leveldb-library/table/two_level_iterator.cc:18-33 | A two-level iterator is a cursor over the concatenation of the blocks, not positioned |
| TwoLevel.TwoLevelIterator.InitDataBlock | RomanWalk/Pods/leveldb-library/table/two_level_iterator.cc:146-161 | The data cursor walks the block of the index entry; one made from the same handle stays the same and where it is, and any other is new and not positioned |
| TwoLevel.TwoLevelIterator.SkipEmptyDataBlocksForward | RomanWalk/Pods/leveldb-library/table/two_level_iterator.cc:115-126 | From the end of a block the next entry of the concatenation is found, over any number of empty blocks |
| TwoLevel.TwoLevelIterator.SkipEmptyDataBlocksBackward | RomanWalk/Pods/leveldb-library/table/two_level_iterator.cc:128-139 | From the front of a block the previous entry of the concatenation is found, over any number of empty blocks |
| TwoLevel.TwoLevelIterator.Seek | RomanWalk/Pods/leveldb-library/table/two_level_iterator.cc:82-87 | Positioned at the first entry of the concatenation at or after the target |
| TwoLevel.TwoLevelIterator.SeekToFirst | RomanWalk/Pods/leveldb-library/table/two_level_iterator.cc:89-94 | Positioned at the first entry |
| TwoLevel.TwoLevelIterator.SeekToLast | RomanWalk/Pods/leveldb-library/table/two_level_iterator.cc:96-101 | Positioned at the last entry |
| TwoLevel.TwoLevelIterator.Next | RomanWalk/Pods/leveldb-library/table/two_level_iterator.cc:103-107 | One position forward in the concatenation |
| TwoLevel.TwoLevelIterator.Prev | RomanWalk/Pods/leveldb-library/table/two_level_iterator.cc:109-113 | One position back in the concatenation |
| TwoLevel.LowerBoundInBlock | RomanWalk/Pods/leveldb-library/table/two_level_iterator.cc:82-87 | Seeking in the first block whose index key is at or after the target finds the lower bound of the whole concatenation |
| UserIterator.ViewIsReads | RomanWalk/Pods/leveldb-library/db/db_iter.cc:34-38 | A scan at a snapshot yields exactly the user keys that a read at it finds, with the values it returns |
| UserIterator.ViewAscends | RomanWalk/Pods/leveldb-library/db/db_iter.cc:34-38 | A scan yields each user key once, in ascending order |
| UserIterator.DBIter.FindNextUserEntry | RomanWalk/Pods/leveldb-library/db/db_iter.cc:168-198 | The scan stops at the first wanted entry at or after its start, passing over hidden, invisible and deleted ones, or at the end when there is none |
| UserIterator.DBIter.FindPrevUserEntry | RomanWalk/Pods/leveldb-library/db/db_iter.cc:227-267 | The backward scan saves the last yielded entry before its start, or finds that there is none |
| UserIterator.DBIter.Next | RomanWalk/Pods/leveldb-library/db/db_iter.cc:141-166 | One position forward in the view, from either direction |
| UserIterator.DBIter.Prev | RomanWalk/Pods/leveldb-library/db/db_iter.cc:200-225 | One position back in the view, from either direction |
| UserIterator.DBIter.Seek | RomanWalk/Pods/leveldb-library/db/db_iter.cc:269-281 | Positioned at the first user key of the view at or after the target |
| UserIterator.DBIter.SeekToFirst | RomanWalk/Pods/leveldb-library/db/db_iter.cc:283-292 | Positioned at the first user key of the view |
| UserIterator.DBIter.SeekToLast | RomanWalk/Pods/leveldb-library/db/db_iter.cc:294-299 | Positioned at the last user key of the view |
| UserIterator.DBIter.Key | RomanWalk/Pods/leveldb-library/db/db_iter.cc:64-67 | The key at the position, whether it comes from the inner iterator or was saved |
| UserIterator.DBIter.CurrentValue | RomanWalk/Pods/leveldb-library/db/db_iter.cc:68-71 | The value at the position, whether it comes from the inner iterator or was saved |
| UserIterator.DBIter.TurnReverse | RomanWalk/Pods/leveldb-library/db/db_iter.cc:203-222 | Turning around leaves the inner iterator before all visible entries of the current user, or off the front |
| UserIterator.DBIter.WhereReversed | RomanWalk/Pods/leveldb-library/db/db_iter.cc:44-45 | Moving backwards, the inner iterator stands just before the entries of the current key, as the comment says, if and only if the last entry of all earlier users is visible to the snapshot, or there is none |
| UserIterator.ReversedElsewhere | RomanWalk/Pods/leveldb-library/db/db_iter.cc:227-267 | Three entries and a snapshot for which it stands elsewhere: the second entry is too new, and lies between the inner iterator and the current key |
| Versions.FindFile | RomanWalk/Pods/leveldb-library/db/version_set.cc:88-106 | The first file whose largest key is at or after a key |
| Versions.TableGet | RomanWalk/Pods/leveldb-library/table/table.cc:216-244 | The first entry of a table at or after a key, or none, and then no entry from the key on is of its user (what TableBuilding proves of the bytes behind it) |
| Versions.SearchFile | RomanWalk/Pods/leveldb-library/db/version_set.cc:263-276 | One table gives its newest visible entry of the user, or has none |
| Versions.NewestFirst | RomanWalk/Pods/leveldb-library/db/version_set.cc:278-280 | The files by number, newest first, none lost |
| Versions.FilesHolding | RomanWalk/Pods/leveldb-library/db/version_set.cc:349-360 | Exactly the files whose range holds the user |
| Versions.SearchLevel0 | RomanWalk/Pods/leveldb-library/db/version_set.cc:349-417 | Searching overlapping files newest first finds the newest visible entry of the level |
| Versions.SearchLevel | RomanWalk/Pods/leveldb-library/db/version_set.cc:365-417 | One file of a sorted level is enough to find the newest visible entry of the level |
| Versions.FirstHasIt | RomanWalk/Pods/leveldb-library/db/version_set.cc:365-382 | The first file that ends at or after the lookup key has what the later files have of the user, or newer |
| Versions.Get | RomanWalk/Pods/leveldb-library/db/version_set.cc:326-421 | In a version whose shallower levels are newer, the level-by-level lookup returns the newest visible entry over all files, or says that there is none |
| Versions.LookupIsRead | RomanWalk/Pods/leveldb-library/db/version_set.cc:326-421 | A lookup result answers a read |
| CompactionInputs.GetOverlappingInputs | RomanWalk/Pods/leveldb-library/db/version_set.cc:519-559 | At level 0 the restart loop ends, with exactly the files that overlap the least range around the given one that is closed under overlap; elsewhere exactly the overlapping files |
| CompactionInputs.ExtensionIsForced | RomanWalk/Pods/leveldb-library/db/version_set.cc:541-553 | Every closed range around the given one holds each file that makes the loop restart |
| CompactionInputs.GetRange | RomanWalk/Pods/leveldb-library/db/version_set.cc:1205-1224 | The smallest and the largest key of some files |
| CompactionInputs.FindSmallestBoundaryFile | RomanWalk/Pods/leveldb-library/db/version_set.cc:1344-1362 | The file that starts first after a key with the same user key, None exactly when there is none |
| CompactionInputs.AddBoundaryInputs | RomanWalk/Pods/leveldb-library/db/version_set.cc:1378-1401 | The loop ends with the files it began with and then, one after the other, each time the first file of the level that goes on with the user key reached so far, until none does; neighbouring files stay neighbours |
| CompactionInputs.BoundaryGrows | RomanWalk/Pods/leveldb-library/db/version_set.cc:1386-1400 | Each file added moves the largest key of the inputs strictly up |
| CompactionInputs.BoundaryIsNext | RomanWalk/Pods/leveldb-library/db/version_set.cc:1344-1362 | In a sorted level the boundary file is the one right after the inputs |
| CompactionInputs.OverlappingIsSlice | RomanWalk/Pods/leveldb-library/db/version_set.cc:519-559 | In a sorted level the files that overlap a range are neighbours |
| CompactionInputs.CompleteInputs | RomanWalk/Pods/leveldb-library/db/version_set.cc:1403-1415 | What was picked is completed just so, and all files of the next level that it overlaps then are added |
| CompactionInputs.SetupOtherInputs | RomanWalk/Pods/leveldb-library/db/version_set.cc:1403-1462 | The inputs are those that the pick leads to, unless there are lower inputs and what the range of all of them leads to has more upper files, no more lower ones and fits the size limit: then it is those; the lower inputs are the same in both cases |
| CompactionInputs.SelectedIsUnique | RomanWalk/Pods/leveldb-library/db/version_set.cc:1403-1462 | A pick and a size limit determine the inputs, at every level |
| CompactionInputs.PickCompaction | RomanWalk/Pods/leveldb-library/db/version_set.cc:1270-1322 | Any file may be picked; at level 0 with it comes all it overlaps, transitively; the inputs are those selected for that pick |
| CompactionInputs.CompactRange | RomanWalk/Pods/leveldb-library/db/version_set.cc:1464-1495 | A manual compaction gets None exactly when no file overlaps the range; otherwise the inputs selected for its pick: at level 0 all files of the least closed range around it, deeper the first overlapping files up to the one that reaches the limit |
| CompactionWork.Compaction.IsBaseLevelForKey | RomanWalk/Pods/leveldb-library/db/version_set.cc:1533-1552 | For user keys asked in ascending order, the advancing pointers answer exactly whether no deeper file holds the key in its range |
| CompactionWork.ShouldDrop | RomanWalk/Pods/leveldb-library/db/db_impl.cc:930-962 | The state kept from the entry before decides exactly the drop rule over all entries seen |
| CompactionWork.PredecessorDecides | RomanWalk/Pods/leveldb-library/db/db_impl.cc:937-949 | Whether a newer entry of the same user is old enough for every snapshot shows at the entry just before |
| CompactionWork.KeptIsFilter | RomanWalk/Pods/leveldb-library/db/db_impl.cc:930-1000 | What is kept is sorted, and is exactly the inputs that are not dropped |
| CompactionWork.DoCompactionWork | RomanWalk/Pods/leveldb-library/db/db_impl.cc:878-1036 | However the output is cut into files, the files are well-formed and together hold exactly the undropped inputs in order |
| CompactionTheorem.CompactionKeepsVersionOk | RomanWalk/Pods/leveldb-library/db/db_impl.cc:860-876 | After a compaction levels below the first are sorted and disjoint, shallower levels hold only newer entries, and file numbers stay unique |
| CompactionTheorem.CompactionPreservesReads | RomanWalk/Pods/leveldb-library/db/db_impl.cc:890-1005 | Every read at every live snapshot returns what it returned before, if and only if the inputs expose no deleted value: no deletion is dropped while a left-out file of the next level goes on with its user |
| CompactionTheorem.ClosedInputsExposeNothing | RomanWalk/Pods/leveldb-library/db/version_set.cc:1403-1415 | Inputs that are closed over shared boundary keys at the next level too expose nothing |
| CompactionTheorem.LostNewest | RomanWalk/Pods/leveldb-library/db/db_impl.cc:945-958 | Only an old deletion with nothing deeper can be lost as the newest entry of a user |
| CompactionTheorem.OutputsAreNeeded | RomanWalk/Pods/leveldb-library/db/db_impl.cc:945-962 | An entry is in an output if and only if it is an input that some snapshot from the smallest on sees as the newest of its user among the inputs, and that is not an old deletion of a user in the range of no file from two levels down |
| CompactionTheorem.ExposedIsRead | RomanWalk/Pods/leveldb-library/db/db_impl.cc:945-958 | A deletion dropped over a left-out value makes the value readable again |
| CompactionTheorem.ReadPreserved | RomanWalk/Pods/leveldb-library/db/db_impl.cc:890-1005 | A read at a live snapshot, of a user of which nothing is exposed, is unchanged |
| CompactionTheorem.LowerOnOneSide | RomanWalk/Pods/leveldb-library/db/version_set.cc:1403-1415 | A file of the next level that is left out lies before all inputs or after all inputs |
| BoundaryExample.DeletedValueComesBack | RomanWalk/Pods/leveldb-library/db/version_set.cc:1407-1422 | With the inputs the code chooses for a concrete version, a deleted value becomes readable again, whatever the merge does |
| BoundaryExample.ExampleInputs | RomanWalk/Pods/leveldb-library/db/version_set.cc:1403-1462 | Those are the inputs: the upper file, and the one lower file it overlaps |
| BoundaryExample.CompactExample | RomanWalk/Pods/leveldb-library/db/version_set.cc:1270-1322 | Picking and running the compaction of that version, as the code goes, turns a read at the oldest snapshot from nothing into the deleted value |
| VersionEdits.Builder.Apply | RomanWalk/Pods/leveldb-library/db/version_set.cc:650-692 | One edit: deletions are gathered, and additions lift the deletion of their number |
| VersionEdits.Builder.SaveLevel | RomanWalk/Pods/leveldb-library/db/version_set.cc:695-739 | The merge gives the level in order, exactly the base and added files without the deleted ones |
| VersionEdits.Builder.SaveTo | RomanWalk/Pods/leveldb-library/db/version_set.cc:695-754 | The same for all levels |
| VersionEdits.ApplyIsOne | RomanWalk/Pods/leveldb-library/db/version_set.cc:650-692 | Gathering one more edit has the effect of applying it to the files live so far |
| VersionEdits.ApplyEdits | RomanWalk/Pods/leveldb-library/db/version_set.cc:650-754 | Gathering any number of edits and merging once equals applying them one by one, when no number is added twice to a level |
| EditCodec.VersionEdit.EncodeTo | RomanWalk/Pods/leveldb-library/db/version_edit.cc:41-85 | The encoding is the tagged items in the order of the format, deleted files ascending |
| EditCodec.VersionEdit.DecodeFrom | RomanWalk/Pods/leveldb-library/db/version_edit.cc:107-205 | Decoding succeeds exactly on well-formed items, and adds them to what clearing leaves |
| EditCodec.VersionEdit.Clear | RomanWalk/Pods/leveldb-library/db/version_edit.cc:26-39 | Clearing an edit leaves its compaction pointers |
| EditCodec.ItemRoundTrip | RomanWalk/Pods/leveldb-library/db/version_edit.cc:41-205 | Each item decodes to itself, whatever follows |
| EditCodec.EditRoundTrip | RomanWalk/Pods/leveldb-library/db/version_edit.cc:26-205 | Decoding an encoded edit gives it back, with the compaction pointers of the target put before its own |
| EditCodec.FreshRoundTrip | RomanWalk/Pods/leveldb-library/db/version_edit.cc:26-205 | So decoding gives back just the edit if and only if the target held no compaction pointers |
| EditCodec.EncodeAndDecode | RomanWalk/Pods/leveldb-library/db/version_edit.cc:41-205 | The two methods together |
| LevelMoves.SomeFileOverlapsRange | RomanWalk/Pods/leveldb-library/db/version_set.cc:122-157 | The answer is whether some file overlaps the range, by scan or by binary search |
| LevelMoves.PickLevelForMemTableOutput | RomanWalk/Pods/leveldb-library/db/version_set.cc:491-516 | A flush goes as deep as level 2 allows, up to the first level at which something overlaps it there (at level 0) or one level deeper, or too many bytes overlap it two levels deeper; below level 0 no file of its level or above overlaps it |
| LevelMoves.FlushKeepsVersionOk | RomanWalk/Pods/leveldb-library/db/db_impl.cc:491-533 | Such a flush keeps levels sorted and shallower levels newer, and adds exactly its entries |
| LevelMoves.TrivialMoveKeepsVersionOk | RomanWalk/Pods/leveldb-library/db/db_impl.cc:718-733 | Moving the only input down keeps the version well-formed and its contents |
| Database.LogAndApply | RomanWalk/Pods/leveldb-library/db/version_set.cc:801-884 | The new version is the old one with the edit applied, each level in order |
| Database.CompactMemTable | RomanWalk/Pods/leveldb-library/db/db_impl.cc:535-566 | Flushing a memtable with only newer entries leaves a well-formed version with exactly its entries added, as one file where it may be placed |
| Database.MakeInputIterator | RomanWalk/Pods/leveldb-library/db/version_set.cc:1237-1268 | The input iterator is a cursor over exactly the entries of the inputs, in order |
| Database.CompactionEditInstalls | RomanWalk/Pods/leveldb-library/db/db_impl.cc:860-876 | Deleting the inputs by number and adding the outputs installs the compaction |
| Database.DeleteByNumber | RomanWalk/Pods/leveldb-library/db/version_set.cc:1525-1531 | Deleting by number takes out just the inputs |
| Database.BackgroundCompaction | RomanWalk/Pods/leveldb-library/db/db_impl.cc:688-767 | A compaction is a trivial move only if it is automatic, of one file with nothing below it; otherwise its outputs hold the inputs that are still needed and no others; the version stays well-formed, and reads at live snapshots are unchanged if and only if the inputs expose nothing |
| Database.MemTableGet | RomanWalk/Pods/leveldb-library/db/memtable.cc:100-134 | The newest visible entry of the user in the memtable, or none |
| Database.Get | RomanWalk/Pods/leveldb-library/db/db_impl.cc:1100-1145 | Memtable, then immutable memtable, then tables: the newest visible entry over all of them |
| Runs.StepKeepsWellFormed | RomanWalk/Pods/leveldb-library/db/db_impl.cc:1185-1256 | Each step, a write, memtable switch, flush, file move, compaction, or taking or releasing a snapshot, keeps levels well-formed, every layer newer than those below it, and all live snapshots at or above those compacted for |
| Runs.RunIsWellFormed | RomanWalk/Pods/leveldb-library/db/db_impl.cc:663-767 | So every state of every run is well-formed, in whatever order the steps come |
| Runs.CompactionPreservesDbReads | RomanWalk/Pods/leveldb-library/db/db_impl.cc:890-1005 | For the whole database a compaction preserves all reads from its oldest snapshot on, if and only if it exposes no value that the memtables do not hide |
| Runs.RunIsFaithful | RomanWalk/Pods/leveldb-library/db/db_impl.cc:890-905 | In every run in which no compaction has exposed a value, reads at every live snapshot, and of the newest state, find exactly what the history of all writes holds |
| Runs.SnapshotReadsStay | RomanWalk/Pods/leveldb-library/include/leveldb/db.h:98-106 | In every run without such a compaction, a snapshot reads of every user key what was there when it was taken, whatever happens until it is released |
| Runs.LastWriteIsRead | RomanWalk/Pods/leveldb-library/db/db_impl.cc:1100-1145 | In every such run, until the next write of a user key, reading it gives the value last written, or nothing after a deletion |
| Runs.HistoryGrows | RomanWalk/Pods/leveldb-library/db/db_impl.cc:1202-1227 | Along a run the history only grows, by entries that were written with sequence numbers above all before |
| Runs.GetAt | RomanWalk/Pods/leveldb-library/db/db_impl.cc:1100-1145 | In such a state a lookup through memtables and levels answers from the history of all writes |
| Blocks.DecodeEntry | RomanWalk/Pods/leveldb-library/table/block.cc:54-74 | The one-byte fast path and the general path decode the same header, and refuse one that promises more than there is |
| Blocks.HeaderRoundTrip | RomanWalk/Pods/leveldb-library/table/block_builder.cc:88-100 | The header of a written entry decodes to its three lengths, whatever follows |
| Blocks.DecodeAt | RomanWalk/Pods/leveldb-library/table/block.cc:224-251 | Each entry of a block decodes to its key suffix and value where it lies |
| Blocks.BlockIter.ParseNextKey | RomanWalk/Pods/leveldb-library/table/block.cc:224-251 | The next entry is decoded with its whole key, or the end is reached |
| Blocks.BlockIter.Next | RomanWalk/Pods/leveldb-library/table/block.cc:137-140 | One entry forward |
| Blocks.BlockIter.Prev | RomanWalk/Pods/leveldb-library/table/block.cc:142-161 | One entry back, by way of the restart point before it; so it undoes Next |
| Blocks.BlockIter.SearchRestarts | RomanWalk/Pods/leveldb-library/table/block.cc:163-189 | Binary search gives the last restart point with a key before the target, or the first restart point |
| Blocks.BlockIter.Seek | RomanWalk/Pods/leveldb-library/table/block.cc:163-201 | Positioned at the first entry at or after the target |
| Blocks.BlockIter.SeekToFirst | RomanWalk/Pods/leveldb-library/table/block.cc:203-206 | Positioned at the first entry |
| Blocks.BlockIter.SeekToLast | RomanWalk/Pods/leveldb-library/table/block.cc:208-213 | Positioned at the last entry |
| BlockBuilding.SharedLength | RomanWalk/Pods/leveldb-library/table/block_builder.cc:78-84 | The loop finds the longest common prefix |
| BlockBuilding.BlockBuilder.Add | RomanWalk/Pods/leveldb-library/table/block_builder.cc:72-106 | The entry is appended, with the prefix it shares left out except at every n-th, a restart point |
| BlockBuilding.BlockBuilder.Finish | RomanWalk/Pods/leveldb-library/table/block_builder.cc:62-70 | The bytes are the entries followed by the restart offsets and their number |
| BlockBuilding.Block.constructor | RomanWalk/Pods/leveldb-library/table/block.cc:27-39 | A block is refused exactly when its restart array does not fit |
| BlockBuilding.TrailerDecodes | RomanWalk/Pods/leveldb-library/table/block.cc:19-39 | The trailer decodes to the restart offsets that were written |
| BlockBuilding.BlockRoundTrip | RomanWalk/Pods/leveldb-library/table/block_builder.cc:62-106 | For any ascending entries and any restart interval, iterating over the built block gives them back and a seek lands on the lower bound |
| Bloom.CreateFilter | RomanWalk/Pods/leveldb-library/util/bloom.cc:28-54 | The nested loops append the filter of the keys |
| Bloom.KeyMayMatch | RomanWalk/Pods/leveldb-library/util/bloom.cc:56-80 | The loop tests all bits of the key; short filters match nothing, unknown probe counts everything |
| Bloom.MatchIs | RomanWalk/Pods/leveldb-library/util/bloom.cc:28-80 | A key matches a filter if and only if each of its bits is set by some key of the filter, for any hash function |
| Bloom.BloomIsSound | RomanWalk/Pods/leveldb-library/util/bloom.cc:28-80 | No false negatives |
| FilterBlocks.FilterBlockBuilder.StartBlock | RomanWalk/Pods/leveldb-library/table/filter_block.cc:21-27 | Filters are completed until the next one is the block's own: the first of the keys so far, the others empty |
| FilterBlocks.FilterBlockBuilder.AddKey | RomanWalk/Pods/leveldb-library/table/filter_block.cc:29-33 | The key joins the open filter |
| FilterBlocks.FilterBlockBuilder.GenerateFilter | RomanWalk/Pods/leveldb-library/table/filter_block.cc:51-75 | The flattened keys come apart again and make the next filter, empty when there are none |
| FilterBlocks.FilterBlockBuilder.Finish | RomanWalk/Pods/leveldb-library/table/filter_block.cc:35-49 | The bytes are all filters, their offsets, and where those start; each key is in the group of its block's offset |
| FilterBlocks.FilterBlockReader.constructor | RomanWalk/Pods/leveldb-library/table/filter_block.cc:77-88 | Contents that are too short or point past themselves give a reader without filters |
| FilterBlocks.FilterBlockReader.KeyMayMatch | RomanWalk/Pods/leveldb-library/table/filter_block.cc:90-104 | The answer for any contents, errors being treated as matches |
| FilterBlocks.ReaderAsks | RomanWalk/Pods/leveldb-library/table/filter_block.cc:90-104 | A reader of a built block asks exactly the filter of the group in which the block's offset falls, and matches past the last |
| FilterBlocks.NoFalseNegatives | RomanWalk/Pods/leveldb-library/table/filter_block.cc:21-104 | With a sound policy a key added while a block at some offset was being built matches at that offset |
| TableFormat.HandleRoundTrip | RomanWalk/Pods/leveldb-library/table/format.cc:15-29 | Decoding a block handle undoes encoding it, whatever follows |
| TableFormat.EncodeFooter | RomanWalk/Pods/leveldb-library/table/format.cc:31-40 | The footer is the two handles, padded, and the magic number |
| TableFormat.DecodeFooter | RomanWalk/Pods/leveldb-library/table/format.cc:42-62 | A written footer gives its handles back; a footer with another magic number is refused |
| TableFormat.ReadBlock | RomanWalk/Pods/leveldb-library/table/format.cc:64-139 | A stored block is read back; with checking on, only what was stored with its checksum is accepted |
| TableBuilding.TableBuilder.Add | RomanWalk/Pods/leveldb-library/table/table_builder.cc:94-123 | The entry joins the data block and the block before gets its index key; a block is written out if and only if it has reached the block size, trailer included |
| TableBuilding.TableBuilder.AddIndexEntry | RomanWalk/Pods/leveldb-library/table/table_builder.cc:102-109 | The waiting index entry gets a short key that fences the block off from the next key |
| TableBuilding.TableBuilder.Flush | RomanWalk/Pods/leveldb-library/table/table_builder.cc:125-139 | The data block goes to the file, its index entry waits, and the filter moves to the new offset |
| TableBuilding.TableBuilder.Finish | RomanWalk/Pods/leveldb-library/table/table_builder.cc:198-253 | The file is a table of exactly the entries added, cut where blocks were written out: blocks, index, filter, names and footer |
| Tables.SeparatorFences | RomanWalk/Pods/leveldb-library/db/dbformat.cc:69-86 | A separator is no smaller than what is before it, smaller than what is after it, and of a smaller user than that unless it is a key itself |
| Tables.BlockAnswers | RomanWalk/Pods/leveldb-library/table/table.cc:216-244 | A seek in the block that the index points at finds the first entry at or after the key in the whole table, or nothing; nothing exactly when the key is past the last entry of that block, and then no entry from the key on is of its user |
| Tables.WhenNothingIsFound | RomanWalk/Pods/leveldb-library/table/table.cc:216-244 | For every table: nothing is found if and only if the key is past all entries, or past the last of a block but not past the index key of that block, or the filter of its block refuses it |
| TableGap.LookupInGap | RomanWalk/Pods/leveldb-library/table/table.cc:216-244 | A table of two blocks, as the builder writes it, and a key between the last key of the first and its index key: a scan finds the entry of the second block, the lookup finds nothing |
| Tables.FilteredOut | RomanWalk/Pods/leveldb-library/table/table.cc:222-229 | When the filter of that block says no, no entry from the key on is of its user |
| Tables.InternalPolicyIsSound | RomanWalk/Pods/leveldb-library/db/dbformat.cc:103-119 | A filter over user keys matches every internal key of a user that it was made from |
| TableBuilding.Open | RomanWalk/Pods/leveldb-library/table/table.cc:38-82 | A finished table opens with its index, and with its filter if and only if the reader has a filter policy of the name that the writer's had |
| TableBuilding.ReadMeta | RomanWalk/Pods/leveldb-library/table/table.cc:84-134 | The filter is found if and only if the reader has a policy by its name, and read back |
| TableBuilding.Table.InternalGet | RomanWalk/Pods/leveldb-library/table/table.cc:216-244 | The entry found is the first at or after the key; nothing is found exactly when the lookup ends past the index, behind its block or at the filter, and then no entry from the key on is of its user |
| TableBuilding.BuildAndGet | RomanWalk/Pods/leveldb-library/table/table_builder.cc:94-253 | From entries to file to answer, for entries of less than 4 GiB in all: building, opening with any filter policy or none, and looking up find the first entry at or after the key, or nothing under exactly those conditions |
| TableBuilding.BloomQualifies | RomanWalk/Pods/leveldb-library/util/bloom.cc:28-80 | Bloom filters meet what that asks of a policy |
| Log.UnmaskUndoesMask | RomanWalk/Pods/leveldb-library/util/crc32c.h:29-38 | Unmasking a checksum undoes masking it |
| Log.Writer.AddRecord | RomanWalk/Pods/leveldb-library/db/log_writer.cc:34-80 | The fragmenting loop ends, also when a block has room for a header only, and appends the fragments of the record |
| Log.Writer.EmitPhysicalRecord | RomanWalk/Pods/leveldb-library/db/log_writer.cc:82-108 | One fragment with checksum, length and type |
| LogReading.Reader.ReadPhysicalRecord | RomanWalk/Pods/leveldb-library/db/log_reader.cc:189-271 | On any file: a fragment comes out only where length, type and checksum are right, damage is reported once and skips to the next block, and what a file ends with is no damage.  On a prefix of a log the next fragment comes out when it is there whole; otherwise the file ends |
| LogReading.Reader.ReadRecord | RomanWalk/Pods/leveldb-library/db/log_reader.cc:56-174 | On any file: the next whole record there is to find comes out, made of fragments in a row that are as written, or else the file has ended; corruption is reported as often as something is lost.  On a prefix of a log the next record comes out when it is there whole; otherwise nothing is reported |
| LogReading.RecoverLogFile | RomanWalk/Pods/leveldb-library/db/db_impl.cc:371-489 | From any file exactly the whole records come out, in order, and each loss is reported; a log cut at any byte gives exactly its wholly written records, and no corruption is reported |
| LogReading.WhollyWithinIsUnique | RomanWalk/Pods/leveldb-library/db/log_writer.cc:34-80 | Which records a cut log holds whole is determined by the cut, and nothing but the whole log holds them all |
| LogReading.LogRoundTrip | RomanWalk/Pods/leveldb-library/db/log_reader.cc:56-174 | Reading what was written returns the same records, of any length |
| LogDamage.DamageIsContained | RomanWalk/Pods/leveldb-library/db/log_reader.cc:189-271 | Whatever has become of the rest of a log, a record comes back if the blocks that hold its fragments are as written and reading gets as far as these |
| LogDamage.WhatStopsReading | RomanWalk/Pods/leveldb-library/db/log_reader.cc:144-151 | Nothing but a fragment of type 5 with the right checksum, which no writer makes, ends reading before the block where the file ends |
| LogDamage.BlockReached | RomanWalk/Pods/leveldb-library/db/log_reader.cc:189-271 | Reading comes to the beginning of every block, whatever lies before it |
| LogDamage.SideBySide | RomanWalk/Pods/leveldb-library/db/log_reader.cc:189-271 | Through blocks that are as written, the file and the log show the same fragments |
| SkipLists.WriterKeeps | RomanWalk/Pods/leveldb-library/db/skiplist.h:337-368 | Every single store of an insertion keeps all levels sorted lists, each within the one below |
| SkipLists.ReaderStable | RomanWalk/Pods/leveldb-library/db/skiplist.h:262-281 | No store of the writer invalidates a search in progress |
| SkipLists.ReaderKeeps | RomanWalk/Pods/leveldb-library/db/skiplist.h:262-281 | A step of a search keeps what it knows: its node is before the key, and everything skipped is too |
| SkipLists.StepKeeps | RomanWalk/Pods/leveldb-library/db/skiplist.h:262-368 | Every step of the writer or of any reader keeps the invariants |
| SkipLists.RunIsSafe | RomanWalk/Pods/leveldb-library/db/skiplist.h:262-368 | In every interleaving, every state has sorted nested levels, and every finished read gave the right answer for the list at its last step |
| SkipLists.NothingSkipped | RomanWalk/Pods/leveldb-library/db/skiplist.h:262-281 | In every interleaving, a finished search found a node at or after its key, with no node inserted before it began lying between |
| SkipLists.LevelIsSortedSublist | RomanWalk/Pods/leveldb-library/db/skiplist.h:337-368 | Following the links of a level meets its nodes in key order, all of them nodes of the lower levels |
| SkipLists.SkipList.FindGreaterOrEqual | RomanWalk/Pods/leveldb-library/db/skiplist.h:262-281 | The first node at or after the key, and the last node before it at every level |
| SkipLists.SkipList.FindLessThan | RomanWalk/Pods/leveldb-library/db/skiplist.h:285-302 | The last node before the key |
| SkipLists.SkipList.FindLast | RomanWalk/Pods/leveldb-library/db/skiplist.h:305-322 | The last node |
| SkipLists.SkipList.Insert | RomanWalk/Pods/leveldb-library/db/skiplist.h:337-368 | The new key is in the list, everything else is as it was, and the stores made are exactly steps of the writer |
| SkipLists.SkipList.Contains | RomanWalk/Pods/leveldb-library/db/skiplist.h:371-378 | Whether a node has the key |
| HandleTables.HandleTable.FindPointer | RomanWalk/Pods/leveldb-library/util/cache.cc:114-120 | The slot of the matching entry, or the last slot of its bucket |
| HandleTables.HandleTable.Lookup | RomanWalk/Pods/leveldb-library/util/cache.cc:74-76 | The matching entry, null exactly when there is none |
| HandleTables.HandleTable.Insert | RomanWalk/Pods/leveldb-library/util/cache.cc:78-92 | The table as a set: the entry is in, the one it matches is out and returned; there are never more entries than buckets |
| HandleTables.HandleTable.Remove | RomanWalk/Pods/leveldb-library/util/cache.cc:94-102 | The table as a set: the matching entry is out and returned |
| HandleTables.HandleTable.Resize | RomanWalk/Pods/leveldb-library/util/cache.cc:122-146 | The same entries over more buckets, at least as many as entries |
| LruHandles.LruRemove | RomanWalk/Pods/leveldb-library/util/cache.cc:239-242 | One entry leaves its circular list, the others keep their order |
| LruHandles.LruAppend | RomanWalk/Pods/leveldb-library/util/cache.cc:244-250 | One entry becomes the newest of a circular list |
| LruCaches.LRUCache.Lookup | RomanWalk/Pods/leveldb-library/util/cache.cc:252-259 | The cached entry of the key, with one more handle given out |
| LruCaches.LRUCache.Ref | RomanWalk/Pods/leveldb-library/util/cache.cc:217-223 | A first handle moves the entry to the in-use list |
| LruCaches.LRUCache.Unref | RomanWalk/Pods/leveldb-library/util/cache.cc:225-237 | The last reference runs the deleter; the last handle moves a cached entry to the newest end of the LRU list |
| LruCaches.LRUCache.Release | RomanWalk/Pods/leveldb-library/util/cache.cc:261-264 | One handle is given back, the rest of the cache is unchanged |
| LruCaches.LRUCache.Insert | RomanWalk/Pods/leveldb-library/util/cache.cc:266-303 | The new entry replaces the one of its key; then the oldest entries without handles go, no more than needed, until the usage fits |
| LruCaches.LRUCache.Erase | RomanWalk/Pods/leveldb-library/util/cache.cc:318-321 | The entry of the key leaves the cache; handles stay good |
| LruCaches.LRUCache.Prune | RomanWalk/Pods/leveldb-library/util/cache.cc:323-333 | All entries without handles leave the cache, the others stay |
| LruCaches.LRUCache.Destroy | RomanWalk/Pods/leveldb-library/util/cache.cc:205-215 | With no handles out, every deleter has run exactly once |
| LruCaches.LRUCache.Accounts | RomanWalk/Pods/leveldb-library/util/cache.cc:171-194 | In every state: table, two disjoint lists and reference counts agree, the usage is the sum of charges, and a deleter has run, once, exactly for entries that left and have no handle |
| WriteQueues.WriteQueue.Enqueue | RomanWalk/Pods/leveldb-library/db/db_impl.cc:1186-1192 | A writer joins the end of the queue |
| WriteQueues.WriteQueue.Lead | RomanWalk/Pods/leveldb-library/db/db_impl.cc:1193-1201 | Only the front writer goes on, and no other writer is active then |
| WriteQueues.WriteQueue.BuildBatchGroup | RomanWalk/Pods/leveldb-library/db/db_impl.cc:1260-1306 | The group is the longest prefix of the queue that the rules allow, holds no sync write behind a non-sync leader, and uses the temporary batch only for more than one batch |
| WriteQueues.WriteQueue.RoomMade | RomanWalk/Pods/leveldb-library/db/db_impl.cc:1200-1206 | With room and a batch the leader goes on to write the longest group of those waiting; otherwise it is finished alone.  There is no room after a background error, nor before the new memtable that was asked for |
| WriteQueues.WriteQueue.SwitchMemTable | RomanWalk/Pods/leveldb-library/db/db_impl.cc:1344-1362 | A new memtable is started where the old one ends, and the request for one is met for the leader that made it |
| WriteQueues.WriteQueue.AddRecord | RomanWalk/Pods/leveldb-library/db/db_impl.cc:1214-1215 | The group is one log record; a failed append may or may not have left it |
| WriteQueues.WriteQueue.SyncLog | RomanWalk/Pods/leveldb-library/db/db_impl.cc:1216-1222 | Syncing covers all records so far |
| WriteQueues.WriteQueue.InsertInto | RomanWalk/Pods/leveldb-library/db/db_impl.cc:1223-1225 | The updates go into the memtable with consecutive sequence numbers |
| WriteQueues.WriteQueue.Complete | RomanWalk/Pods/leveldb-library/db/db_impl.cc:1226-1255 | All writers of the group are told one status; sequence numbers advance by the number of updates; the temporary batch is empty again; there is a background error afterwards if and only if there was one or syncing has failed |
| WriteQueues.WriteQueue.AppliedOnce | RomanWalk/Pods/leveldb-library/db/db_impl.cc:1185-1256 | In every state the queue can reach, an acknowledged batch is in the memtable in one piece, numbered consecutively; nothing else there has one of its sequence numbers, and the batches acknowledged behind it come later |
| WriteQueues.WriteQueue.SequencesAscend | RomanWalk/Pods/leveldb-library/db/db_impl.cc:1202-1207 | In every such state sequence numbers strictly increase through the memtables, those of a group being inserted included |
| WriteQueues.WriteQueue.InTheGroup | RomanWalk/Pods/leveldb-library/db/db_impl.cc:1280-1304 | Once a group is built, the writer k places behind its leader is in it if and only if no writer up to and including that one was refused for its size or for sync |
| WriteQueues.WriteQueue.RoomOnlyForLeaders | RomanWalk/Pods/leveldb-library/db/db_impl.cc:1310-1366 | In every state, of the writers without a batch that were told OK exactly those that led had a new memtable started for them |
| WriteQueues.GroupWithoutRoom | RomanWalk/Pods/leveldb-library/db/db_impl.cc:1200-1255 | For every state and every outcome of the log: a writer without a batch, k places behind a leader with one, is finished with its group if and only if no writer up to and including it is refused, and waits on otherwise; no memtable is started for it |
| WriteQueues.JoinedWithoutRoom | RomanWalk/Pods/leveldb-library/db/db_impl.cc:1280-1304 | A run of two writers in which the second, without a batch, is told OK although it never led and no memtable was started at all |
| WriteQueues.WriteQueue.WriteGroup | RomanWalk/Pods/leveldb-library/db/db_impl.cc:1208-1255 | For every state and outcome: the whole group is told whether its record was added and synced, the numbers given out advance, and the background error is set by a failed sync only |
| WriteQueues.TwoWrites | RomanWalk/Pods/leveldb-library/db/db_impl.cc:1185-1256 | Two writes, one after the other, are both acknowledged, and no background error is left |
| WriteBatches.WriteBatch.Put | RomanWalk/Pods/leveldb-library/db/write_batch.cc:98-103 | One more value, counted in the header |
| WriteBatches.WriteBatch.Delete | RomanWalk/Pods/leveldb-library/db/write_batch.cc:105-109 | One more deletion, counted in the header |
| WriteBatches.WriteBatch.Append | RomanWalk/Pods/leveldb-library/db/write_batch.cc:144-148 | The updates of both batches, the sequence number of the first |
| WriteBatches.WriteBatch.CountIs | RomanWalk/Pods/leveldb-library/db/write_batch.cc:82-96 | The header of a batch decodes to its sequence number and its count |
| WriteBatches.WriteBatch.Iterate | RomanWalk/Pods/leveldb-library/db/write_batch.cc:42-80 | For any bytes: the updates before the first bad record are applied, and the status says whether all were good and counted |
| WriteBatches.RecordsRoundTrip | RomanWalk/Pods/leveldb-library/db/write_batch.cc:42-109 | Reading written records gives them back, whatever follows |
| WriteBatches.WriteBatch.InsertInto | RomanWalk/Pods/leveldb-library/db/write_batch.cc:112-137 | Every update of a batch goes into the memtable, numbered from the batch's sequence number on |
| Formats.InternalKeyFormat | RomanWalk/Pods/leveldb-library/db/dbformat.cc:15-23 | The bytes of some internal keys: the user key, then sequence number and type as one little-endian word |
| Formats.LogFormat | RomanWalk/Pods/leveldb-library/db/log_format.h:14-30 | The bytes of a record in a log, the types of fragments, and where blocks of 32768 bytes cut them |
| Formats.BatchFormat | RomanWalk/Pods/leveldb-library/db/write_batch.cc:5-28 | The bytes of a batch of two updates |
| Formats.EditFormat | RomanWalk/Pods/leveldb-library/db/version_edit.cc:14-61 | The bytes of the items of an edit that are numbers and names, with their tags |
| Formats.EditFormatOfFiles | RomanWalk/Pods/leveldb-library/db/version_edit.cc:63-85 | The bytes of its items about files |
| Formats.BlockFormat | RomanWalk/Pods/leveldb-library/table/block_builder.cc:16-27 | The bytes of block entries and of the restart offsets |
| Formats.TableFormatIs | RomanWalk/Pods/leveldb-library/table/format.h:49-80 | The bytes of a footer and of a stored block |
| Formats.FilterBlockFormat | RomanWalk/Pods/leveldb-library/table/filter_block.cc:34-75 | The bytes of a filter block |
| Formats.BloomFormat | RomanWalk/Pods/leveldb-library/util/bloom.cc:15-54 | The bytes of a Bloom filter, and how many bytes and probes it has for some numbers of keys and bits |
| Formats.SpreadAndSize | RomanWalk/Pods/leveldb-library/util/bloom.cc:28-47 | For every hash the second one is it turned right by 17 bits, and for every number of keys and bits the filter is the least whole number of bytes, from eight on, that has the bits |
| Formats.Probing | RomanWalk/Pods/leveldb-library/util/bloom.cc:56-80 | A filter that asks for thirty probes is probed, and one bit answers one probe |
| Durability.Store.NothingIsLost | RomanWalk/Pods/leveldb-library/db/db_impl.cc:1310-1370 | In every state of every run each acknowledged write is in a table of the current version or in a log from the log number on, and is readable |
| Durability.Store.NothingIsInvented | RomanWalk/Pods/leveldb-library/db/db_impl.cc:371-489 | In every state of every run each write in a log, a table or a memtable was once made |
| Durability.Store.Append | RomanWalk/Pods/leveldb-library/db/db_impl.cc:1185-1256 | A write is acknowledged once it is in the log and the memtable; nothing else changes |
| Durability.Store.SwitchMemTable | RomanWalk/Pods/leveldb-library/db/db_impl.cc:1345-1366 | A new log, with the memtable made immutable |
| Durability.Store.FlushBuild | RomanWalk/Pods/leveldb-library/db/db_impl.cc:491-533 | A table of exactly the immutable memtable is written, or building it fails with a background error |
| Durability.Store.FlushCommitted | RomanWalk/Pods/leveldb-library/db/db_impl.cc:535-566 | The table joins the version, and the older logs are given up |
| Durability.Store.FlushNotCommitted | RomanWalk/Pods/leveldb-library/db/version_set.cc:849-884 | When the manifest record may or may not be on disk, both are allowed for |
| Durability.Store.CompactionCommitted | RomanWalk/Pods/leveldb-library/db/db_impl.cc:860-876 | The outputs take the place of the inputs |
| Durability.Store.CompactionNotCommitted | RomanWalk/Pods/leveldb-library/db/version_set.cc:849-884 | When that record may or may not be on disk, both are allowed for |
| Durability.CompactionEditKeeps | RomanWalk/Pods/leveldb-library/db/db_impl.cc:860-876 | Replacing tables by others that stand for them leaves nothing uncovered, whatever the manifest says |
| Durability.Store.DeleteObsoleteFiles | RomanWalk/Pods/leveldb-library/db/db_impl.cc:223-278 | Of the listed files, exactly the logs before the log number and the tables in no version in use and not being built are deleted; after an error nothing is |
| Durability.Store.Crash | RomanWalk/Pods/leveldb-library/db/db_impl.cc:1185-1256 | After a crash at any point every write acknowledged with sync is in a table that the manifest names or in what is left of a log it wants read |
| Durability.Store.Replay | RomanWalk/Pods/leveldb-library/db/db_impl.cc:280-489 | The new table holds exactly the writes of the logs from the log number on, no other table or log is touched and no table of the manifest is missing; so every write acknowledged with sync is in a table |
| Durability.Store.OpenDone | RomanWalk/Pods/leveldb-library/db/db_impl.cc:1474-1515 | The database is open with every such write, with all logs and tables as they were |
| Durability.Store.OpenQuietly | RomanWalk/Pods/leveldb-library/db/db_impl.cc:1474-1515 | So it is when nothing had to be replayed and the manifest is left as it is |
| Durability.Store.CompactionWrite | RomanWalk/Pods/leveldb-library/db/db_impl.cc:796-858 | An output takes writes of the inputs only, and no other table changes |
| Durability.CrashAfterFlush | RomanWalk/Pods/leveldb-library/db/db_impl.cc:338-352 | A run: after a flush and a crash before its log is deleted, recovery replays nothing and opens quietly |
| ProtobufEncoding.VarintBuffer | RomanWalk/Pods/nanopb/pb_encode.c:574-619 | The loops build the varint bytes |
| ProtobufEncoding.EncodeVarint | RomanWalk/Pods/nanopb/pb_encode.c:599-619 | A varint is written whole or the stream fails |
| ProtobufEncoding.EncodeSvarint | RomanWalk/Pods/nanopb/pb_encode.c:621-630 | Zigzag and varint |
| ProtobufEncoding.Write | RomanWalk/Pods/nanopb/pb_encode.c:103-121 | All bytes or none; a sizing stream only counts |
| ProtobufEncoding.EncodeTag | RomanWalk/Pods/nanopb/pb_encode.c:660-664 | Tag and wire type in one varint |
| ProtobufEncoding.CheckZero | RomanWalk/Pods/nanopb/pb_encode.c:237-328 | The recursive check holds exactly for a field all parts of which are zero |
| ProtobufEncoding.EncodeValue | RomanWalk/Pods/nanopb/pb_encode.c:760-901 | The encoder of each type writes its encoding |
| ProtobufEncoding.EncodeArray | RomanWalk/Pods/nanopb/pb_encode.c:144-233 | Packed or not, the array is written as its encoding, or refused when it is too long |
| ProtobufEncoding.EncodeSubmessage | RomanWalk/Pods/nanopb/pb_encode.c:708-756 | Sizing and writing agree, so "submsg size changed" is never reached |
| ProtobufEncoding.Encode | RomanWalk/Pods/nanopb/pb_encode.c:519-541 | The message is written as its encoding, or the stream fails |
| ProtobufEncoding.GetEncodedSize | RomanWalk/Pods/nanopb/pb_encode.c:558-567 | The size is the length of the encoding |
| ProtobufEncoding.SizeThenWrite | RomanWalk/Pods/nanopb/pb_encode.c:103-121 | When sizing gives n, a buffer with room for n gets exactly n bytes and one with less gets an error |
| ProtobufDecoder.DecodeVarint32 | RomanWalk/Pods/nanopb/pb_decode.c:187-247 | The 32-bit reader, with its rules for overlong sign extensions |
| ProtobufDecoder.DecodeVarint | RomanWalk/Pods/nanopb/pb_decode.c:255-275 | The 64-bit reader |
| ProtobufDecoder.DecodeSkipField | RomanWalk/Pods/nanopb/pb_decode.c:321-331 | A field of any wire type is skipped |
| ProtobufDecoder.MakeSubstream | RomanWalk/Pods/nanopb/pb_decode.c:372-400 | A substream of the announced length; the parent goes on after it |
| ProtobufDecoder.DecodeValue | RomanWalk/Pods/nanopb/pb_decode.c:1318-1548 | The decoder of each type reads its encoding, submessages recursively |
| ProtobufDecoder.DecodePacked | RomanWalk/Pods/nanopb/pb_decode.c:419-450 | Packed items fill the array and must use up their substream |
| ProtobufDecoder.DecodeStaticField | RomanWalk/Pods/nanopb/pb_decode.c:406-480 | One field, by its rule |
| ProtobufDecoder.FieldIter.Next | RomanWalk/Pods/nanopb/pb_common.c:20-76 | The walk over the descriptors, around and around, with the count of required fields |
| ProtobufDecoder.FieldIter.Find | RomanWalk/Pods/nanopb/pb_common.c:78-95 | The field of a tag is found from wherever the walk stands, if there is one |
| ProtobufDecoder.AllRequired | RomanWalk/Pods/nanopb/pb_decode.c:1040-1072 | True exactly when every required field that has a bit was seen (what that means for the bytes is ProtobufSafety.RequiredWereRead) |
| ProtobufDecoder.DecodeNoinit | RomanWalk/Pods/nanopb/pb_decode.c:925-1073 | The decoding loop reads a message as its specification says, error for error |
| ProtobufTheorem.ScalarRoundTrip | RomanWalk/Pods/nanopb/pb_decode.c:1318-1429 | Numbers of every field type come back |
| ProtobufTheorem.UnknownIsSkipped | RomanWalk/Pods/nanopb/pb_decode.c:321-331 | A well-formed field of unknown tag, anywhere, changes nothing |
| ProtobufTheorem.ZeroIsDefault | RomanWalk/Pods/nanopb/pb_encode.c:237-328 | A field left out for being zero is what a new message holds anyway |
| ProtobufTheorem.FieldRoundTrip | RomanWalk/Pods/nanopb/pb_decode.c:406-480 | Each field, whatever its rule, comes back |
| ProtobufTheorem.MessageRoundTrip | RomanWalk/Pods/nanopb/pb_decode.c:925-1073 | Decoding an encoded message, with unknown fields anywhere at every depth, gives it back up to absent fields |
| ProtobufTheorem.EncodeThenDecode | RomanWalk/Pods/nanopb/pb_encode.c:519-541 | Encoding into a buffer and decoding into a new struct gives the message back |
| ProtobufSubset.KnownIsSkippable | RomanWalk/Pods/nanopb/pb_encode.c:666-698 | The wire type that the encoder gives a field is that of its bytes: a reader that does not know the field skips exactly its value |
| ProtobufSubset.PackedIsSkippable | RomanWalk/Pods/nanopb/pb_encode.c:157-200 | The same for a packed array |
| ProtobufSubset.OccurrenceIsUnknown | RomanWalk/Pods/nanopb/pb_decode.c:321-331 | To a reader without the field, what the encoder writes for it is a well-formed unknown field |
| ProtobufSubset.SubsetRoundTrip | RomanWalk/Pods/nanopb/pb_decode.c:925-1073 | Decoding an encoded message with any part of its descriptors, in order, gives that part of the message |
| ProtobufSafety.RequiredWereRead | RomanWalk/Pods/nanopb/pb_decode.c:1040-1072 | Decoding any bytes succeeds only if the tag of every required field that at most 63 others precede was read among them |
| ProtobufSafety.LeftOut | RomanWalk/Pods/nanopb/pb_decode.c:1040-1072 | The encoding of a message without some of its required fields, with unknown fields anywhere, decodes if and only if none of those left out is among the first 64 required ones |
| ProtobufSafety.OneLeftOutFails | RomanWalk/Pods/nanopb/pb_decode.c:1057-1067 | With at most 64 required fields, leaving one out makes decoding fail |
| ProtobufSafety.MessageHeld | RomanWalk/Pods/nanopb/pb_decode.c:406-480 | Whatever bytes decode, the result fits its struct: strings have room for their end, arrays keep within their size, of a union at most one member is set, and fixed-count arrays are full |
| ProtobufSafety.DecodeAny | RomanWalk/Pods/nanopb/pb_decode.c:1075-1087 | Decoding any bytes into a new struct fails or gives a message that fits it |
| ProtobufMerge.Varint32Is | RomanWalk/Pods/nanopb/pb_decode.c:187-247 | Exactly which bytes the 32-bit reader takes and for what number: a chain whose bytes beyond the word are zeros or the sign of a negative number, for the low 32 bits of its sum |
| ProtobufMerge.LastOneWins | RomanWalk/Pods/nanopb/pb_decode.c:406-480 | Of two values for one field, or for two members of a union, the last one counts, in any state of decoding |
| ProtobufMerge.ZeroEnds | RomanWalk/Pods/nanopb/pb_decode.c:298-315 | A zero in place of a tag ends a message, whatever follows |
| ProtobufMerge.PackedOrNot | RomanWalk/Pods/nanopb/pb_decode.c:419-462 | An array of numbers may come packed or item by item, in any state of decoding |
| Formats.WireFormatOfNumbers | RomanWalk/Pods/nanopb/pb_encode.c:666-705 | The bytes of a number of each type, with its tag |
| Formats.WireFormatOfStrings | RomanWalk/Pods/nanopb/pb_encode.c:666-705 | The bytes of strings of each type |
| Formats.Widths | RomanWalk/Pods/nanopb/pb_decode.c:1329-1412 | Exactly which words are taken for integer fields of one, two, four and eight bytes, signed, unsigned and zigzag |
| Formats.WireFormatOfMore | RomanWalk/Pods/nanopb/pb_encode.c:144-200 | The bytes of a packed array |

## Left out

- The app itself: view controllers, coordinators, Core Data, Firebase, image download and the UI pods.
- I/O errors of table, log and manifest reads and writes, except where a failing manifest, log or table write changes what is promised; info logs, statistics, approximate sizes, read sampling and seek-triggered compactions.
- `repair.cc`, `c.cc`, `dumpfile.cc`, the file system layer: tools and plumbing.
- Memtable entries as length-prefixed bytes and their comparator (`memtable.cc`): a memtable is a sorted sequence of entries in Database and the keys of a list in SkipLists.
- `SnapshotList`: the live snapshots are a set of sequence numbers in Runs, without the linked list that keeps them in order.
- The arena: allocation and the estimate of memory use by which a memtable counts as full; a memtable may be switched at any time.
- The block cache and table cache between table and file; the cache itself is modelled.
- Malformed tables and blocks: opening and reading them is modelled for well-formed bytes.  Log, write-batch, version-edit, filter and protobuf readers are modelled for any bytes.
- Database.BackgroundCompaction: picks no compaction by size scores and does not model the manual range cursor, because any choice of inputs is allowed.
- LogReading.Reader.ReadRecord: starts at offset 0 only, and reports no record offsets, because recovery uses nothing else.
- LogReading.RecoverLogFile: recovers records; replaying them into memtables and tables is in Durability.
- Durability.Store.Crash: tables and manifest records are durable once written, because the source syncs them first; of a log any part that was not synced may be lost.
- Durability.Store.CompactionCommitted: tables are the set of writes they stand for; that the outputs stand for the inputs is what CompactionTheorem proves of their entries.
- Durability.Store.Append: log record, sync, insertion and acknowledgement are one step here; WriteQueues takes them apart.
- Durability.Store.Replay: writes one table for all logs, where the source may write several, and leaves out `reuse_logs`, by which the last log and the manifest are appended to instead (off by default).
- Runs.RunIsFaithful: a batch is written entry by entry, without its log and without crashes, which Durability covers; a flush inside a compaction comes before it.
- WriteQueues.WriteQueue.RoomMade: waiting for compactions, delays and the size of the memtable are left open: a leader may start any number of new memtables, and one that asked for a new one gets room only after it.
- WriteQueues.WriteQueue.InsertInto: an insertion that fails, which a batch with bad records would cause, is not modelled here; WriteBatches models reading such a batch.
- Database.LogAndApply: the version in memory only; the manifest record and its failure are in Durability.
- Database.CompactMemTable: the log number, and a table that cannot be written, are in Durability.
- Database.MemTableGet: the memtable is a sorted sequence of entries, without their layout in bytes.
- TableFormat.ReadBlock: no Snappy; a block of any type but uncompressed is refused, where the source decompresses.
- SkipLists.RunIsSafe: one writer, as the source requires, and no weak memory orders.
- SkipLists.SkipList.Insert: the height is a parameter in place of the random one.
- LruCaches.LRUCache.Insert: one shard; sharding by hash adds nothing.  The deleter is a count of its calls.
- HandleTables.HandleTable.FindPointer: masking with a power-of-two length is a remainder.
- Cursors.MergingIterator.Next: children are cursors over sequences; that blocks, tables and levels are such cursors is proved of BlockIter and TwoLevelIterator on their own.
- TwoLevel.TwoLevelIterator.Seek: the data cursor is over a sequence of entries, with the block bytes below it in Blocks.
- TableBuilding.TableBuilder.Add: changing options while a table is built, and abandoning it, are not modelled.
- FilterBlocks.FilterBlockReader.KeyMayMatch: a base above 63, which no builder writes, would be an undefined shift in the source.
- EditCodec.VersionEdit.DecodeFrom: what a failed decode leaves behind is not stated; callers discard it.
- ProtobufDecoder.DecodeNoinit: callbacks, extensions, pointer fields, zero-terminated messages nested in submessages beyond the code shown, and the 32-bit-only build are not modelled; a descriptor list without fields does not match tag 0 as its terminator would.
- ProtobufDecoder.DecodeVarint32: the position of a bit is not cut to eight bits, as it is where `uint_fast8_t` has eight; that would show only in varints of more than 36 bytes.
- ProtobufSubset.SubsetRoundTrip: for encodings without further unknown fields.
- ProtobufMerge.LastOneWins: not for submessages, which are merged into what came before.
- ProtobufTheorem.MessageRoundTrip: for messages that fit their struct, that is, strings with room for the terminator and arrays within their size; absent optional fields come back with default contents.
- ProtobufEncoding.Encode: callbacks, extensions and pointer fields are not modelled.
