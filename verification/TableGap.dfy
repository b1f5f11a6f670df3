/** A table in which a scan finds an entry and a lookup of the same key finds nothing. */
module TableGap {
  import opened InternalKeys
  import opened Coding
  import opened KeyBytes
  import opened Blocks
  import opened BlockBuilding
  import opened TableFormat
  import opened Tables
  import opened TableBuilding
  import Log

  const FIRST := InternalKeyBytes([1, 1], 257)
  const SECOND := InternalKeyBytes([3], 257)
  const BETWEEN := InternalKeyBytes([2], MAX_TAG)
  const SOUGHT := InternalKeyBytes([1, 2], 257)
  const ENTRIES: Entries := [KV(FIRST, []), KV(SECOND, [])]

  /** The order of the keys, and what stands for the first block in the index. */
  lemma KeysInOrder()
    ensures InternalRank(FIRST) < InternalRank(SOUGHT) < InternalRank(BETWEEN) < InternalRank(SECOND)
    ensures IsInternal(FIRST) && IsInternal(SECOND) && IsInternal(SOUGHT) && |FIRST| == 10 && |SECOND| == 9
    ensures SeparatorOf(FIRST, SECOND) == BETWEEN
  {
    hide Fixed64, DecodeFixed64;
    assert |UserOf(FIRST)| == 2 && |UserOf(SECOND)| == 1;
    InternalRankOrders(FIRST, SOUGHT);
    InternalRankOrders(SOUGHT, BETWEEN);
    InternalRankOrders(BETWEEN, SECOND);
  }

  /** Two blocks of one entry each.  A key behind the first entry, but not behind the index key of its
      block, is not looked up in the second block. */
  method LookupInGap(crc: Log.Checksum) returns (file: Bytes, ghost t: Layout, found: Option<KV>)
    ensures TableFile(crc, None, [], file, ENTRIES, t) && t.cuts == [0, 1, 2] && |t.index| == 2 && t.index[0].key == BETWEEN
    ensures InGap(ENTRIES, t, SOUGHT, 0) && Looked(None, ENTRIES, t, SOUGHT, found)
    ensures found == None && FirstAtOrAfter(ENTRIES, InternalRank, SOUGHT, Some(KV(SECOND, [])))
  {
    hide InternalRank, TableFile, Misses, Answers, Table.Serves, IsLowerBoundKV, FIRST, SECOND, SOUGHT, BETWEEN, ENTRIES;
    KeysInOrder();
    file, t := TwoBlocks(crc);
    var table := Open(crc, None, [], file, true, None, [], ENTRIES, t);
    found := table.value.InternalGet(SOUGHT, None, [], ENTRIES, t);
    Gap(crc, file, t);
    WhenNothingIsFound(crc, None, [], file, ENTRIES, t, SOUGHT);
    assert Misses(None, ENTRIES, t, SOUGHT);
  }

  method TwoBlocks(crc: Log.Checksum) returns (file: Bytes, ghost t: Layout)
    ensures TableFile(crc, None, [], file, ENTRIES, t) && t.cuts == [0, 1, 2]
  {
    hide InternalRank, TableFile, TableBuilder.Inv, FIRST, SECOND, BETWEEN, SOUGHT;
    KeysInOrder();
    var builder := new TableBuilder(None, [], 16, 0, crc);
    builder.Add(FIRST, []);
    builder.Add(SECOND, []);
    assert builder.kvs == ENTRIES && builder.cuts == [0, 1, 2];
    t := builder.Finish();
    file := builder.file;
  }

  lemma Gap(crc: Log.Checksum, file: Bytes, t: Layout)
    requires TableFile(crc, None, [], file, ENTRIES, t) && t.cuts == [0, 1, 2]
    ensures |t.index| == 2 && t.index[0].key == BETWEEN && InGap(ENTRIES, t, SOUGHT, 0)
    ensures FirstAtOrAfter(ENTRIES, InternalRank, SOUGHT, Some(KV(SECOND, [])))
  {
    KeysInOrder();
    hide InternalRank, BlocksAt, BlockAt, BETWEEN, SOUGHT, SeparatorOf, SuccessorOf;
    assert Fence(ENTRIES, t.cuts[1], t.index[0].key);
    assert IsLowerBoundKV(ENTRIES, InternalRank, SOUGHT, 1);
  }
}
