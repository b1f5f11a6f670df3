/** Writing a table to a file, opening it, and looking a key up. */
module TableBuilding {
  import opened InternalKeys
  import opened Coding
  import opened KeyBytes
  import opened Blocks
  import opened BlockBuilding
  import opened TableFormat
  import opened FilterBlocks
  import opened Tables
  import Bloom
  import Log

  type Policy = Option<Bloom.FilterPolicy>

  /** The entries that are not in a written block are in the data block; an index key is missing for the last
      written block until another entry comes, or there is none missing. */
  ghost predicate Tracked(lastKey: Bytes, pending: bool, pendingHandle: BlockHandle, kvs: Entries, cuts: seq<nat>,
                          handles: seq<BlockHandle>, written: Entries, data: Entries, indexed: nat) {
    && |cuts| == |handles| + 1 && cuts[|handles|] == |written|
    && kvs == written + data
    && (kvs != [] ==> lastKey == kvs[|kvs| - 1].key)
    && (if pending then
          && handles != [] && pendingHandle == handles[|handles| - 1] && indexed == |handles| - 1
          && cuts[|handles|] == |kvs| > 0
        else indexed == |handles| && (handles != [] ==> cuts[|handles|] < |kvs|))
  }

  lemma TrackedAdd(lastKey: Bytes, pending: bool, pendingHandle: BlockHandle, kvs: Entries, cuts: seq<nat>,
                   handles: seq<BlockHandle>, written: Entries, data: Entries, indexed: nat, kv: KV)
    requires Tracked(lastKey, pending, pendingHandle, kvs, cuts, handles, written, data, indexed)
    ensures Tracked(kv.key, false, pendingHandle, kvs + [kv], cuts, handles, written, data + [kv], |handles|)
    ensures data != [] ==> kvs != [] && lastKey == data[|data| - 1].key
  {
  }

  lemma TrackedFlush(lastKey: Bytes, pending: bool, pendingHandle: BlockHandle, kvs: Entries, cuts: seq<nat>,
                     handles: seq<BlockHandle>, written: Entries, data: Entries, indexed: nat, h: BlockHandle)
    requires Tracked(lastKey, pending, pendingHandle, kvs, cuts, handles, written, data, indexed) && data != []
    ensures Tracked(lastKey, true, h, kvs, cuts + [|kvs|], handles + [h], kvs, [], indexed) && !pending
    ensures |cuts| == |handles| + 1 && cuts[|handles|] < |kvs| && data == kvs[cuts[|handles|]..]
  {
  }

  /** No entry, no block. */
  lemma NothingYet(crc: Log.Checksum)
    ensures Laid(crc, [], [], [0], [], []) && Tracked([], false, BlockHandle(0, 0), [], [0], [], [], [], 0)
    ensures CutsOk([], [0]) && Promises({}, [], [0], [], 0)
  {
  }

  class TableBuilder {
    const crc: Log.Checksum
    const policy: Policy
    const name: Bytes           // the name of the filter policy
    const blockSize: nat
    const dataBlock: BlockBuilder
    const indexBlock: BlockBuilder
    const filterBlock: FilterBlockBuilder?

    var file: Bytes
    var offset: nat
    var lastKey: Bytes
    var numEntries: nat
    var closed: bool
    var pendingIndexEntry: bool  // only if the data block is empty
    var pendingHandle: BlockHandle

    ghost var kvs: Entries
    ghost var cuts: seq<nat>
    ghost var handles: seq<BlockHandle>
    ghost var written: Entries   // what is in blocks

    ghost predicate Written()
      reads this`file, this`kvs, this`cuts, this`handles, indexBlock`kvs
    {
      Laid(crc, file, kvs, cuts, handles, indexBlock.kvs)
    }

    ghost predicate Pending()
      reads this`lastKey, this`pendingIndexEntry, this`pendingHandle, this`kvs, this`cuts, this`handles, this`written, dataBlock`kvs, indexBlock`kvs
    {
      Tracked(lastKey, pendingIndexEntry, pendingHandle, kvs, cuts, handles, written, dataBlock.kvs, |indexBlock.kvs|)
    }

    ghost predicate Filtering()
      reads this`file, this`kvs, this`cuts, this`handles, filterBlock
    {
      FilteringFor(kvs)
    }

    ghost predicate FilteringFor(entries: Entries)
      reads this`file, this`cuts, this`handles, filterBlock
    {
      FilterTold(entries, cuts, handles, |file|)
    }

    /** The filter knows the keys of these blocks and of those that follow, up to an offset. */
    ghost predicate FilterTold(entries: Entries, ends: seq<nat>, places: seq<BlockHandle>, upTo: nat)
      reads filterBlock
    {
      && (filterBlock == null <==> policy.None?)
      && (filterBlock != null ==>
            && filterBlock.Inv() && filterBlock.policy == policy.value && |filterBlock.groups| == upTo / BASE
            && CutsOk(entries, ends) && |ends| == |places| + 1
            && Promises(filterBlock.promised, entries, ends, places, upTo))
    }

    ghost predicate Sizes()
      reads this`file, this`offset, this`cuts, this`kvs, this`numEntries
    {
      offset == |file| && numEntries == |kvs| && |file| <= |cuts| * MOST
    }

    ghost predicate Apart() {
      && dataBlock != indexBlock
      && dataBlock.rank == InternalRank && indexBlock.rank == InternalRank
    }

    ghost predicate Inv()
      reads this, dataBlock, indexBlock, filterBlock
    {
      && Apart() && dataBlock.Inv() && indexBlock.Inv()
      && Written() && Pending() && Filtering() && Sizes()
    }

    constructor (p: Policy, policyName: Bytes, interval: nat, size: nat, checksum: Log.Checksum)
      requires interval >= 1
      ensures Inv() && !closed && kvs == [] && policy == p && name == policyName && crc == checksum && blockSize == size
      ensures fresh(dataBlock) && fresh(indexBlock) && (filterBlock != null ==> fresh(filterBlock))
      ensures indexBlock.buffer == [] && dataBlock.buffer == [] && lastKey == [] && cuts == [0]
      ensures dataBlock.restartInterval == interval && indexBlock.restartInterval == 1
      ensures (filterBlock == null <==> p.None?) && dataBlock.kvs == []
      ensures filterBlock != null ==> filterBlock.Added() == 0
    {
      hide Building, BlockBuilder.Inv, FilterBlockBuilder.Inv, Laid, Tracked, CutsOk, Promises;
      NothingYet(checksum);
      policy, name, blockSize, crc := p, policyName, size, checksum;
      file, offset, lastKey, numEntries, closed := [], 0, [], 0, false;
      pendingIndexEntry, pendingHandle := false, BlockHandle(0, 0);
      kvs, cuts, handles, written := [], [0], [], [];
      var data := new BlockBuilder(interval, InternalRank);
      var index := new BlockBuilder(1, InternalRank);
      dataBlock, indexBlock := data, index;
      var filter := NewFilter(p);
      filterBlock := filter;
    }

    static method NewFilter(p: Policy) returns (filter: FilterBlockBuilder?)
      ensures filter == null <==> p.None?
      ensures filter != null ==>
          && fresh(filter) && filter.Inv() && filter.policy == p.value
          && filter.groups == [] && filter.promised == {} && filter.Added() == 0
    {
      hide FilterBlockBuilder.Inv;
      filter := null;
      if p.Some? {
        filter := new FilterBlockBuilder(p.value);
        filter.StartBlock(0);
      }
    }

    /** Add an entry past all others, and write the block out when it is large enough. */
    method Add(key: Bytes, value: Bytes)
      requires Inv() && !closed && IsInternal(key)
      requires kvs != [] ==> InternalRank(lastKey) < InternalRank(key)
      requires |dataBlock.buffer| + |key| + |value| + 15 < U32 && |indexBlock.buffer| + |lastKey| + 35 < U32 && |cuts| < MANY
      modifies this`file, this`offset, this`lastKey, this`numEntries, this`pendingIndexEntry, this`pendingHandle
      modifies this`kvs, this`cuts, this`handles, this`written, dataBlock, indexBlock, filterBlock
      ensures Inv() && kvs == old(kvs) + [KV(key, value)] && lastKey == key && !closed
      ensures |indexBlock.buffer| <= old(|indexBlock.buffer|) + old(|lastKey|) + 35
      ensures cuts == if dataBlock.kvs == [] then old(cuts) + [|kvs|] else old(cuts)
      ensures if dataBlock.kvs == [] then handles == old(handles) + [pendingHandle] && pendingHandle.size >= blockSize else handles == old(handles)
      ensures |dataBlock.buffer| <= blockSize
      ensures dataBlock.kvs != [] ==> |dataBlock.buffer| + 4 * |dataBlock.restarts| + 4 < blockSize
      ensures filterBlock != null ==> filterBlock.Added() == old(filterBlock.Added()) + 1
    {
      hide Inv;
      AddEntry(key, value);
      var estimatedBlockSize := |dataBlock.buffer| + 4 * |dataBlock.restarts| + 4;
      if estimatedBlockSize >= blockSize {
        Flush();
      }
    }

    method AddEntry(key: Bytes, value: Bytes)
      requires Inv() && IsInternal(key)
      requires kvs != [] ==> InternalRank(lastKey) < InternalRank(key)
      requires |dataBlock.buffer| + |key| + |value| + 15 < U32 && |indexBlock.buffer| + |lastKey| + 35 < U32
      modifies this`lastKey, this`numEntries, this`pendingIndexEntry, this`kvs, dataBlock, indexBlock, filterBlock
      ensures Inv() && kvs == old(kvs) + [KV(key, value)] && lastKey == key
      ensures dataBlock.kvs == old(dataBlock.kvs) + [KV(key, value)]
      ensures |indexBlock.buffer| <= old(|indexBlock.buffer|) + old(|lastKey|) + 35
      ensures filterBlock != null ==> filterBlock.Added() == old(filterBlock.Added()) + 1
    {
      ghost var kv := KV(key, value);
      hide Laid, BlockBuilder.Inv, FilteringFor, InternalRank, IsInternal, Tracked, FilterBlockBuilder.Added;
      TrackedAdd(lastKey, pendingIndexEntry, pendingHandle, kvs, cuts, handles, written, dataBlock.kvs, |indexBlock.kvs|, kv);
      IndexBefore(key, value);
      AddToFilter(key, value);
      AddToData(key, value);
    }

    /** The data block takes the entry. */
    method AddToData(key: Bytes, value: Bytes)
      requires dataBlock.Inv() && |dataBlock.buffer| + |key| + |value| + 15 < U32
      requires var data := dataBlock.kvs; data != [] ==> dataBlock.rank(data[|data| - 1].key) < dataBlock.rank(key)
      modifies this`lastKey, this`numEntries, this`kvs, dataBlock
      ensures dataBlock.Inv() && dataBlock.kvs == old(dataBlock.kvs) + [KV(key, value)]
      ensures kvs == old(kvs) + [KV(key, value)] && lastKey == key && numEntries == old(numEntries) + 1
    {
      hide BlockBuilder.Inv;
      lastKey := key;
      numEntries := numEntries + 1;
      dataBlock.Add(key, value);
      kvs := kvs + [KV(key, value)];
    }

    /** Tell the filter of the key. */
    method AddToFilter(key: Bytes, ghost value: Bytes)
      requires Filtering() && offset == |file|
      modifies filterBlock
      ensures FilteringFor(kvs + [KV(key, value)])
      ensures filterBlock != null ==> filterBlock.Added() == old(filterBlock.Added()) + 1
    {
      hide FilterBlockBuilder.Inv, CutsOk, Promises;
      if filterBlock != null {
        PromisesAdd(filterBlock.promised, kvs, KV(key, value), cuts, handles, offset);
        filterBlock.AddKey(key, offset);
      }
    }

    /** Complete the index, up to the entries before a key that is added next. */
    method IndexBefore(key: Bytes, ghost value: Bytes)
      requires Inv() && IsInternal(key) && (kvs != [] ==> InternalRank(lastKey) < InternalRank(key))
      requires |indexBlock.buffer| + |lastKey| + 35 < U32
      modifies this`lastKey, this`pendingIndexEntry, indexBlock
      ensures indexBlock.Inv() && !pendingIndexEntry && |indexBlock.kvs| == |handles|
      ensures Laid(crc, file, kvs + [KV(key, value)], cuts, handles, indexBlock.kvs)
      ensures |indexBlock.buffer| <= old(|indexBlock.buffer|) + old(|lastKey|) + 35
    {
      hide Laid, BlockBuilder.Inv, Filtering, Sizes, InternalRank;
      ghost var kv, index := KV(key, value), indexBlock.kvs;
      LastKeyIsInternal(crc, file, kvs, cuts, handles, index);
      if pendingIndexEntry {
        AddIndexEntry(key, value);
      } else {
        assert IndexGrows(kvs, kv, cuts, handles, index, index);
      }
      GrownSize(kvs, kv, cuts, handles, index, indexBlock.kvs);
      hide IndexGrows;
      LaidAdd(crc, file, kvs, cuts, handles, index, indexBlock.kvs, kv);
    }

    /** The block before gets an index key, now that the first key after it is known. */
    method AddIndexEntry(key: Bytes, ghost value: Bytes)
      requires Inv() && IsInternal(key) && pendingIndexEntry && InternalRank(lastKey) < InternalRank(key) && |indexBlock.buffer| + |lastKey| + 35 < U32
      modifies this`lastKey, this`pendingIndexEntry, indexBlock
      ensures indexBlock.Inv() && !pendingIndexEntry
      ensures IndexGrows(kvs, KV(key, value), cuts, handles, old(indexBlock.kvs), indexBlock.kvs)
      ensures |indexBlock.buffer| <= old(|indexBlock.buffer|) + old(|lastKey|) + 35
    {
      hide BlockBuilder.Inv, Fence, InternalRank, IndexGrows, Laid, Filtering, Sizes;
      PendingFacts(file);
      hide Pending;
      var separator := Separator(key, value);
      ghost var index := indexBlock.kvs;
      PutIndexEntry(separator);
      IndexGrew(kvs, KV(key, value), cuts, handles, index, separator);
      lastKey := separator;
      pendingIndexEntry := false;
    }

    /** A short key between the last key and the next. */
    method Separator(key: Bytes, ghost value: Bytes) returns (separator: Bytes)
      requires kvs != [] && lastKey == kvs[|kvs| - 1].key && IsInternal(lastKey) && IsInternal(key)
      requires InternalRank(lastKey) < InternalRank(key)
      ensures |separator| <= |lastKey| && InternalRank(lastKey) <= InternalRank(separator)
      ensures Fence(kvs + [KV(key, value)], |kvs|, separator)
    {
      InternalRankOrders(lastKey, key);
      separator := InternalSeparator(lastKey, key);
      InternalRankOrders(lastKey, separator);
      SeparatorFences(kvs, KV(key, value), separator);
    }

    method PutIndexEntry(separator: Bytes)
      requires indexBlock.Inv() && indexBlock.rank == InternalRank && HandleFits(pendingHandle)
      requires var index := indexBlock.kvs; index != [] ==> InternalRank(index[|index| - 1].key) < InternalRank(separator)
      requires |indexBlock.buffer| + |separator| + 35 < U32
      modifies indexBlock
      ensures indexBlock.Inv() && indexBlock.kvs == old(indexBlock.kvs) + [KV(separator, HandleBytes(pendingHandle))]
      ensures |indexBlock.buffer| <= old(|indexBlock.buffer|) + |separator| + 35
    {
      hide BlockBuilder.Inv, InternalRank;
      HandleLength(pendingHandle);
      var handleEncoding := EncodeHandle(pendingHandle, []);
      assert |handleEncoding| <= 20 && handleEncoding == HandleBytes(pendingHandle);
      hide HandleFits, HandleBytes;
      indexBlock.Add(separator, handleEncoding);
    }

    lemma PendingFacts(f: Bytes)
      requires Laid(crc, f, kvs, cuts, handles, indexBlock.kvs) && Pending() && pendingIndexEntry
      ensures kvs != [] && lastKey == kvs[|kvs| - 1].key && IsInternal(lastKey) && HandleFits(pendingHandle)
      ensures |cuts| == |handles| + 1 && cuts[|handles|] == |kvs| && |indexBlock.kvs| == |handles| - 1
      ensures pendingHandle == handles[|handles| - 1]
      ensures var index := indexBlock.kvs; index != [] ==> InternalRank(index[|index| - 1].key) < InternalRank(lastKey)
    {
      hide Laid, CutsOk, Ascending, InternalRank;
      LastKeyIsInternal(crc, f, kvs, cuts, handles, indexBlock.kvs);
      if indexBlock.kvs != [] {
        IndexBehind(crc, f, kvs, cuts, handles, indexBlock.kvs);
      }
    }

    /** End the data block, even if it is not full. */
    method Flush()
      requires Inv() && |cuts| < MANY
      modifies this`file, this`offset, this`pendingIndexEntry, this`pendingHandle, this`cuts, this`handles, this`written, dataBlock, filterBlock
      ensures Inv() && dataBlock.kvs == [] && cuts[|handles|] == |kvs|
      ensures cuts == if old(dataBlock.kvs) == [] then old(cuts) else old(cuts) + [|kvs|]
      ensures dataBlock.buffer == []
      ensures handles == if old(dataBlock.kvs) == [] then old(handles) else old(handles) + [pendingHandle]
      ensures old(dataBlock.kvs) != [] ==> pendingHandle.size == old(|dataBlock.buffer|) + 4 * old(|dataBlock.restarts|) + 4
      ensures filterBlock != null ==> filterBlock.Added() == old(filterBlock.Added()) && filterBlock.Size() == old(filterBlock.Size())
    {
      hide Laid, BlockBuilder.Inv, FilterBlockBuilder.Inv, CutsOk, Promises, Ascending, Fence, InternalRank, BlockAt, Tracked;
      LastKeyIsInternal(crc, file, kvs, cuts, handles, indexBlock.kvs);
      dataBlock.EmptyShows();
      if dataBlock.buffer == [] {
        NoneLeft();
        return;
      }
      ghost var was, data, last := file, dataBlock.kvs, pendingHandle;
      var h := WriteBlock(dataBlock);
      TrackedFlush(lastKey, pendingIndexEntry, last, kvs, cuts, handles, written, data, |indexBlock.kvs|, h);
      LaidFlush(crc, was, kvs, cuts, handles, indexBlock.kvs, file, h);
      pendingHandle := h;
      pendingIndexEntry := true;
      StartFilter(h);
      handles, cuts, written := handles + [h], cuts + [|kvs|], kvs;
    }

    /** Tell the filter that a block was written at h. */
    method StartFilter(ghost h: BlockHandle)
      requires FilterTold(kvs, cuts, handles, h.offset) && |cuts| == |handles| + 1 && cuts[|handles|] < |kvs| && h.offset <= offset == |file|
      modifies filterBlock
      ensures FilterTold(kvs, cuts + [|kvs|], handles + [h], |file|)
      ensures filterBlock != null ==> filterBlock.Added() == old(filterBlock.Added()) && filterBlock.Size() == old(filterBlock.Size())
    {
      hide FilterBlockBuilder.Inv, CutsOk, Promises;
      if filterBlock != null {
        PromisesFlush(filterBlock.promised, kvs, cuts, handles, h, offset);
        filterBlock.StartBlock(offset);
      }
    }

    /** Complete the table: the filter, the names of the other blocks, the index and the footer. */
    method Finish() returns (ghost t: Layout)
      requires Inv() && !closed && |cuts| < MANY && |indexBlock.buffer| + |lastKey| + 35 < U32 && |name| < U32 / 2
      requires filterBlock != null ==> filterBlock.Size() < U32
      modifies this, dataBlock, indexBlock, filterBlock
      ensures closed && kvs == old(kvs) && TableFile(crc, policy, name, file, kvs, t)
      ensures t.cuts == if old(dataBlock.kvs) == [] then old(cuts) else old(cuts) + [|kvs|]
      ensures offset == |file|
    {
      hide Laid, BlockBuilder.Inv, Filtering, CutsOk, Promises, InternalRank, Rank, BlockAt, StoredAt, FilterAt, MetaEntries;
      Flush();
      closed := true;
      ghost var file0 := file;
      var filterHandle, groups := WriteFilter();
      ghost var file1 := file;
      var meta := WriteMeta(filterHandle);
      ghost var file2 := file;
      var indexHandle, index := WriteIndex(file0);
      ghost var file3 := file;
      var footer := EncodeFooter(meta, indexHandle);
      file := file + footer;
      offset := offset + |footer|;
      t := Layout(cuts, handles, index, groups, meta, indexHandle, filterHandle);
      PiecesMakeTable(crc, policy, name, kvs, t, file0, file1, file2, file3, file);
    }

    lemma FilterSize(b: nat)
      requires Inv()
      requires policy.Some? ==> Compact(policy.value, b)
      ensures filterBlock != null ==> policy.Some? && filterBlock.Size() <= b * filterBlock.Added()
    {
      hide Written, Pending, Sizes, BlockBuilder.Inv, CutsOk, Promises, FilterBlockBuilder.Grouped, Flat, Filters, FilterOf, Count, Compact;
      if filterBlock != null {
        SizeBound(policy.value, filterBlock.groups, filterBlock.current, b);
      }
    }

    method WriteFilter() returns (h: BlockHandle, ghost groups: seq<Keys>)
      requires Filtering() && offset == |file| <= U64 / 8 && |cuts| == |handles| + 1 && cuts[|handles|] == |kvs|
      requires filterBlock != null ==> filterBlock.Size() < U32
      modifies this`file, this`offset, filterBlock
      ensures old(file) <= file && offset == |file| <= old(|file|) + U64 / 32 && HandleFits(h)
      ensures policy.Some? ==> FilterAt(crc, policy.value, file, kvs, cuts, handles, groups, h)
    {
      hide FilterBlockBuilder.Inv, CutsOk, Promises, StoredAt, Filters, InFilters, AllIn;
      h, groups := BlockHandle(0, 0), [];
      if filterBlock != null {
        var bytes := filterBlock.Finish();
        groups := filterBlock.groups;
        PromisesKept(filterBlock.promised, kvs, cuts, handles, |file|, groups);
        h := WriteRawBlock(bytes);
      }
    }

    /** Map the filter's name to where it is. */
    method WriteMeta(filterHandle: BlockHandle) returns (h: BlockHandle)
      requires offset == |file| < U64 / 4 && |name| < U32 / 2 && HandleFits(filterHandle)
      modifies this`file, this`offset
      ensures old(file) <= file && offset == |file| <= old(|file|) + MOST && HandleFits(h)
      ensures BlockAt(crc, file, h, MetaEntries(policy, name, filterHandle), Rank)
    {
      hide BlockBuilder.Inv, Rank, BlockAt;
      var metaIndexBlock := new BlockBuilder(1, Rank);
      if policy.Some? {
        var key := FILTER_PREFIX + name;
        HandleLength(filterHandle);
        var handleEncoding := EncodeHandle(filterHandle, []);
        assert handleEncoding == HandleBytes(filterHandle);
        metaIndexBlock.Add(key, handleEncoding);
        assert metaIndexBlock.kvs == [KV(key, HandleBytes(filterHandle))];
      }
      h := WriteBlock(metaIndexBlock);
    }

    /** Complete the index with a key for the last block, and write it. */
    method WriteIndex(ghost file0: Bytes) returns (h: BlockHandle, ghost index: Entries)
      requires indexBlock.Inv() && indexBlock.rank == InternalRank && offset == |file| < U64 / 4
      requires Laid(crc, file0, kvs, cuts, handles, indexBlock.kvs) && Pending() && |indexBlock.buffer| + |lastKey| + 35 < U32
      requires cuts[|handles|] == |kvs|
      modifies this`file, this`offset, this`lastKey, this`pendingIndexEntry, indexBlock
      ensures old(file) <= file && offset == |file| <= old(|file|) + MOST && HandleFits(h)
      ensures Laid(crc, file0, kvs, cuts, handles, index) && |index| == |handles|
      ensures BlockAt(crc, file, h, index, InternalRank)
    {
      hide Laid, BlockBuilder.Inv, InternalRank, BlockAt, Fence, HandleFits, HandleBytes;
      index := indexBlock.kvs;
      if pendingIndexEntry {
        PendingFacts(file0);
        var separator := Successor();
        PutIndexEntry(separator);
        IndexDone(crc, file0, kvs, cuts, handles, index, separator);
        index := indexBlock.kvs;
        lastKey := separator;
        pendingIndexEntry := false;
      }
      h := WriteBlock(indexBlock);
    }

    /** A short key after the last. */
    method Successor() returns (separator: Bytes)
      requires kvs != [] && lastKey == kvs[|kvs| - 1].key && IsInternal(lastKey)
      ensures |separator| <= |lastKey| && InternalRank(lastKey) <= InternalRank(separator) && Fence(kvs, |kvs|, separator)
    {
      separator := InternalSuccessor(lastKey);
      InternalRankOrders(lastKey, separator);
      SuccessorFences(kvs, separator);
    }

    lemma NoneLeft()
      requires Pending() && dataBlock.kvs == []
      ensures |cuts| == |handles| + 1 && cuts[|handles|] == |kvs|
    {
    }

    method WriteBlock(block: BlockBuilder) returns (h: BlockHandle)
      requires block.Inv() && offset == |file| < U64 / 4
      modifies this`file, this`offset, block
      ensures block.Inv() && block.kvs == [] && block.buffer == []
      ensures old(file) <= file && offset == |file| <= old(|file|) + MOST && h.offset == |old(file)|
      ensures BlockAt(crc, file, h, old(block.kvs), block.rank) && HandleFits(h)
      ensures h.size == old(|block.buffer|) + 4 * old(|block.restarts|) + 4
    {
      var raw := block.Finish();
      h := WriteRawBlock(raw);
      assert IsBlock(raw, old(block.kvs));
      block.Reset();
    }

    method WriteRawBlock(contents: Bytes) returns (h: BlockHandle)
      requires offset == |file| < U64 / 4 && |contents| < U64 / 4
      modifies this`file, this`offset
      ensures old(file) <= file && offset == |file| == old(|file|) + |contents| + TRAILER
      ensures h.offset == |old(file)| && StoredAt(crc, file, h, contents)
    {
      h := BlockHandle(offset, |contents|);
      ghost var was := file;
      file := file + contents;
      var trailer := [NO_COMPRESSION] + Fixed32(Log.Mask(crc(contents + [NO_COMPRESSION])));
      file := file + trailer;
      offset := offset + |contents| + TRAILER;
      assert file == was + Stored(crc, contents);
    }
  }

  const MOST := 0x8_0000_0000
  const MANY := 0x400_0000

  // ----- Reading -----

  /** An open table: its file, its index block and its filter. */
  class Table {
    const crc: Log.Checksum
    const policy: Policy
    const file: Bytes
    const verify: bool
    const indexBlock: Block
    const filter: FilterBlockReader?

    /** The table's file was written with a policy of its own, and the filter is that one if there is one. */
    ghost predicate Serves(wrote: Policy, name: Bytes, kvs: Entries, t: Layout) {
      && TableFile(crc, wrote, name, file, kvs, t)
      && IsBlock(indexBlock.data, t.index)
      && |indexBlock.data| >= 4
      && indexBlock.size == |indexBlock.data| == indexBlock.restartOffset + 4 + 4 * Block.NumRestarts(indexBlock.data)
      && (filter != null ==> filter.Opened() && wrote == Some(filter.policy) && FilterRead(t))
    }

    /** The filters that a lookup asks. */
    ghost function Asked(): Policy {
      if filter == null then None else Some(filter.policy)
    }

    ghost predicate FilterRead(t: Layout)
      requires filter != null
    {
      && |Filters(filter.policy, t.groups)| < U32
      && filter.contents == FilterBlockBytes(filter.policy, t.groups)
    }

    constructor (checksum: Log.Checksum, p: Policy, bytes: Bytes, check: bool, index: Block, reader: FilterBlockReader?)
      ensures crc == checksum && policy == p && file == bytes && verify == check && indexBlock == index && filter == reader
    {
      crc, policy, file, verify, indexBlock, filter := checksum, p, bytes, check, index, reader;
    }

    /** Look a key up: the index, then the filter, then the block. */
    method InternalGet(k: Bytes, ghost wrote: Policy, ghost name: Bytes, ghost kvs: Entries, ghost t: Layout) returns (found: Option<KV>)
      requires Serves(wrote, name, kvs, t) && IsInternal(k)
      requires filter != null ==> SoundForUsers(filter.policy)
      ensures Looked(Asked(), kvs, t, k, found)
    {
      hide Laid, BlockIter.Inv, InternalRank, BlockAt, FilterAt, FooterBytes, Answers, SoundForUsers, MetaEntries;
      hide PastBlock, Misses;
      found := None;
      var iiter := IndexIterator(wrote, name, kvs, t);
      iiter.Seek(k);
      iiter.ValidMeansPositioned();
      if iiter.Valid() {
        var handleValue := iiter.CurrentValue();
        ghost var i := iiter.pos;
        WhetherMisses(Asked(), kvs, t, k, i);
        IndexEntryIs(wrote, name, kvs, t, i);
        var handle := DecodeHandle(handleValue);
        var mayMatch := true;
        if filter != null && handle.Some? {
          mayMatch := filter.KeyMayMatch(handle.value.0.offset, k);
        }
        if !mayMatch {
          FilteredOut(crc, filter.policy, file, kvs, t, k, i);
        } else {
          found := SeekIn(handle.value.0, k, wrote, name, kvs, t, i);
        }
      } else {
        WhetherMisses(Asked(), kvs, t, k, |t.index|);
        NothingPast(crc, file, kvs, t.cuts, t.handles, t.index, k);
      }
    }

    /** Seek in the block that the index points at. */
    method SeekIn(h: BlockHandle, k: Bytes, ghost wrote: Policy, ghost name: Bytes, ghost kvs: Entries, ghost t: Layout, ghost i: nat) returns (found: Option<KV>)
      requires Serves(wrote, name, kvs, t) && IsInternal(k) && i < |t.index| && IsLowerBoundKV(t.index, InternalRank, k, i)
      requires i < |t.handles| && h == t.handles[i]
      ensures Answers(kvs, k, found) && (found.None? <==> PastBlock(kvs, t.cuts, k, i))
    {
      hide BlockIter.Inv, InternalRank, FilterAt, FooterBytes, Answers, MetaEntries, IndexOf, Ascending, PastBlock;
      ghost var block := kvs[t.cuts[i]..t.cuts[i + 1]];
      assert BlockAt(crc, file, h, block, InternalRank);
      hide BlocksAt, BlockAt;
      var blockIter := OpenBlock(crc, file, h, verify, InternalRank, block);
      blockIter.Seek(k);
      blockIter.ValidMeansPositioned();
      found := None;
      if blockIter.Valid() {
        found := Some(KV(blockIter.Key(), blockIter.CurrentValue()));
      }
      BlockAnswers(crc, file, kvs, t.cuts, t.handles, t.index, k, i, blockIter.pos);
    }

    /** An index entry decodes to the handle of its block. */
    lemma IndexEntryIs(wrote: Policy, name: Bytes, kvs: Entries, t: Layout, i: nat)
      requires Serves(wrote, name, kvs, t) && i < |t.index|
      ensures |t.index| == |t.handles| && ReadHandle(t.index[i].value) == Some((t.handles[i], []))
    {
      hide BlockAt, FilterAt, FooterBytes, Fence, Ascending, InternalRank, ReadHandle, HandleBytes, MetaEntries;
      var h := t.handles[i];
      assert BlockAt(crc, file, h, kvs[t.cuts[i]..t.cuts[i + 1]], InternalRank);
      FitsWhenStored(crc, file, h, kvs[t.cuts[i]..t.cuts[i + 1]], InternalRank);
      HandleRoundTrip(h, []);
      assert HandleBytes(h) + [] == HandleBytes(h);
    }

    method IndexIterator(ghost wrote: Policy, ghost name: Bytes, ghost kvs: Entries, ghost t: Layout) returns (iter: BlockIter)
      requires Serves(wrote, name, kvs, t)
      ensures fresh(iter) && iter.Inv() && iter.kvs == t.index && iter.rank == InternalRank
    {
      hide FinishedBlock, Laid, BlockIter.Inv, InternalRank, StoredAt, FilterAt, FooterBytes, MetaEntries, Block.NumRestarts, Ascending;
      ghost var restarts, offs, shs, ris :| FinishedBlock(indexBlock.data, t.index, restarts, offs, shs, ris);
      var made := indexBlock.NewIterator(InternalRank, t.index, restarts, offs, shs, ris);
      iter := made.value;
    }
  }

  lemma FitsWhenStored(crc: Log.Checksum, file: Bytes, h: BlockHandle, kvs: Entries, rank: Ranking)
    requires BlockAt(crc, file, h, kvs, rank)
    ensures HandleFits(h)
  {
  }

  /** What is asked of a reader's policy: one that goes by the name of the writer's is the writer's. */
  ghost predicate SameByName(policy: Policy, ownName: Bytes, wrote: Policy, name: Bytes) {
    policy.Some? && wrote.Some? && ownName == name ==> policy == wrote
  }

  /** The filters are used by readers whose policy has the name of the one they were written with. */
  ghost function Shared(policy: Policy, ownName: Bytes, wrote: Policy, name: Bytes): Policy {
    if policy.Some? && wrote.Some? && ownName == name then wrote else None
  }

  /** Open a table file, with or without a filter policy, the writer's or another. */
  method Open(crc: Log.Checksum, policy: Policy, ownName: Bytes, file: Bytes, verify: bool,
              ghost wrote: Policy, ghost name: Bytes, ghost kvs: Entries, ghost t: Layout)
    returns (table: Option<Table>)
    requires TableFile(crc, wrote, name, file, kvs, t) && SameByName(policy, ownName, wrote, name)
    ensures table.Some? && fresh(table.value) && table.value.Serves(wrote, name, kvs, t) && table.value.policy == policy
    ensures table.value.Asked() == Shared(policy, ownName, wrote, name)
  {
    hide Laid, FilterAt, FooterBytes, MetaEntries, Ascending, InternalRank, StoredAt, FinishedBlock, Block.NumRestarts;
    if |file| < FOOTER {
      return None;  // file is too short to be an sstable
    }
    var footer := DecodeFooter(file[|file| - FOOTER..]);
    if footer.None? {
      return None;
    }
    ghost var contents :| StoredAt(crc, file, t.indexHandle, contents) && IsBlock(contents, t.index) && Ascending(t.index, InternalRank);
    var read := ReadBlock(crc, file, footer.value.1, verify);
    if read.None? {
      return None;
    }
    ghost var restarts, offs, shs, ris :| FinishedBlock(contents, t.index, restarts, offs, shs, ris);
    TrailerDecodes(contents, t.index, restarts, offs, shs, ris);
    BlockFits(contents, t.index, restarts, offs, shs, ris);
    var indexBlock := new Block(read.value);
    var filter := ReadMeta(crc, policy, ownName, file, footer.value.0, verify, wrote, name, kvs, t);
    var made := new Table(crc, policy, file, verify, indexBlock, filter);
    table := Some(made);
  }

  /** Find the filter by its name in the metaindex block, and read it. */
  method ReadMeta(crc: Log.Checksum, policy: Policy, ownName: Bytes, file: Bytes, metaHandle: BlockHandle, verify: bool,
                  ghost wrote: Policy, ghost name: Bytes, ghost kvs: Entries, ghost t: Layout)
    returns (filter: FilterBlockReader?)
    requires TableFile(crc, wrote, name, file, kvs, t) && metaHandle == t.meta && SameByName(policy, ownName, wrote, name)
    ensures filter != null <==> policy.Some? && wrote.Some? && ownName == name
    ensures filter != null ==> fresh(filter) && filter.Opened() && wrote == Some(filter.policy)
    ensures filter != null ==> |Filters(filter.policy, t.groups)| < U32 && filter.contents == FilterBlockBytes(filter.policy, t.groups)
  {
    hide Laid, FooterBytes, Ascending, InternalRank, Rank, StoredAt, BlockAt, BlockIter.Inv, InFilters, CutsOk, Filters, FilterBlockBytes, ReadHandle;
    if policy.None? {
      return null;
    }
    ghost var meta := MetaEntries(wrote, name, t.filterHandle);
    var iter := OpenBlock(crc, file, metaHandle, verify, Rank, meta);
    var key := FILTER_PREFIX + ownName;
    iter.Seek(key);
    iter.ValidMeansPositioned();
    filter := null;
    PrefixKeepsApart(ownName, name);
    assert wrote.Some? ==> meta[0].key == FILTER_PREFIX + name;
    assert wrote.Some? && ownName == name ==> iter.pos == 0;
    if iter.Valid() && iter.Key() == key {
      var value := iter.CurrentValue();
      StoredFits(crc, file, t.filterHandle, FilterBlockBytes(policy.value, t.groups));
      HandleRoundTrip(t.filterHandle, []);
      assert HandleBytes(t.filterHandle) + [] == value;
      var handle := DecodeHandle(value);
      var block := ReadBlock(crc, file, handle.value.0, verify);
      filter := new FilterBlockReader(policy.value, block.value);
    }
  }

  lemma PrefixKeepsApart(a: Bytes, b: Bytes)
    ensures FILTER_PREFIX + a == FILTER_PREFIX + b <==> a == b
  {
    assert (FILTER_PREFIX + a)[|FILTER_PREFIX|..] == a && (FILTER_PREFIX + b)[|FILTER_PREFIX|..] == b;
  }

  lemma StoredFits(crc: Log.Checksum, file: Bytes, h: BlockHandle, contents: Bytes)
    requires StoredAt(crc, file, h, contents)
    ensures HandleFits(h)
  {
  }

  // ----- From entries to answers -----

  /** What the entries weigh, with what is kept about them. */
  function Weight(kvs: Entries): nat {
    if kvs == [] then 0 else Weight(kvs[..|kvs| - 1]) + |kvs[|kvs| - 1].key| + |kvs[|kvs| - 1].value| + 64
  }

  lemma {:induction false} WeightUpTo(kvs: Entries, i: nat)
    requires i <= |kvs|
    ensures 64 * i <= Weight(kvs[..i]) <= Weight(kvs)
    decreases |kvs|
  {
    if i < |kvs| {
      WeightUpTo(kvs[..|kvs| - 1], i);
      assert kvs[..|kvs| - 1][..i] == kvs[..i];
    } else {
      assert kvs[..i] == kvs;
      if i > 0 {
        WeightUpTo(kvs[..i - 1], i - 1);
        assert kvs[..i - 1][..i - 1] == kvs[..i - 1];
      }
    }
  }

  /** Bloom filters over user keys meet what BuildAndGet asks of a policy. */
  lemma BloomQualifies(hash: Bytes -> Bloom.Word, bitsPerKey: nat)
    ensures Bloom.Sound(Bloom.BloomPolicy(hash, bitsPerKey))
    ensures Compact(InternalPolicy(Bloom.BloomPolicy(hash, bitsPerKey)), bitsPerKey + 9)
  {
    Bloom.BloomIsSound(hash, bitsPerKey);
    hide Bloom.FilterSize, Bloom.BloomFilter, Bloom.Sound;
    var p := InternalPolicy(Bloom.BloomPolicy(hash, bitsPerKey));
    forall keys: seq<Bytes> | keys != [] ensures |p.create(keys)| <= (bitsPerKey + 9) * |keys| {
      assert p.create(keys) == Bloom.BloomFilter(UserKeys(keys), hash, bitsPerKey);
      Bloom.FilterSizeBound(|keys|, bitsPerKey);
    }
  }

  function OverUsers(user: Option<Bloom.FilterPolicy>): Policy {
    if user.None? then None else Some(InternalPolicy(user.value))
  }

  /** Build a table of any ascending internal keys, open it with any filter policy and look a key up: what is
      found is the first entry at or after the key, and nothing is found exactly when the lookup ends past the
      index, behind a block or at a filter, and then no entry from the key on is of its user. */
  method BuildAndGet(kvs: Entries, user: Option<Bloom.FilterPolicy>, b: nat, name: Bytes, interval: nat, blockSize: nat,
                     crc: Log.Checksum, own: Option<Bloom.FilterPolicy>, ownName: Bytes, verify: bool, k: Bytes)
    returns (file: Bytes, ghost t: Layout, found: Option<KV>)
    requires InternalKeysOnly(kvs) && Ascending(kvs, InternalRank) && IsInternal(k) && interval >= 1
    requires Weight(kvs) + blockSize + 128 < U32 && |name| < U32 / 2
    requires user.Some? ==> Bloom.Sound(user.value) && Compact(InternalPolicy(user.value), b) && b * |kvs| < U32
    requires user.Some? && own.Some? && ownName == name ==> own == user
    ensures TableFile(crc, OverUsers(user), name, file, kvs, t)
    ensures Looked(Shared(OverUsers(own), ownName, OverUsers(user), name), kvs, t, k, found)
  {
    hide Looked, TableFile, Ascending, InternalKeysOnly, InternalRank, Table.Serves, Bloom.Sound, Compact, SoundForUsers;
    var policy := OverUsers(user);
    file, t := Build(kvs, policy, b, name, interval, blockSize, crc);
    var table := Open(crc, OverUsers(own), ownName, file, verify, policy, name, kvs, t);
    if user.Some? {
      InternalPolicyIsSound(user.value);
    }
    found := table.value.InternalGet(k, policy, name, kvs, t);
  }

  method Build(kvs: Entries, policy: Policy, b: nat, name: Bytes, interval: nat, blockSize: nat, crc: Log.Checksum)
    returns (file: Bytes, ghost t: Layout)
    requires InternalKeysOnly(kvs) && Ascending(kvs, InternalRank) && interval >= 1
    requires Weight(kvs) + blockSize + 128 < U32 && |name| < U32 / 2
    requires policy.Some? ==> Compact(policy.value, b) && b * |kvs| < U32
    ensures TableFile(crc, policy, name, file, kvs, t)
  {
    hide TableFile, Ascending, InternalKeysOnly, InternalRank, Compact, TableBuilder.Inv, Halfway, FilterBlockBuilder.Added, Weight;
    var builder := new TableBuilder(policy, name, interval, blockSize, crc);
    StartsHalfway(builder, kvs);
    var i := 0;
    while i < |kvs|
      invariant i <= |kvs| && fresh(builder) && fresh(builder.dataBlock) && fresh(builder.indexBlock)
      invariant builder.filterBlock != null ==> fresh(builder.filterBlock)
      invariant builder.Inv() && Halfway(builder, kvs, i)
      invariant builder.policy == policy && builder.name == name && builder.crc == crc && builder.blockSize == blockSize
    {
      AddNext(builder, kvs, i);
      i := i + 1;
    }
    AllAdded(builder, kvs);
    builder.FilterSize(b);
    t := builder.Finish();
    file := builder.file;
  }

  /** The first i entries have been added. */
  ghost predicate Halfway(builder: TableBuilder, kvs: Entries, i: nat)
    requires i <= |kvs|
    reads builder, builder.dataBlock, builder.indexBlock, builder.filterBlock
  {
    && builder.kvs == kvs[..i] && !builder.closed
    && |builder.cuts| <= i + 1 && |builder.dataBlock.buffer| <= builder.blockSize
    && |builder.indexBlock.buffer| + |builder.lastKey| <= Weight(kvs[..i])
    && builder.lastKey == (if i == 0 then [] else kvs[i - 1].key)
    && (builder.filterBlock != null ==> builder.filterBlock.Added() == i)
  }

  lemma StartsHalfway(builder: TableBuilder, kvs: Entries)
    requires builder.Inv() && builder.kvs == [] && !builder.closed && |builder.cuts| == 1
    requires builder.dataBlock.buffer == [] && builder.indexBlock.buffer == [] && builder.lastKey == []
    requires builder.filterBlock != null ==> builder.filterBlock.Added() == 0
    ensures Halfway(builder, kvs, 0)
  {
    hide TableBuilder.Inv, FilterBlockBuilder.Added, Weight;
    assert kvs[..0] == [];
  }

  lemma AllAdded(builder: TableBuilder, kvs: Entries)
    requires builder.Inv() && Halfway(builder, kvs, |kvs|) && Weight(kvs) + 128 < U32
    ensures builder.Inv() && builder.kvs == kvs && !builder.closed && |builder.cuts| < MANY
    ensures |builder.indexBlock.buffer| + |builder.lastKey| + 35 < U32
    ensures builder.filterBlock != null ==> builder.filterBlock.Added() == |kvs|
  {
    hide TableBuilder.Inv;
    WeightUpTo(kvs, |kvs|);
    hide Weight, FilterBlockBuilder.Added;
    assert kvs[..|kvs|] == kvs;
  }

  method AddNext(builder: TableBuilder, kvs: Entries, i: nat)
    requires i < |kvs| && InternalKeysOnly(kvs) && Ascending(kvs, InternalRank) && Weight(kvs) + builder.blockSize + 128 < U32
    requires builder.Inv() && Halfway(builder, kvs, i)
    modifies builder, builder.dataBlock, builder.indexBlock, builder.filterBlock
    ensures builder.Inv() && Halfway(builder, kvs, i + 1)
  {
    hide Weight, FilterBlockBuilder.Added, IsInternal, InternalRank, TableBuilder.Inv, InternalKeysOnly, Ascending;
    NextWeight(builder.kvs, kvs, i);
    NextKey(kvs, i);
    builder.Add(kvs[i].key, kvs[i].value);
  }

  lemma NextWeight(sofar: Entries, kvs: Entries, i: nat)
    requires i < |kvs| && sofar == kvs[..i]
    ensures sofar + [KV(kvs[i].key, kvs[i].value)] == kvs[..i + 1] && 64 * i <= Weight(kvs[..i])
    ensures Weight(kvs[..i + 1]) == Weight(kvs[..i]) + |kvs[i].key| + |kvs[i].value| + 64 <= Weight(kvs)
  {
    WeightUpTo(kvs, i);
    WeightUpTo(kvs, i + 1);
    var next := kvs[..i + 1];
    assert next[..i] == kvs[..i] && next[i] == kvs[i];
  }

  lemma NextKey(kvs: Entries, i: nat)
    requires i < |kvs| && InternalKeysOnly(kvs) && Ascending(kvs, InternalRank)
    ensures IsInternal(kvs[i].key) && (i > 0 ==> InternalRank(kvs[i - 1].key) < InternalRank(kvs[i].key))
  {
    hide InternalRank;
  }
}
