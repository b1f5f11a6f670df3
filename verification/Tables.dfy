/** Tables: sorted entries in blocks, an index with one short key for each block, and a filter; and the
    lookup of a key through all three. */
module Tables {
  import opened InternalKeys
  import opened Coding
  import opened KeyBytes
  import opened Blocks
  import opened BlockBuilding
  import opened TableFormat
  import opened FilterBlocks
  import Bloom
  import Log

  type Entries = seq<KV>

  // ----- Filters over user keys -----

  /** A policy that looks at the user keys of internal keys only. */
  function InternalPolicy(p: Bloom.FilterPolicy): Bloom.FilterPolicy {
    Bloom.FilterPolicy(keys => p.create(UserKeys(keys)), (key, filter) => p.mayMatch(UserKey(key), filter))
  }

  function UserKey(k: Bytes): Bytes {
    if IsInternal(k) then UserOf(k) else k
  }

  function UserKeys(keys: seq<Bytes>): (users: seq<Bytes>)
    ensures |users| == |keys| && forall i :: 0 <= i < |keys| ==> users[i] == UserKey(keys[i])
  {
    seq(|keys|, i requires 0 <= i < |keys| => UserKey(keys[i]))
  }

  /** A key matches a filter of keys of which one has the same user key. */
  ghost predicate SoundForUsers(p: Bloom.FilterPolicy) {
    forall keys, key, other :: other in keys && UserKey(other) == UserKey(key) ==> p.mayMatch(key, p.create(keys))
  }

  lemma InternalPolicyIsSound(p: Bloom.FilterPolicy)
    requires Bloom.Sound(p)
    ensures SoundForUsers(InternalPolicy(p))
  {
    forall keys: seq<Bytes>, key, other | other in keys && UserKey(other) == UserKey(key)
      ensures p.mayMatch(UserKey(key), p.create(UserKeys(keys)))
    {
      var i :| 0 <= i < |keys| && keys[i] == other;
      assert UserKeys(keys)[i] == UserKey(key);
    }
  }

  // ----- What a table file holds -----

  ghost predicate InternalKeysOnly(kvs: Entries) {
    forall i :: 0 <= i < |kvs| ==> IsInternal(kvs[i].key)
  }

  /** Where the entries are cut into blocks; those after the last cut are not in a block yet. */
  ghost predicate CutsOk(kvs: Entries, cuts: seq<nat>) {
    && |cuts| > 0 && cuts[0] == 0 && cuts[|cuts| - 1] <= |kvs|
    && forall i, j :: 0 <= i < j < |cuts| ==> cuts[i] < cuts[j] <= |kvs|
  }

  /** The index key for the entries before c: no smaller than they are, smaller than the entries from c on,
      and of a smaller user than those unless it is the key of an entry. */
  ghost predicate Fence(kvs: Entries, c: nat, separator: Bytes) {
    && 0 < c <= |kvs| && IsInternal(separator) && separator == IndexKey(kvs, c)
    && InternalRank(kvs[c - 1].key) <= InternalRank(separator)
    && (c < |kvs| ==>
          && InternalRank(separator) < InternalRank(kvs[c].key)
          && (separator == kvs[c - 1].key || Rank(UserKey(separator)) < Rank(UserKey(kvs[c].key))))
  }

  /** It depends on the keys on both sides. */
  function IndexKey(kvs: Entries, c: nat): Bytes
    requires 0 < c <= |kvs|
  {
    if c < |kvs| then SeparatorOf(kvs[c - 1].key, kvs[c].key) else SuccessorOf(kvs[c - 1].key)
  }

  ghost predicate BlocksAt(crc: Log.Checksum, file: Bytes, kvs: Entries, cuts: seq<nat>, handles: seq<BlockHandle>)
    requires CutsOk(kvs, cuts) && |cuts| == |handles| + 1
  {
    forall i :: 0 <= i < |handles| ==> BlockAt(crc, file, handles[i], kvs[cuts[i]..cuts[i + 1]], InternalRank)
  }

  ghost predicate IndexOf(kvs: Entries, cuts: seq<nat>, handles: seq<BlockHandle>, index: Entries)
    requires |cuts| == |handles| + 1
  {
    && |index| <= |handles|
    && forall i :: 0 <= i < |index| ==> index[i].value == HandleBytes(handles[i]) && Fence(kvs, cuts[i + 1], index[i].key)
  }

  /** Ascending entries, cut into blocks that are in the file, with an index of them. */
  ghost predicate Laid(crc: Log.Checksum, file: Bytes, kvs: Entries, cuts: seq<nat>, handles: seq<BlockHandle>, index: Entries) {
    && InternalKeysOnly(kvs) && Ascending(kvs, InternalRank)
    && CutsOk(kvs, cuts) && |cuts| == |handles| + 1
    && BlocksAt(crc, file, kvs, cuts, handles) && IndexOf(kvs, cuts, handles, index)
  }

  /** The filter was told of each key, with the offset of its block. */
  ghost predicate Promises(promised: set<(nat, Bytes)>, kvs: Entries, cuts: seq<nat>, handles: seq<BlockHandle>, offset: nat)
    requires CutsOk(kvs, cuts) && |cuts| == |handles| + 1
  {
    && (forall i, q :: 0 <= i < |handles| && cuts[i] <= q < cuts[i + 1] ==> (handles[i].offset, kvs[q].key) in promised)
    && (forall q :: cuts[|handles|] <= q < |kvs| ==> (offset, kvs[q].key) in promised)
  }

  /** Each key is in the filter group of its block. */
  ghost predicate InFilters(groups: seq<Keys>, kvs: Entries, cuts: seq<nat>, handles: seq<BlockHandle>)
    requires CutsOk(kvs, cuts) && |cuts| == |handles| + 1
  {
    forall i, q :: 0 <= i < |handles| && cuts[i] <= q < cuts[i + 1] ==>
      var g := handles[i].offset / BASE;
      g < |groups| && kvs[q].key in groups[g]
  }

  datatype Layout = Layout(cuts: seq<nat>, handles: seq<BlockHandle>, index: Entries, groups: seq<Keys>,
                           meta: BlockHandle, indexHandle: BlockHandle, filterHandle: BlockHandle)

  function MetaEntries(policy: Option<Bloom.FilterPolicy>, name: Bytes, filterHandle: BlockHandle): Entries {
    if policy.None? then [] else [KV(FILTER_PREFIX + name, HandleBytes(filterHandle))]
  }

  const FILTER_PREFIX: Bytes := [102, 105, 108, 116, 101, 114, 46]  // "filter."

  ghost predicate FilterAt(crc: Log.Checksum, policy: Bloom.FilterPolicy, file: Bytes, kvs: Entries, cuts: seq<nat>,
                           handles: seq<BlockHandle>, groups: seq<Keys>, h: BlockHandle) {
    && CutsOk(kvs, cuts) && |cuts| == |handles| + 1
    && |Filters(policy, groups)| < U32
    && StoredAt(crc, file, h, FilterBlockBytes(policy, groups))
    && InFilters(groups, kvs, cuts, handles)
  }

  ghost predicate TableFile(crc: Log.Checksum, policy: Option<Bloom.FilterPolicy>, name: Bytes, file: Bytes, kvs: Entries, t: Layout) {
    && Laid(crc, file, kvs, t.cuts, t.handles, t.index) && t.cuts[|t.handles|] == |kvs| && |t.index| == |t.handles|
    && BlockAt(crc, file, t.indexHandle, t.index, InternalRank)
    && BlockAt(crc, file, t.meta, MetaEntries(policy, name, t.filterHandle), Rank)
    && (policy.Some? ==> FilterAt(crc, policy.value, file, kvs, t.cuts, t.handles, t.groups, t.filterHandle))
    && |file| >= FOOTER && HandleFits(t.meta) && HandleFits(t.indexHandle)
    && file[|file| - FOOTER..] == FooterBytes(t.meta, t.indexHandle)
  }

  // ----- How it grows -----

  lemma StillFence(kvs: Entries, kv: KV, c: nat, separator: Bytes)
    requires Fence(kvs, c, separator) && c < |kvs|
    ensures Fence(kvs + [kv], c, separator)
  {
    hide InternalRank, Rank, SeparatorOf, SuccessorOf;
    assert (kvs + [kv])[c - 1] == kvs[c - 1] && (kvs + [kv])[c] == kvs[c];
  }

  /** Before an entry is added, the index gets a key for the last block if it has none yet. */
  ghost predicate IndexGrows(kvs: Entries, kv: KV, cuts: seq<nat>, handles: seq<BlockHandle>, index: Entries, index': Entries)
  {
    |cuts| == |handles| + 1 &&
    if index' == index then |index| == |handles| && (handles != [] ==> cuts[|handles|] < |kvs|)
    else
      && |index| == |handles| - 1 && cuts[|handles|] == |kvs| > 0 && |index'| == |handles| && index == index'[..|index|]
      && index'[|index|].value == HandleBytes(handles[|index|])
      && Fence(kvs + [kv], |kvs|, index'[|index|].key)
  }

  lemma IndexGrew(kvs: Entries, kv: KV, cuts: seq<nat>, handles: seq<BlockHandle>, index: Entries, separator: Bytes)
    requires |cuts| == |handles| + 1 && |index| == |handles| - 1 && cuts[|handles|] == |kvs| > 0
    requires Fence(kvs + [kv], |kvs|, separator)
    ensures IndexGrows(kvs, kv, cuts, handles, index, index + [KV(separator, HandleBytes(handles[|handles| - 1]))])
  {
    hide Fence, HandleBytes;
    var index' := index + [KV(separator, HandleBytes(handles[|handles| - 1]))];
    assert index'[..|index|] == index;
  }

  lemma GrownSize(kvs: Entries, kv: KV, cuts: seq<nat>, handles: seq<BlockHandle>, index: Entries, index': Entries)
    requires IndexGrows(kvs, kv, cuts, handles, index, index')
    ensures |index'| == |handles|
  {
  }

  lemma IndexDone(crc: Log.Checksum, file: Bytes, kvs: Entries, cuts: seq<nat>, handles: seq<BlockHandle>, index: Entries, separator: Bytes)
    requires Laid(crc, file, kvs, cuts, handles, index) && |index| == |handles| - 1 && cuts[|handles|] == |kvs| > 0
    requires Fence(kvs, |kvs|, separator)
    ensures Laid(crc, file, kvs, cuts, handles, index + [KV(separator, HandleBytes(handles[|handles| - 1]))])
  {
    hide BlocksAt, Ascending, Fence, HandleBytes;
  }

  lemma IndexAdd(kvs: Entries, cuts: seq<nat>, handles: seq<BlockHandle>, index: Entries, index': Entries, kv: KV)
    requires CutsOk(kvs, cuts) && |cuts| == |handles| + 1 && IndexOf(kvs, cuts, handles, index)
    requires IndexGrows(kvs, kv, cuts, handles, index, index')
    ensures IndexOf(kvs + [kv], cuts, handles, index')
  {
    hide Fence, HandleBytes;
    forall i | 0 <= i < |index'|
      ensures index'[i].value == HandleBytes(handles[i]) && Fence(kvs + [kv], cuts[i + 1], index'[i].key)
    {
      if i < |index| {
        assert index'[i] == index[i];
        assert cuts[i + 1] < |kvs|;
        StillFence(kvs, kv, cuts[i + 1], index[i].key);
      }
    }
  }

  lemma BlocksStay(crc: Log.Checksum, file: Bytes, kvs: Entries, cuts: seq<nat>, handles: seq<BlockHandle>, kv: KV)
    requires CutsOk(kvs, cuts) && |cuts| == |handles| + 1 && BlocksAt(crc, file, kvs, cuts, handles)
    ensures CutsOk(kvs + [kv], cuts) && BlocksAt(crc, file, kvs + [kv], cuts, handles)
  {
    hide BlockAt;
    forall i | 0 <= i < |handles| ensures BlockAt(crc, file, handles[i], (kvs + [kv])[cuts[i]..cuts[i + 1]], InternalRank) {
      assert (kvs + [kv])[cuts[i]..cuts[i + 1]] == kvs[cuts[i]..cuts[i + 1]];
    }
  }

  /** One more entry, after an index entry for the block before it when that waited for one. */
  lemma LaidAdd(crc: Log.Checksum, file: Bytes, kvs: Entries, cuts: seq<nat>, handles: seq<BlockHandle>, index: Entries, index': Entries, kv: KV)
    requires Laid(crc, file, kvs, cuts, handles, index) && IsInternal(kv.key)
    requires kvs != [] ==> InternalRank(kvs[|kvs| - 1].key) < InternalRank(kv.key)
    requires IndexGrows(kvs, kv, cuts, handles, index, index')
    ensures Laid(crc, file, kvs + [kv], cuts, handles, index')
  {
    hide IndexOf, InternalRank, Ascending, BlocksAt, CutsOk, IndexGrows;
    IndexAdd(kvs, cuts, handles, index, index', kv);
    AscendingExtends(kvs, InternalRank, kv);
    BlocksStay(crc, file, kvs, cuts, handles, kv);
  }

  /** The entries after the last cut go to the file as a block. */
  lemma LaidFlush(crc: Log.Checksum, file: Bytes, kvs: Entries, cuts: seq<nat>, handles: seq<BlockHandle>, index: Entries,
                  file': Bytes, h: BlockHandle)
    requires Laid(crc, file, kvs, cuts, handles, index) && file <= file' && cuts[|handles|] < |kvs|
    requires BlockAt(crc, file', h, kvs[cuts[|handles|]..], InternalRank)
    ensures Laid(crc, file', kvs, cuts + [|kvs|], handles + [h], index)
  {
    hide BlockAt, InternalRank, Ascending, Fence;
    var cuts', handles' := cuts + [|kvs|], handles + [h];
    assert CutsOk(kvs, cuts');
    forall i | 0 <= i < |handles'| ensures BlockAt(crc, file', handles'[i], kvs[cuts'[i]..cuts'[i + 1]], InternalRank) {
      if i < |handles| {
        StillBlock(crc, file, file', handles[i], kvs[cuts[i]..cuts[i + 1]], InternalRank);
      } else {
        assert kvs[cuts'[i]..cuts'[i + 1]] == kvs[cuts[|handles|]..];
      }
    }
  }

  /** The file grows by something else. */
  lemma LaidStays(crc: Log.Checksum, file: Bytes, kvs: Entries, cuts: seq<nat>, handles: seq<BlockHandle>, index: Entries, file': Bytes)
    requires Laid(crc, file, kvs, cuts, handles, index) && file <= file'
    ensures Laid(crc, file', kvs, cuts, handles, index)
  {
    hide BlockAt, InternalRank, Ascending, Fence;
    forall i | 0 <= i < |handles| ensures BlockAt(crc, file', handles[i], kvs[cuts[i]..cuts[i + 1]], InternalRank) {
      StillBlock(crc, file, file', handles[i], kvs[cuts[i]..cuts[i + 1]], InternalRank);
    }
  }

  lemma LastKeyIsInternal(crc: Log.Checksum, file: Bytes, kvs: Entries, cuts: seq<nat>, handles: seq<BlockHandle>, index: Entries)
    requires Laid(crc, file, kvs, cuts, handles, index)
    ensures kvs != [] ==> IsInternal(kvs[|kvs| - 1].key)
    ensures |cuts| == |handles| + 1 && cuts[|handles|] <= |kvs| && |index| <= |handles|
    ensures forall i :: 0 <= i < |handles| ==> HandleFits(handles[i])
    ensures CutsOk(kvs, cuts) && Ascending(kvs[cuts[|handles|]..], InternalRank)
  {
    forall i | 0 <= i < |handles| ensures HandleFits(handles[i]) {
      assert BlockAt(crc, file, handles[i], kvs[cuts[i]..cuts[i + 1]], InternalRank);
    }
  }

  /** Every index key is smaller than the last key of a later block. */
  lemma IndexBehind(crc: Log.Checksum, file: Bytes, kvs: Entries, cuts: seq<nat>, handles: seq<BlockHandle>, index: Entries)
    requires Laid(crc, file, kvs, cuts, handles, index) && 0 < |index| < |handles|
    ensures kvs != [] && InternalRank(index[|index| - 1].key) < InternalRank(kvs[|kvs| - 1].key)
  {
    hide InternalRank, BlocksAt;
    var c := cuts[|index|];
    assert Fence(kvs, cuts[|index| - 1 + 1], index[|index| - 1].key);
    assert c < cuts[|index| + 1] <= |kvs|;
    assert c == |kvs| - 1 || InternalRank(kvs[c].key) < InternalRank(kvs[|kvs| - 1].key);
  }

  /** A separator of the last key and the next is a fence between them. */
  lemma SeparatorFences(kvs: Entries, kv: KV, separator: Bytes)
    requires kvs != [] && IsInternal(kvs[|kvs| - 1].key) && IsInternal(kv.key)
    requires var last := kvs[|kvs| - 1].key;
        && IsInternal(separator) && (separator == last || InternalLess(last, separator)) && InternalLess(separator, kv.key)
        && (separator == last || BytesLess(UserOf(separator), UserOf(kv.key)))
        && separator == SeparatorOf(last, kv.key)
    ensures Fence(kvs + [kv], |kvs|, separator)
  {
    InternalRankOrders(kvs[|kvs| - 1].key, separator);
    InternalRankOrders(separator, kv.key);
    RankOrders(UserOf(separator), UserOf(kv.key));
    hide InternalRank, Rank, SeparatorOf;
  }

  lemma SuccessorFences(kvs: Entries, separator: Bytes)
    requires kvs != [] && IsInternal(kvs[|kvs| - 1].key) && IsInternal(separator)
    requires separator == kvs[|kvs| - 1].key || InternalLess(kvs[|kvs| - 1].key, separator)
    requires separator == SuccessorOf(kvs[|kvs| - 1].key)
    ensures Fence(kvs, |kvs|, separator)
  {
    hide SuccessorOf;
    InternalRankOrders(kvs[|kvs| - 1].key, separator);
  }

  lemma PromisesAdd(promised: set<(nat, Bytes)>, kvs: Entries, kv: KV, cuts: seq<nat>, handles: seq<BlockHandle>, offset: nat)
    requires CutsOk(kvs, cuts) && |cuts| == |handles| + 1 && Promises(promised, kvs, cuts, handles, offset)
    ensures CutsOk(kvs + [kv], cuts) && Promises(promised + {(offset, kv.key)}, kvs + [kv], cuts, handles, offset)
  {
  }

  /** When everything is in a block, every key is in its filter. */
  lemma PromisesKept(promised: set<(nat, Bytes)>, kvs: Entries, cuts: seq<nat>, handles: seq<BlockHandle>, offset: nat, groups: seq<Keys>)
    requires CutsOk(kvs, cuts) && |cuts| == |handles| + 1 && Promises(promised, kvs, cuts, handles, offset) && AllIn(promised, groups)
    ensures InFilters(groups, kvs, cuts, handles)
  {
  }

  lemma PromisesFlush(promised: set<(nat, Bytes)>, kvs: Entries, cuts: seq<nat>, handles: seq<BlockHandle>, h: BlockHandle, offset: nat)
    requires CutsOk(kvs, cuts) && |cuts| == |handles| + 1 && Promises(promised, kvs, cuts, handles, h.offset) && cuts[|handles|] < |kvs|
    ensures CutsOk(kvs, cuts + [|kvs|]) && Promises(promised, kvs, cuts + [|kvs|], handles + [h], offset)
  {
    var cuts', handles' := cuts + [|kvs|], handles + [h];
    assert CutsOk(kvs, cuts');
    forall i, q | 0 <= i < |handles'| && cuts'[i] <= q < cuts'[i + 1] ensures (handles'[i].offset, kvs[q].key) in promised {
      if i < |handles| {
        assert cuts'[i + 1] == cuts[i + 1];
      }
    }
  }

  /** The pieces written one after the other make a table. */
  lemma PiecesMakeTable(crc: Log.Checksum, policy: Option<Bloom.FilterPolicy>, name: Bytes, kvs: Entries, t: Layout,
                  file0: Bytes, file1: Bytes, file2: Bytes, file3: Bytes, file: Bytes)
    requires file0 <= file1 <= file2 <= file3 && file == file3 + FooterOf(t)
    requires Laid(crc, file0, kvs, t.cuts, t.handles, t.index) && t.cuts[|t.handles|] == |kvs| && |t.index| == |t.handles|
    requires policy.Some? ==> FilterAt(crc, policy.value, file1, kvs, t.cuts, t.handles, t.groups, t.filterHandle)
    requires BlockAt(crc, file2, t.meta, MetaEntries(policy, name, t.filterHandle), Rank)
    requires BlockAt(crc, file3, t.indexHandle, t.index, InternalRank)
    requires HandleFits(t.meta) && HandleFits(t.indexHandle)
    ensures TableFile(crc, policy, name, file, kvs, t)
  {
    hide Laid, BlockAt, InFilters, CutsOk, StoredAt, FilterBlockBytes, Filters, MetaEntries, InternalRank, Rank, FooterBytes;
    LaidStays(crc, file0, kvs, t.cuts, t.handles, t.index, file);
    StillBlock(crc, file2, file, t.meta, MetaEntries(policy, name, t.filterHandle), Rank);
    StillBlock(crc, file3, file, t.indexHandle, t.index, InternalRank);
    if policy.Some? {
      StillStored(crc, file1, file, t.filterHandle, FilterBlockBytes(policy.value, t.groups));
    }
  }

  function FooterOf(t: Layout): Bytes {
    if HandleFits(t.meta) && HandleFits(t.indexHandle) then FooterBytes(t.meta, t.indexHandle) else []
  }

  // ----- Looking up -----

  /** What is true of every answer of a lookup: it is the first entry at or after the key, or it is None and
      no entry from there on is of the key's user. */
  ghost predicate Answers(kvs: Entries, k: Bytes, found: Option<KV>) {
    && (found.Some? ==> FirstAtOrAfter(kvs, InternalRank, k, found))
    && (found.None? ==> forall q :: 0 <= q < |kvs| && InternalRank(kvs[q].key) >= InternalRank(k) ==> UserKey(kvs[q].key) != UserKey(k))
  }

  /** The key is past the last entry of block i. */
  ghost predicate PastBlock(kvs: Entries, cuts: seq<nat>, k: Bytes, i: nat) {
    i + 1 < |cuts| && 0 < cuts[i + 1] <= |kvs| && InternalRank(kvs[cuts[i + 1] - 1].key) < InternalRank(k)
  }

  /** The filter for block i does not match the key. */
  ghost predicate Refuses(policy: Option<Bloom.FilterPolicy>, t: Layout, k: Bytes, i: nat) {
    && policy.Some? && i < |t.handles| && |Filters(policy.value, t.groups)| < U32
    && !ReaderMatch(policy.value, FilterBlockBytes(policy.value, t.groups), t.handles[i].offset, k)
  }

  /** The index sends the key to block i, or past all blocks, and there the search ends without an entry. */
  ghost predicate MissesAt(policy: Option<Bloom.FilterPolicy>, kvs: Entries, t: Layout, k: Bytes, i: nat) {
    && IsLowerBoundKV(t.index, InternalRank, k, i)
    && (i < |t.index| ==> PastBlock(kvs, t.cuts, k, i) || Refuses(policy, t, k, i))
  }

  ghost predicate Misses(policy: Option<Bloom.FilterPolicy>, kvs: Entries, t: Layout, k: Bytes) {
    exists i: nat :: MissesAt(policy, kvs, t, k, i)
  }

  /** A lookup of any such key in such a table gives this. */
  ghost predicate Looked(policy: Option<Bloom.FilterPolicy>, kvs: Entries, t: Layout, k: Bytes, found: Option<KV>) {
    Answers(kvs, k, found) && (found.None? <==> Misses(policy, kvs, t, k))
  }

  lemma LowerBoundUnique(kvs: Entries, rank: Ranking, k: Bytes, i: nat, j: nat)
    requires IsLowerBoundKV(kvs, rank, k, i) && IsLowerBoundKV(kvs, rank, k, j)
    ensures i == j
  {
    assert i < |kvs| ==> rank(kvs[i].key) >= rank(k);
    assert j < |kvs| ==> rank(kvs[j].key) >= rank(k);
  }

  lemma {:induction false} LowerBoundExists(kvs: Entries, rank: Ranking, k: Bytes) returns (i: nat)
    requires Ascending(kvs, rank)
    ensures IsLowerBoundKV(kvs, rank, k, i)
  {
    if kvs == [] || rank(kvs[0].key) >= rank(k) {
      i := 0;
    } else {
      var j := LowerBoundExists(kvs[1..], rank, k);
      i := j + 1;
      assert forall q :: 0 < q < |kvs| ==> kvs[q] == kvs[1..][q - 1];
    }
  }

  lemma WhetherMisses(policy: Option<Bloom.FilterPolicy>, kvs: Entries, t: Layout, k: Bytes, i: nat)
    requires IsLowerBoundKV(t.index, InternalRank, k, i)
    ensures Misses(policy, kvs, t, k) <==> MissesAt(policy, kvs, t, k, i)
  {
    hide InternalRank, PastBlock, Refuses, IsLowerBoundKV;
    forall j: nat | MissesAt(policy, kvs, t, k, j) ensures i == j {
      LowerBoundUnique(t.index, InternalRank, k, i, j);
    }
  }

  /** The key lies between the last entry of block i and the index key of that block. */
  ghost predicate InGap(kvs: Entries, t: Layout, k: Bytes, i: nat) {
    i < |t.index| && PastBlock(kvs, t.cuts, k, i) && InternalRank(k) <= InternalRank(t.index[i].key)
  }

  /** When a lookup finds nothing: the key is past all entries, or in the gap between a block and its index
      key, or the filter refuses it.  In the second case a scan of the entries would go on to the next
      block. */
  lemma WhenNothingIsFound(crc: Log.Checksum, policy: Option<Bloom.FilterPolicy>, name: Bytes, file: Bytes, kvs: Entries, t: Layout, k: Bytes)
    requires TableFile(crc, policy, name, file, kvs, t)
    ensures Misses(policy, kvs, t, k) <==>
        || FirstAtOrAfter(kvs, InternalRank, k, None)
        || (exists i: nat :: InGap(kvs, t, k, i))
        || (exists i: nat :: i < |t.index| && IsLowerBoundKV(t.index, InternalRank, k, i) && Refuses(policy, t, k, i))
  {
    hide InternalRank, BlocksAt, FilterAt, MetaEntries, FooterBytes, Refuses, HandleBytes, IsBlock, StoredAt;
    var i := LowerBoundExists(t.index, InternalRank, k);
    WhetherMisses(policy, kvs, t, k, i);
    if FirstAtOrAfter(kvs, InternalRank, k, None) && i < |t.index| {
      assert PastBlock(kvs, t.cuts, k, i);
    }
    forall j: nat | InGap(kvs, t, k, j) ensures i == j {
      GapIsBound(crc, file, kvs, t, k, j);
      LowerBoundUnique(t.index, InternalRank, k, i, j);
    }
    if i == |t.index| {
      AllBefore(crc, file, kvs, t.cuts, t.handles, t.index, k);
      assert IsLowerBoundKV(kvs, InternalRank, k, |kvs|);
    } else if PastBlock(kvs, t.cuts, k, i) {
      assert InGap(kvs, t, k, i);
    }
    forall j: nat | j < |t.index| && IsLowerBoundKV(t.index, InternalRank, k, j) && Refuses(policy, t, k, j) ensures i == j {
      LowerBoundUnique(t.index, InternalRank, k, i, j);
    }
  }

  /** The index sends a key in a gap to the block before the gap. */
  lemma GapIsBound(crc: Log.Checksum, file: Bytes, kvs: Entries, t: Layout, k: Bytes, i: nat)
    requires Laid(crc, file, kvs, t.cuts, t.handles, t.index) && |t.index| == |t.handles| && Ascending(t.index, InternalRank)
    requires InGap(kvs, t, k, i)
    ensures IsLowerBoundKV(t.index, InternalRank, k, i)
  {
    hide InternalRank, Laid;
    if i > 0 {
      FenceBefore(crc, file, kvs, t.cuts, t.handles, t.index, i);
    }
  }

  lemma FenceBefore(crc: Log.Checksum, file: Bytes, kvs: Entries, cuts: seq<nat>, handles: seq<BlockHandle>, index: Entries, i: nat)
    requires Laid(crc, file, kvs, cuts, handles, index) && |index| == |handles| && 0 < i < |index|
    ensures cuts[i] < cuts[i + 1] <= |kvs| && InternalRank(index[i - 1].key) < InternalRank(kvs[cuts[i + 1] - 1].key)
  {
    hide InternalRank, BlocksAt, HandleBytes, IndexKey, UserKey, Rank;
    var c, last := cuts[i], cuts[i + 1] - 1;
    assert Fence(kvs, cuts[i - 1 + 1], index[i - 1].key);
    assert c == last || InternalRank(kvs[c].key) < InternalRank(kvs[last].key);
  }

  lemma AllBefore(crc: Log.Checksum, file: Bytes, kvs: Entries, cuts: seq<nat>, handles: seq<BlockHandle>, index: Entries, k: Bytes)
    requires Laid(crc, file, kvs, cuts, handles, index) && |index| == |handles| && cuts[|handles|] == |kvs|
    requires IsLowerBoundKV(index, InternalRank, k, |index|)
    ensures forall q :: 0 <= q < |kvs| ==> InternalRank(kvs[q].key) < InternalRank(k)
  {
    hide InternalRank, BlocksAt;
    if kvs != [] {
      var n := |handles|;
      assert Fence(kvs, cuts[n], index[n - 1].key);
      forall q | 0 <= q < |kvs| ensures InternalRank(kvs[q].key) < InternalRank(k) {
        assert q == |kvs| - 1 || InternalRank(kvs[q].key) < InternalRank(kvs[|kvs| - 1].key);
      }
    }
  }

  /** Past the last index key there is nothing. */
  lemma NothingPast(crc: Log.Checksum, file: Bytes, kvs: Entries, cuts: seq<nat>, handles: seq<BlockHandle>, index: Entries, k: Bytes)
    requires Laid(crc, file, kvs, cuts, handles, index) && |index| == |handles| && cuts[|handles|] == |kvs|
    requires IsLowerBoundKV(index, InternalRank, k, |index|)
    ensures Answers(kvs, k, None)
  {
    hide InternalRank, Laid;
    AllBefore(crc, file, kvs, cuts, handles, index, k);
  }

  /** Entries before a block are smaller than what the index sends to the block. */
  lemma BlocksBefore(kvs: Entries, cuts: seq<nat>, handles: seq<BlockHandle>, index: Entries, k: Bytes, i: nat, q: nat)
    requires Ascending(kvs, InternalRank) && CutsOk(kvs, cuts) && |cuts| == |handles| + 1 && IndexOf(kvs, cuts, handles, index)
    requires i < |index| == |handles| && IsLowerBoundKV(index, InternalRank, k, i) && q < cuts[i]
    ensures InternalRank(kvs[q].key) < InternalRank(k)
  {
    hide InternalRank;
    assert Fence(kvs, cuts[i - 1 + 1], index[i - 1].key);
    assert q == cuts[i] - 1 || InternalRank(kvs[q].key) < InternalRank(kvs[cuts[i] - 1].key);
  }

  /** Entries after a block are not of the user of a key that lies after the block's entries. */
  lemma BlocksAfter(kvs: Entries, cuts: seq<nat>, handles: seq<BlockHandle>, index: Entries, k: Bytes, i: nat, q: nat)
    requires Ascending(kvs, InternalRank) && InternalKeysOnly(kvs) && CutsOk(kvs, cuts) && |cuts| == |handles| + 1
    requires IndexOf(kvs, cuts, handles, index) && IsInternal(k)
    requires i < |index| == |handles| && InternalRank(index[i].key) >= InternalRank(k) && cuts[i + 1] <= q < |kvs|
    requires InternalRank(kvs[cuts[i + 1] - 1].key) < InternalRank(k)
    ensures UserKey(kvs[q].key) != UserKey(k)
  {
    var c, separator := cuts[i + 1], index[i].key;
    assert Fence(kvs, c, separator);
    assert q == c || InternalRank(kvs[c].key) < InternalRank(kvs[q].key);
    InternalRankOrders(separator, k);
    InternalRankOrders(kvs[q].key, kvs[c].key);
    hide InternalRank;
    RankOrders(UserOf(separator), UserOf(k));
    RankOrders(UserOf(kvs[q].key), UserOf(kvs[c].key));
  }

  /** What a seek in the right block finds is what a scan of all entries finds. */
  lemma BlockAnswers(crc: Log.Checksum, file: Bytes, kvs: Entries, cuts: seq<nat>, handles: seq<BlockHandle>, index: Entries, k: Bytes, i: nat, p: nat)
    requires Laid(crc, file, kvs, cuts, handles, index) && |index| == |handles| && IsInternal(k)
    requires i < |index| && IsLowerBoundKV(index, InternalRank, k, i)
    requires IsLowerBoundKV(kvs[cuts[i]..cuts[i + 1]], InternalRank, k, p)
    ensures var block := kvs[cuts[i]..cuts[i + 1]];
        Answers(kvs, k, if p < |block| then Some(block[p]) else None) && (p < |block| <==> !PastBlock(kvs, cuts, k, i))
  {
    hide InternalRank, BlocksAt;
    var low, high := cuts[i], cuts[i + 1];
    var block := kvs[low..high];
    forall q | 0 <= q < low ensures InternalRank(kvs[q].key) < InternalRank(k) {
      BlocksBefore(kvs, cuts, handles, index, k, i, q);
    }
    forall q | low <= q < low + p ensures InternalRank(kvs[q].key) < InternalRank(k) {
      assert block[q - low] == kvs[q];
    }
    assert block[|block| - 1] == kvs[high - 1];
    if p < |block| {
      assert block[p] == kvs[low + p];
      assert IsLowerBoundKV(kvs, InternalRank, k, low + p);
    } else {
      forall q | high <= q < |kvs| ensures UserKey(kvs[q].key) != UserKey(k) {
        assert block[high - 1 - low] == kvs[high - 1];
        BlocksAfter(kvs, cuts, handles, index, k, i, q);
      }
    }
  }

  lemma BetweenSameUser(k: Bytes, key: Bytes, later: Bytes)
    requires IsInternal(k) && IsInternal(key) && IsInternal(later) && UserOf(k) == UserOf(later)
    requires InternalRank(k) <= InternalRank(key) <= InternalRank(later)
    ensures UserOf(key) == UserOf(k)
  {
    InternalRankOrders(key, k);
    InternalRankOrders(later, key);
    LessOrMore(UserOf(key), UserOf(k));
  }

  /** When the filter of the right block says no, no entry from the key on is of its user. */
  lemma FilteredOut(crc: Log.Checksum, policy: Bloom.FilterPolicy, file: Bytes, kvs: Entries, t: Layout, k: Bytes, i: nat)
    requires Laid(crc, file, kvs, t.cuts, t.handles, t.index) && |t.index| == |t.handles| && IsInternal(k)
    requires i < |t.index| && IsLowerBoundKV(t.index, InternalRank, k, i)
    requires SoundForUsers(policy) && FilterAt(crc, policy, file, kvs, t.cuts, t.handles, t.groups, t.filterHandle)
    requires !ReaderMatch(policy, FilterBlockBytes(policy, t.groups), t.handles[i].offset, k)
    ensures Answers(kvs, k, None)
  {
    hide InternalRank, BlocksAt, ReaderMatch, FilterBlockBytes, StoredAt, Filters, Fence, HandleBytes;
    var low, high := t.cuts[i], t.cuts[i + 1];
    var g := t.handles[i].offset / BASE;
    ReaderAsks(policy, t.groups, t.handles[i].offset, k);
    assert g < |t.groups| && kvs[high - 1].key in t.groups[g];
    forall q | 0 <= q < |kvs| && InternalRank(kvs[q].key) >= InternalRank(k) ensures UserKey(kvs[q].key) != UserKey(k) {
      if q < low {
        BlocksBefore(kvs, t.cuts, t.handles, t.index, k, i, q);
      } else if q < high {
        assert kvs[q].key in t.groups[g];
      } else if InternalRank(kvs[high - 1].key) < InternalRank(k) {
        BlocksAfter(kvs, t.cuts, t.handles, t.index, k, i, q);
      } else if UserKey(kvs[q].key) == UserKey(k) {
        assert q == high - 1 || InternalRank(kvs[high - 1].key) < InternalRank(kvs[q].key);
        BetweenSameUser(k, kvs[high - 1].key, kvs[q].key);
      }
    }
  }
}
