/** Building blocks, opening them, and the round trip between the two. */
module BlockBuilding {
  import opened InternalKeys
  import opened Coding
  import opened Blocks

  /** The length of the longest prefix two keys share. */
  function CommonPrefix(a: Bytes, b: Bytes): (n: nat)
    ensures n <= |a| && n <= |b| && a[..n] == b[..n]
    ensures n < |a| && n < |b| ==> a[n] != b[n]
  {
    if a == [] || b == [] || a[0] != b[0] then 0
    else
      var n := CommonPrefix(a[1..], b[1..]);
      assert a[..n + 1] == [a[0]] + a[1..][..n] && b[..n + 1] == [b[0]] + b[1..][..n];
      n + 1
  }

  lemma {:induction false} CommonPrefixIs(a: Bytes, b: Bytes, n: nat)
    requires n <= |a| && n <= |b| && a[..n] == b[..n]
    requires n == |a| || n == |b| || a[n] != b[n]
    ensures n == CommonPrefix(a, b)
  {
    if n > 0 {
      assert a[0] == a[..n][0] && b[0] == b[..n][0];
      assert a[1..][..n - 1] == a[..n][1..] && b[1..][..n - 1] == b[..n][1..];
      CommonPrefixIs(a[1..], b[1..], n - 1);
    }
  }

  // ----- The trailer -----

  function RestartBytes(restarts: seq<nat>): (bs: Bytes)
    requires forall r :: 0 <= r < |restarts| ==> restarts[r] < U32
    ensures |bs| == 4 * |restarts|
  {
    if restarts == [] then []
    else RestartBytes(restarts[..|restarts| - 1]) + Fixed32(restarts[|restarts| - 1])
  }

  lemma {:induction false} RestartDecodes(restarts: seq<nat>, r: nat, rest: Bytes)
    requires forall t :: 0 <= t < |restarts| ==> restarts[t] < U32
    requires r < |restarts|
    ensures DecodeFixed32((RestartBytes(restarts) + rest)[4 * r..]) == restarts[r]
  {
    hide DecodeFixed32, Fixed32;
    var n := |restarts| - 1;
    var last := Fixed32(restarts[n]);
    var bs := RestartBytes(restarts) + rest;
    assert bs == RestartBytes(restarts[..n]) + (last + rest);
    if r == n {
      assert bs[4 * r..] == last + rest;
      Fixed32RoundTrip(restarts[n], rest);
    } else {
      RestartDecodes(restarts[..n], r, last + rest);
    }
  }

  /** A finished block: the entries, the restart offsets and their count. */
  ghost predicate FinishedBlock(bytes: Bytes, kvs: seq<KV>, restarts: seq<nat>, offs: seq<nat>, shs: seq<nat>, ris: seq<nat>) {
    && |restarts| < U32 && (forall r :: 0 <= r < |restarts| ==> restarts[r] < U32)
    && var n := |bytes| - 4 * |restarts| - 4;
    && 0 <= n < U32
    && bytes == bytes[..n] + RestartBytes(restarts) + Fixed32(|restarts|)
    && BlockOf(bytes[..n], restarts, kvs, offs, shs, ris)
  }

  // ----- The builder -----

  /** A restart point every n entries. */
  ghost predicate Spaced(ris: seq<nat>, n: nat) {
    forall r, t :: 0 <= r && t == r + 1 && t < |ris| ==> ris[t] == ris[r] + n
  }

  /** How much of a key its predecessor shares. */
  method SharedLength(last: Bytes, key: Bytes) returns (shared: nat)
    ensures shared == CommonPrefix(last, key)
  {
    shared := 0;
    var minLength := if |last| < |key| then |last| else |key|;
    while shared < minLength && last[shared] == key[shared]
      invariant shared <= minLength && last[..shared] == key[..shared]
    {
      assert last[..shared + 1] == last[..shared] + [last[shared]];
      assert key[..shared + 1] == key[..shared] + [key[shared]];
      shared := shared + 1;
    }
    CommonPrefixIs(last, key, shared);
  }

  /** Append one encoded entry. */
  method PutEntry(buffer: Bytes, shared: nat, key: Bytes, value: Bytes) returns (r: Bytes)
    requires shared <= |key| && |key| + |value| < U32
    ensures r == buffer + EntryBytes(shared, key, value)
  {
    r := PutVarint32(buffer, shared);
    r := PutVarint32(r, |key| - shared);
    r := PutVarint32(r, |value|);

    // Add the key delta followed by the value
    r := r + key[shared..];
    r := r + value;
  }

  /** Before Finish: the buffer holds the entries added so far, with a restart point every
      n entries and `counter` entries since the last one. */
  ghost predicate Building(buffer: Bytes, restarts: seq<nat>, counter: nat, lastKey: Bytes, kvs: seq<KV>,
                           offs: seq<nat>, shs: seq<nat>, ris: seq<nat>, n: nat, rank: Ranking) {
    && |buffer| < U32
    && BlockOf(buffer, restarts, kvs, offs, shs, ris) && Ascending(kvs, rank)
    && lastKey == (if kvs == [] then [] else kvs[|kvs| - 1].key)
    && counter == |kvs| - ris[|ris| - 1] <= n
    && Spaced(ris, n)
  }

  lemma BuildingSizes(buffer: Bytes, restarts: seq<nat>, counter: nat, lastKey: Bytes, kvs: seq<KV>,
                      offs: seq<nat>, shs: seq<nat>, ris: seq<nat>, n: nat, rank: Ranking)
    requires Building(buffer, restarts, counter, lastKey, kvs, offs, shs, ris, n, rank)
    ensures |ris| == |restarts| > 0 && |offs| == |kvs| + 1 && |shs| == |kvs| && counter <= n
    ensures lastKey == if kvs == [] then [] else kvs[|kvs| - 1].key
    ensures ris[|ris| - 1] < |kvs| || (kvs == [] && |ris| == 1)
    ensures kvs == [] ==> counter == 0
  {
    if |ris| == 1 && kvs != [] {
      assert ris[0] == 0;
    }
  }

  /** One more entry after fewer than n since the last restart point. */
  lemma BuildOneMore(buffer: Bytes, restarts: seq<nat>, counter: nat, lastKey: Bytes, kvs: seq<KV>,
                     offs: seq<nat>, shs: seq<nat>, ris: seq<nat>, n: nat, rank: Ranking, kv: KV)
    requires Building(buffer, restarts, counter, lastKey, kvs, offs, shs, ris, n, rank) && counter < n
    requires kvs != [] ==> rank(kv.key) > rank(kvs[|kvs| - 1].key)
    requires |buffer + EntryBytes(CommonPrefix(lastKey, kv.key), kv.key, kv.value)| < U32
    ensures var shared := CommonPrefix(lastKey, kv.key);
        var b := buffer + EntryBytes(shared, kv.key, kv.value);
        Building(b, restarts, counter + 1, kv.key, kvs + [kv], offs + [|b|], shs + [shared], ris, n, rank)
  {
    hide BlockOf, EntryBytes, Spaced, Ascending, CommonPrefix;
    BuildingSizes(buffer, restarts, counter, lastKey, kvs, offs, shs, ris, n, rank);
    Extend(buffer, restarts, restarts, kvs, offs, shs, ris, ris, CommonPrefix(lastKey, kv.key), kv);
    AscendingExtends(kvs, rank, kv);
  }

  /** One more entry at a new restart point. */
  lemma BuildRestart(buffer: Bytes, restarts: seq<nat>, counter: nat, lastKey: Bytes, kvs: seq<KV>,
                     offs: seq<nat>, shs: seq<nat>, ris: seq<nat>, n: nat, rank: Ranking, kv: KV)
    requires n >= 1 && Building(buffer, restarts, counter, lastKey, kvs, offs, shs, ris, n, rank) && counter == n
    requires kvs != [] ==> rank(kv.key) > rank(kvs[|kvs| - 1].key)
    requires |buffer + EntryBytes(0, kv.key, kv.value)| < U32
    ensures var b := buffer + EntryBytes(0, kv.key, kv.value);
        Building(b, restarts + [|buffer|], 1, kv.key, kvs + [kv], offs + [|b|], shs + [0], ris + [|kvs|], n, rank)
  {
    hide BlockOf, EntryBytes, Spaced, Ascending;
    BuildingSizes(buffer, restarts, counter, lastKey, kvs, offs, shs, ris, n, rank);
    Extend(buffer, restarts, restarts + [|buffer|], kvs, offs, shs, ris, ris + [|kvs|], 0, kv);
    AscendingExtends(kvs, rank, kv);
    SpacedExtends(ris, n);
  }

  lemma Completes(last: Bytes, key: Bytes, shared: nat)
    requires shared == CommonPrefix(last, key) || shared == 0
    ensures shared <= |last| && shared <= |key| && last[..shared] + key[shared..] == key
  {
    assert key == key[..shared] + key[shared..];
  }

  lemma SpacedExtends(ris: seq<nat>, n: nat)
    requires Spaced(ris, n) && ris != []
    ensures Spaced(ris + [ris[|ris| - 1] + n], n)
  {
  }

  lemma AscendingExtends(es: seq<KV>, rank: Ranking, kv: KV)
    requires Ascending(es, rank) && (es == [] || rank(kv.key) > rank(es[|es| - 1].key))
    ensures Ascending(es + [kv], rank)
  {
  }

  class BlockBuilder {
    const restartInterval: nat
    const rank: Ranking

    var buffer: Bytes
    var restarts: seq<nat>
    var counter: nat          // entries since the last restart
    var finished: bool
    var lastKey: Bytes

    ghost var kvs: seq<KV>
    ghost var offs: seq<nat>
    ghost var shs: seq<nat>
    ghost var ris: seq<nat>

    ghost predicate Inv()
      reads this
    {
      && !finished && restartInterval >= 1
      && Building(buffer, restarts, counter, lastKey, kvs, offs, shs, ris, restartInterval, rank)
    }

    constructor (interval: nat, ranking: Ranking)
      requires interval >= 1
      ensures Inv() && kvs == [] && buffer == [] && rank == ranking && restartInterval == interval
    {
      restartInterval, rank := interval, ranking;
      buffer, restarts, counter, finished, lastKey := [], [0], 0, false, [];
      kvs, offs, shs, ris := [], [0], [], [0];
    }

    method Reset()
      requires restartInterval >= 1
      modifies this
      ensures Inv() && kvs == [] && buffer == []
    {
      buffer := [];
      restarts := [0];
      counter := 0;
      finished := false;
      lastKey := [];
      kvs, offs, shs, ris := [], [0], [], [0];
    }

    /** Append an entry past all others: a restart entry whole, any other without the longest
        prefix it shares with its predecessor. */
    method Add(key: Bytes, value: Bytes)
      requires Inv() && |buffer| + |key| + |value| + 15 < U32
      requires kvs == [] || rank(key) > rank(kvs[|kvs| - 1].key)
      modifies this
      ensures Inv() && kvs == old(kvs) + [KV(key, value)]
      ensures shs == old(shs) + [if old(counter) < restartInterval then CommonPrefix(old(lastKey), key) else 0]
      ensures |buffer| <= old(|buffer|) + |key| + |value| + 15
    {
      hide Building, EntryBytes, CommonPrefix;
      ghost var share := if counter < restartInterval then CommonPrefix(lastKey, key) else 0;
      EntryIsShort(share, key, value);
      AtMostInterval();
      if counter < restartInterval {
        BuildOneMore(buffer, restarts, counter, lastKey, kvs, offs, shs, ris, restartInterval, rank, KV(key, value));
      } else {
        BuildRestart(buffer, restarts, counter, lastKey, kvs, offs, shs, ris, restartInterval, rank, KV(key, value));
      }
      var shared := 0;
      if counter < restartInterval {
        shared := SharedLength(lastKey, key);
      } else {
        // Here the key is stored whole
        restarts, ris := restarts + [|buffer|], ris + [|kvs|];
        counter := 0;
      }
      buffer := PutEntry(buffer, shared, key, value);
      kvs, offs, shs := kvs + [KV(key, value)], offs + [|buffer|], shs + [shared];

      Completes(lastKey, key, shared);
      lastKey := lastKey[..shared] + key[shared..];
      counter := counter + 1;
    }

    lemma EmptyShows()
      requires Inv()
      ensures buffer == [] <==> kvs == []
    {
      if kvs != [] {
        assert EntryAt(buffer, kvs, offs, shs, 0);
      }
    }

    lemma AtMostInterval()
      requires Inv()
      ensures counter <= restartInterval
    {
    }

    /** Append the restart array and its length. */
    method Finish() returns (bytes: Bytes)
      requires Inv()
      modifies this
      ensures finished && kvs == old(kvs) && bytes == buffer && |bytes| == |old(buffer)| + 4 * |restarts| + 4 < 5 * U32
      ensures restarts == old(restarts)
      ensures FinishedBlock(bytes, kvs, restarts, offs, shs, ris) && Ascending(kvs, rank)
    {
      hide BlockOf, Ascending, Fixed32;
      RestartsFit();
      ghost var data := buffer;
      var i := 0;
      while i < |restarts|
        invariant i <= |restarts| && (forall r :: 0 <= r < |restarts| ==> restarts[r] < U32)
        invariant buffer == data + RestartBytes(restarts[..i])
        invariant restarts == old(restarts) && kvs == old(kvs) && offs == old(offs) && shs == old(shs) && ris == old(ris)
      {
        assert restarts[..i + 1][..i] == restarts[..i];
        buffer := buffer + Fixed32(restarts[i]);
        i := i + 1;
      }
      assert restarts[..|restarts|] == restarts;
      buffer := buffer + Fixed32(|restarts|);
      finished := true;
      bytes := buffer;
      assert bytes[..|data|] == data;
    }

    lemma RestartsFit()
      requires Inv()
      ensures |restarts| < U32 && forall r :: 0 <= r < |restarts| ==> restarts[r] < U32
    {
      OffsetsIncrease(buffer, restarts, kvs, offs, shs, ris, 0, |kvs|);
      forall r | 0 <= r < |restarts| ensures restarts[r] < U32 {
        OffsetsIncrease(buffer, restarts, kvs, offs, shs, ris, ris[r], |kvs|);
      }
      RestartCount(|ris| - 1);
    }

    lemma {:induction false} RestartCount(r: nat)
      requires Inv() && r < |ris|
      ensures r <= ris[r] <= |kvs|
    {
      if r > 0 {
        RestartCount(r - 1);
      }
    }
  }

  lemma EntryIsShort(shared: nat, key: Bytes, value: Bytes)
    requires shared <= |key| && |key| + |value| < U32
    ensures |EntryBytes(shared, key, value)| <= |key| + |value| + 15
  {
    VarintFits(shared);
    VarintFits(|key| - shared);
    VarintFits(|value|);
  }

  /** One more entry, at a new restart point or not, keeps the layout of the block. */
  lemma Extend(data: Bytes, restarts: seq<nat>, newRestarts: seq<nat>, kvs: seq<KV>, offs: seq<nat>, shs: seq<nat>,
               ris: seq<nat>, newRis: seq<nat>, shared: nat, kv: KV)
    requires BlockOf(data, restarts, kvs, offs, shs, ris) && shared <= |kv.key|
    requires kvs == [] ==> shared == 0
    requires kvs != [] ==> shared <= |kvs[|kvs| - 1].key| && kvs[|kvs| - 1].key[..shared] == kv.key[..shared]
    requires ris[|ris| - 1] < |kvs| || kvs == []
    requires || (newRestarts == restarts && newRis == ris)
             || (newRestarts == restarts + [|data|] && newRis == ris + [|kvs|] && shared == 0 && kvs != [])
    ensures var data' := data + EntryBytes(shared, kv.key, kv.value);
        BlockOf(data', newRestarts, kvs + [kv], offs + [|data'|], shs + [shared], newRis)
  {
    var data' := data + EntryBytes(shared, kv.key, kv.value);
    var kvs', offs', shs' := kvs + [kv], offs + [|data'|], shs + [shared];
    forall i | 0 <= i < |kvs'| ensures EntryAt(data', kvs', offs', shs', i) {
      if i < |kvs| {
        assert EntryAt(data, kvs, offs, shs, i);
        assert data'[offs[i]..offs[i + 1]] == data[offs[i]..offs[i + 1]];
      } else {
        assert data'[|data|..] == EntryBytes(shared, kv.key, kv.value);
        HeaderNotEmpty(shared, kv.key, kv.value);
      }
    }
    forall r | 0 <= r < |newRis| ensures newRis[r] <= |kvs'| && newRestarts[r] == offs'[newRis[r]] {
    }
    forall r | 0 < r < |newRis| ensures newRis[r] < |kvs'| && shs'[newRis[r]] == 0 {
    }
    forall r, t | 0 <= r < t < |newRis| ensures newRis[r] < newRis[t] {
    }
  }

  lemma HeaderNotEmpty(shared: nat, key: Bytes, value: Bytes)
    requires shared <= |key|
    ensures |EntryBytes(shared, key, value)| > 0
  {
  }

  // ----- Opening a block -----

  class Block {
    const data: Bytes
    const size: nat           // 0 marks an error
    const restartOffset: nat

    static function NumRestarts(bytes: Bytes): nat
      requires |bytes| >= 4
    {
      DecodeFixed32(bytes[|bytes| - 4..])
    }

    /** The size is kept exactly when the trailer fits in the bytes. */
    constructor (contents: Bytes)
      ensures data == contents
      ensures size != 0 <==> |contents| >= 4 && 4 + 4 * NumRestarts(contents) <= |contents|
      ensures size != 0 ==> size == |contents| == restartOffset + 4 + 4 * NumRestarts(contents)
    {
      data := contents;
      restartOffset := 0;
      if |contents| < 4 {
        size := 0;
      } else {
        var maxRestartsAllowed := (|contents| - 4) / 4;
        var n := NumRestarts(contents);
        if n > maxRestartsAllowed {
          size := 0;
        } else {
          size := |contents|;
          restartOffset := |contents| - (1 + n) * 4;
        }
      }
    }

    /** An iterator over a finished block, not positioned; None for an error. */
    method NewIterator(rank: Ranking, ghost kvs: seq<KV>, ghost restarts: seq<nat>, ghost offs: seq<nat>,
                       ghost shs: seq<nat>, ghost ris: seq<nat>)
      returns (it: Option<BlockIter>)
      requires size != 0 ==> |data| >= 4 && size == |data| == restartOffset + 4 + 4 * NumRestarts(data)
      requires size != 0 ==> FinishedBlock(data, kvs, restarts, offs, shs, ris) && Ascending(kvs, rank)
      ensures it.None? <==> size == 0
      ensures it.Some? ==> fresh(it.value) && it.value.Inv() && !it.value.Valid()
      ensures it.Some? ==> it.value.kvs == kvs && it.value.rank == rank
    {
      hide BlockOf, Ascending, Fixed32, DecodeFixed32;
      if size < 4 {
        return None;
      }
      var numRestarts := NumRestarts(data);
      TrailerDecodes(data, kvs, restarts, offs, shs, ris);
      if numRestarts == 0 {
        assert false;  // a finished block has a restart point
      } else {
        var iter := new BlockIter(data, restartOffset, numRestarts, rank, kvs, offs, shs, ris, restarts);
        it := Some(iter);
      }
    }
  }

  /** The trailer of a finished block decodes to its restart offsets. */
  lemma TrailerDecodes(bytes: Bytes, kvs: seq<KV>, restarts: seq<nat>, offs: seq<nat>, shs: seq<nat>, ris: seq<nat>)
    requires FinishedBlock(bytes, kvs, restarts, offs, shs, ris)
    ensures |bytes| >= 4 && Block.NumRestarts(bytes) == |restarts| > 0
    ensures var n := |bytes| - 4 * |restarts| - 4;
        forall r :: 0 <= r < |restarts| ==> DecodeFixed32(bytes[n + 4 * r..]) == restarts[r]
  {
    hide DecodeFixed32, Fixed32;
    var n := |bytes| - 4 * |restarts| - 4;
    var data, count := bytes[..n], Fixed32(|restarts|);
    assert bytes[|bytes| - 4..] == count + [];
    Fixed32RoundTrip(|restarts|, []);
    var trailer := RestartBytes(restarts) + count;
    forall r | 0 <= r < |restarts| ensures DecodeFixed32(bytes[n + 4 * r..]) == restarts[r] {
      assert bytes[n + 4 * r..] == trailer[4 * r..];
      RestartDecodes(restarts, r, count);
    }
  }

  function EntriesSize(kvs: seq<KV>): nat {
    if kvs == [] then 0
    else EntriesSize(kvs[..|kvs| - 1]) + |kvs[|kvs| - 1].key| + |kvs[|kvs| - 1].value| + 15
  }

  lemma {:induction false} PrefixSize(kvs: seq<KV>, i: nat)
    requires i <= |kvs|
    ensures EntriesSize(kvs[..i]) <= EntriesSize(kvs)
    decreases |kvs| - i
  {
    if i < |kvs| {
      PrefixSize(kvs, i + 1);
      assert kvs[..i + 1][..i] == kvs[..i];
    } else {
      assert kvs[..i] == kvs;
    }
  }

  /** The first entry at or after the target, None when all lie before it. */
  ghost predicate FirstAtOrAfter(kvs: seq<KV>, rank: Ranking, target: Bytes, found: Option<KV>) {
    exists p: nat :: IsLowerBoundKV(kvs, rank, target, p) && found == if p < |kvs| then Some(kvs[p]) else None
  }

  /** Build a block of any ascending entries with any restart interval, open it and iterate over it:
      the entries come back, and a seek lands on the lower bound. */
  method BlockRoundTrip(kvs: seq<KV>, interval: nat, rank: Ranking, target: Bytes)
    returns (out: seq<KV>, found: Option<KV>)
    requires interval >= 1 && Ascending(kvs, rank) && EntriesSize(kvs) < U32
    ensures out == kvs
    ensures FirstAtOrAfter(kvs, rank, target, found)
  {
    var iter := BuildAndOpen(kvs, interval, rank);
    out := ReadAll(iter);
    iter.Seek(target);
    iter.ValidMeansPositioned();
    found := None;
    if iter.Valid() {
      found := Some(KV(iter.Key(), iter.CurrentValue()));
    }
  }

  method BuildAndOpen(kvs: seq<KV>, interval: nat, rank: Ranking) returns (iter: BlockIter)
    requires interval >= 1 && Ascending(kvs, rank) && EntriesSize(kvs) < U32
    ensures fresh(iter) && iter.Inv() && iter.kvs == kvs && iter.rank == rank
  {
    hide BlockOf, Ascending, FinishedBlock, BlockIter.Inv, BlockBuilder.Inv;
    var builder := new BlockBuilder(interval, rank);
    var i := 0;
    while i < |kvs|
      invariant i <= |kvs| && fresh(builder) && builder.Inv() && builder.kvs == kvs[..i]
      invariant builder.rank == rank
      invariant |builder.buffer| <= EntriesSize(kvs[..i])
    {
      PrefixSize(kvs, i + 1);
      assert kvs[..i + 1][..i] == kvs[..i];
      InOrder(kvs, rank, i);
      builder.Add(kvs[i].key, kvs[i].value);
      i := i + 1;
    }
    assert kvs[..|kvs|] == kvs;
    var bytes := builder.Finish();
    TrailerDecodes(bytes, kvs, builder.restarts, builder.offs, builder.shs, builder.ris);
    var block := new Block(bytes);
    BlockFits(bytes, kvs, builder.restarts, builder.offs, builder.shs, builder.ris);
    var made := block.NewIterator(rank, kvs, builder.restarts, builder.offs, builder.shs, builder.ris);
    iter := made.value;
  }

  lemma InOrder(kvs: seq<KV>, rank: Ranking, i: nat)
    requires Ascending(kvs, rank) && i < |kvs|
    ensures i > 0 ==> rank(kvs[i].key) > rank(kvs[i - 1].key)
  {
  }

  lemma BlockFits(bytes: Bytes, kvs: seq<KV>, restarts: seq<nat>, offs: seq<nat>, shs: seq<nat>, ris: seq<nat>)
    requires FinishedBlock(bytes, kvs, restarts, offs, shs, ris)
    ensures 4 + 4 * |restarts| <= |bytes|
  {
  }

  method ReadAll(iter: BlockIter) returns (out: seq<KV>)
    requires iter.Inv()
    modifies iter
    ensures iter.Inv() && out == iter.kvs
  {
    iter.SeekToFirst();
    iter.ValidMeansPositioned();
    out := [];
    while iter.Valid()
      invariant iter.Inv() && iter.pos <= |iter.kvs| && out == iter.kvs[..iter.pos]
      invariant iter.Valid() <==> iter.pos < |iter.kvs|
      decreases |iter.kvs| - iter.pos
    {
      out := out + [KV(iter.Key(), iter.CurrentValue())];
      iter.Next();
      iter.ValidMeansPositioned();
    }
  }
}
