/** Blocks of prefix-compressed entries: each key drops the prefix it shares with the previous one,
    except at restart points, whose offsets follow the entries for binary search. */
module Blocks {
  import opened InternalKeys
  import opened Coding
  import opened Slices

  datatype KV = KV(key: Bytes, value: Bytes)

  /** The comparator, as an order-preserving rank of keys. */
  type Ranking = Bytes -> real

  ghost predicate Ascending(kvs: seq<KV>, rank: Ranking) {
    forall i, j :: 0 <= i < j < |kvs| ==> rank(kvs[i].key) < rank(kvs[j].key)
  }

  ghost predicate IsLowerBoundKV(kvs: seq<KV>, rank: Ranking, target: Bytes, p: nat) {
    && p <= |kvs|
    && (forall i :: 0 <= i < p ==> rank(kvs[i].key) < rank(target))
    && (forall i :: p <= i < |kvs| ==> rank(kvs[i].key) >= rank(target))
  }

  // ----- One entry -----

  function EntryHeader(shared: nat, key: Bytes, value: Bytes): Bytes
    requires shared <= |key|
  {
    Varint(shared) + Varint(|key| - shared) + Varint(|value|)
  }

  function EntryBytes(shared: nat, key: Bytes, value: Bytes): (bs: Bytes)
    requires shared <= |key|
    ensures |bs| == |EntryHeader(shared, key, value)| + |key| - shared + |value|
  {
    EntryHeader(shared, key, value) + key[shared..] + value
  }

  datatype Header = Header(shared: nat, nonShared: nat, valueLength: nat, length: nat)

  /** The header at the start of the bytes, with its length; None when it is cut short or promises
      more bytes than there are. */
  function ReadHeader(bs: Bytes): (r: Option<Header>)
    ensures r.Some? ==> r.value.length <= |bs|
  {
    if |bs| < 3 then None
    else
      var a := ReadWord(bs, 5, U32);
      if a.None? then None
      else
        var b := ReadWord(bs[a.value.1..], 5, U32);
        if b.None? then None
        else
          var k := a.value.1 + b.value.1;
          var c := ReadWord(bs[k..], 5, U32);
          if c.None? then None
          else
            var n := k + c.value.1;
            if |bs| - n < (b.value.0 + c.value.0) % U32 then None
            else Some(Header(a.value.0, b.value.0, c.value.0, n))
  }

  lemma WordRoundTrip(v: nat, rest: Bytes)
    requires v < U32
    ensures ReadWord(Varint(v) + rest, 5, U32) == Some((v, |Varint(v)|))
  {
    VarintFits(v);
    VarintRoundTrip(v, rest, 5);
  }

  /** Reading the header of a written entry gives the lengths it was written with. */
  lemma HeaderRoundTrip(shared: nat, key: Bytes, value: Bytes, rest: Bytes)
    requires shared <= |key| && |key| + |value| < U32
    ensures ReadHeader(EntryBytes(shared, key, value) + rest) ==
        Some(Header(shared, |key| - shared, |value|, |EntryHeader(shared, key, value)|))
  {
    hide Varint, ReadWord;
    var bs := EntryBytes(shared, key, value) + rest;
    var a, b, c := Varint(shared), Varint(|key| - shared), Varint(|value|);
    var body := key[shared..] + value + rest;
    assert bs == a + (b + (c + body));
    WordRoundTrip(shared, b + (c + body));
    assert bs[|a|..] == b + (c + body);
    WordRoundTrip(|key| - shared, c + body);
    assert bs[|a| + |b|..] == c + body;
    WordRoundTrip(|value|, body);
  }

  /** Decode the header at p; the three lengths are usually one byte each. */
  method DecodeEntry(data: Bytes, p: nat, limit: nat) returns (r: Option<Header>)
    requires p <= limit <= |data|
    ensures r == ReadHeader(data[p..limit])
  {
    hide ReadWord;
    ghost var bs := data[p..limit];
    if limit - p < 3 {
      return None;
    }
    var shared, nonShared, valueLength := data[p], data[p + 1], data[p + 2];
    var n;
    if shared < 128 && nonShared < 128 && valueLength < 128 {
      // The usual case: no length reaches 128
      n := 3;
      OneByteWords(bs);
      if limit - p - n < nonShared + valueLength {
        return None;
      }
      return Some(Header(shared, nonShared, valueLength, n));
    }
    var a := GetVarint(data[p..limit], 5, U32);
    if a.None? {
      return None;
    }
    var b := GetVarint(data[p..limit][a.value.1..], 5, U32);
    if b.None? {
      return None;
    }
    var c := GetVarint(data[p..limit][a.value.1 + b.value.1..], 5, U32);
    if c.None? {
      return None;
    }
    n := a.value.1 + b.value.1 + c.value.1;
    if limit - p - n < (b.value.0 + c.value.0) % U32 {
      return None;
    }
    r := Some(Header(a.value.0, b.value.0, c.value.0, n));
  }

  lemma OneByteWords(bs: Bytes)
    requires |bs| >= 3 && bs[0] < 128 && bs[1] < 128 && bs[2] < 128
    ensures ReadWord(bs, 5, U32) == Some((bs[0], 1))
    ensures ReadWord(bs[1..], 5, U32) == Some((bs[1], 1))
    ensures ReadWord(bs[2..], 5, U32) == Some((bs[2], 1))
  {
  }

  // ----- A whole block -----

  /** Where entry i lies and what it shares with entry i - 1. */
  ghost predicate EntryAt(data: Bytes, kvs: seq<KV>, offs: seq<nat>, shs: seq<nat>, i: nat)
    requires i < |kvs| == |shs| && |offs| == |kvs| + 1
  {
    && offs[i] < offs[i + 1] <= |data|
    && shs[i] <= |kvs[i].key|
    && data[offs[i]..offs[i + 1]] == EntryBytes(shs[i], kvs[i].key, kvs[i].value)
    && (if i == 0 then shs[i] == 0
        else shs[i] <= |kvs[i - 1].key| && kvs[i - 1].key[..shs[i]] == kvs[i].key[..shs[i]])
  }

  /** `data` holds the entries one after the other, and `restarts` the offsets of some of them that
      share nothing with their predecessor: entry 0, and the entries listed in ris. */
  ghost predicate BlockOf(data: Bytes, restarts: seq<nat>, kvs: seq<KV>, offs: seq<nat>, shs: seq<nat>, ris: seq<nat>) {
    && |shs| == |kvs| && |offs| == |kvs| + 1 && |ris| == |restarts| > 0
    && offs[0] == 0 && offs[|kvs|] == |data|
    && (forall i :: 0 <= i < |kvs| ==> EntryAt(data, kvs, offs, shs, i))
    && ris[0] == 0
    && (forall r :: 0 <= r < |ris| ==> ris[r] <= |kvs| && restarts[r] == offs[ris[r]])
    && (forall r :: 0 < r < |ris| ==> ris[r] < |kvs| && shs[ris[r]] == 0)
    && (forall r, t :: 0 <= r < t < |ris| ==> ris[r] < ris[t])
  }

  lemma {:induction false} OffsetsIncrease(data: Bytes, restarts: seq<nat>, kvs: seq<KV>, offs: seq<nat>,
                                           shs: seq<nat>, ris: seq<nat>, i: nat, j: nat)
    requires BlockOf(data, restarts, kvs, offs, shs, ris) && i <= j <= |kvs|
    ensures offs[i] + (j - i) <= offs[j] <= |data|
    decreases j - i
  {
    if i < j {
      OffsetsIncrease(data, restarts, kvs, offs, shs, ris, i + 1, j);
      assert EntryAt(data, kvs, offs, shs, i);
    } else if j < |kvs| {
      assert EntryAt(data, kvs, offs, shs, j);
    }
  }

  /** The entry of a block at offset offs[i], decoded from its bytes. */
  lemma DecodeAt(data: Bytes, restarts: seq<nat>, kvs: seq<KV>, offs: seq<nat>, shs: seq<nat>, ris: seq<nat>, i: nat)
    requires BlockOf(data, restarts, kvs, offs, shs, ris) && i < |kvs| && |data| < U32
    ensures EntryAt(data, kvs, offs, shs, i)
    ensures var h := |EntryHeader(shs[i], kvs[i].key, kvs[i].value)|;
        var n := |kvs[i].key| - shs[i];
        && ReadHeader(data[offs[i]..]) == Some(Header(shs[i], n, |kvs[i].value|, h))
        && offs[i] + h + n + |kvs[i].value| == offs[i + 1] <= |data|
        && data[offs[i] + h..offs[i] + h + n] == kvs[i].key[shs[i]..]
        && data[offs[i] + h + n..offs[i + 1]] == kvs[i].value
  {
    assert EntryAt(data, kvs, offs, shs, i);
    KeyLengthBound(data, restarts, kvs, offs, shs, ris, i);
    EntryParts(data, offs[i], offs[i + 1], shs[i], kvs[i].key, kvs[i].value);
  }

  /** The bytes of an entry within a block. */
  lemma EntryParts(data: Bytes, p: nat, q: nat, shared: nat, key: Bytes, value: Bytes)
    requires shared <= |key| && |key| + |value| < U32 && p <= q <= |data|
    requires data[p..q] == EntryBytes(shared, key, value)
    ensures var h := |EntryHeader(shared, key, value)|;
        var n := |key| - shared;
        && ReadHeader(data[p..]) == Some(Header(shared, n, |value|, h))
        && p + h + n + |value| == q
        && data[p + h..p + h + n] == key[shared..]
        && data[p + h + n..q] == value
  {
    hide EntryHeader, ReadHeader;
    var entry := EntryBytes(shared, key, value);
    var rest := data[q..];
    assert data[p..] == data[p..q] + rest;
    HeaderRoundTrip(shared, key, value, rest);
    var h, n := |EntryHeader(shared, key, value)|, |key| - shared;
    assert entry[h..h + n] == key[shared..] && entry[h + n..|entry|] == value;
    SliceOfSlice(data, p, q, h, h + n);
    SliceOfSlice(data, p, q, h + n, |entry|);
  }

  /** A key is no longer than the data up to the end of its entry, less its value. */
  lemma {:induction false} KeyLengthBound(data: Bytes, restarts: seq<nat>, kvs: seq<KV>, offs: seq<nat>,
                                          shs: seq<nat>, ris: seq<nat>, i: nat)
    requires BlockOf(data, restarts, kvs, offs, shs, ris) && i < |kvs|
    ensures |kvs[i].key| + |kvs[i].value| <= offs[i + 1] <= |data|
  {
    assert EntryAt(data, kvs, offs, shs, i);
    if i > 0 {
      KeyLengthBound(data, restarts, kvs, offs, shs, ris, i - 1);
    }
  }

  // ----- The iterator -----

  /** A cursor over a block: binary search over the restart points, then entries decoded one by one. */
  class BlockIter {
    const contents: Bytes
    const restartOffset: nat  // where the entries end and the restart offsets start
    const numRestarts: nat
    const rank: Ranking

    var current: nat          // offset of the current entry, restartOffset when not positioned
    var restartIndex: nat     // restart block in which the current entry falls
    var key: Bytes
    var valueStart: nat
    var valueLength: nat
    var corrupted: bool

    ghost const kvs: seq<KV>
    ghost const offs: seq<nat>
    ghost const shs: seq<nat>
    ghost const ris: seq<nat>
    ghost const restarts: seq<nat>
    ghost var pos: nat        // position among the entries, |kvs| when not positioned

    ghost function Data(): Bytes
      requires restartOffset <= |contents|
    {
      contents[..restartOffset]
    }

    /** The bytes hold a well-formed block of kvs. */
    ghost predicate Holds() {
      && |contents| == restartOffset + 4 * numRestarts + 4 && restartOffset < U32
      && |restarts| == numRestarts
      && (forall i :: 0 <= i < numRestarts ==> DecodeFixed32(contents[restartOffset + 4 * i..]) == restarts[i])
      && BlockOf(Data(), restarts, kvs, offs, shs, ris)
      && Ascending(kvs, rank)
    }

    lemma HoldsSizes()
      requires Holds()
      ensures |offs| == |kvs| + 1 && |shs| == |kvs| && |ris| == |restarts| == numRestarts > 0
      ensures offs[|kvs|] == restartOffset && ris[0] == 0
      ensures forall r :: 0 <= r < numRestarts ==> ris[r] <= |kvs|
    {
    }

    function NextEntryOffset(): nat
      reads this
    {
      valueStart + valueLength
    }

    ghost predicate SharesWith(e: nat, k: Bytes)
      requires Holds() && e < |kvs|
    {
      && shs[e] <= |k| && shs[e] <= |kvs[e].key|
      && k[..shs[e]] == kvs[e].key[..shs[e]]
    }

    /** Entry e comes next: it starts where the last value ends, and what it shares with its
        predecessor is in the key buffer. */
    ghost predicate Ready(e: nat)
      requires Holds()
      reads this
    {
      && e <= |kvs| && NextEntryOffset() == offs[e]
      && (e < |kvs| ==> SharesWith(e, key))
      && restartIndex < numRestarts && ris[restartIndex] <= e
    }

    ghost predicate Inv()
      reads this
    {
      && Holds() && pos <= |kvs| && !corrupted
      && (pos == |kvs| ==> current == restartOffset)
      && (pos < |kvs| ==>
            && current == offs[pos] && key == kvs[pos].key
            && valueStart + valueLength <= restartOffset
            && contents[valueStart..valueStart + valueLength] == kvs[pos].value
            && NextEntryOffset() == offs[pos + 1]
            && restartIndex < numRestarts && ris[restartIndex] <= pos)
    }

    predicate Valid()
      reads this
    {
      current < restartOffset
    }

    /** Being positioned shows in the offset. */
    lemma ValidMeansPositioned()
      requires Inv()
      ensures Valid() <==> pos < |kvs|
    {
      if pos < |kvs| {
        OffsetsIncrease(Data(), restarts, kvs, offs, shs, ris, pos, |kvs|);
      }
    }

    function Key(): (k: Bytes)
      requires Inv() && Valid()
      reads this
      ensures pos < |kvs| && k == kvs[pos].key
    {
      key
    }

    function CurrentValue(): (v: Bytes)
      requires Inv() && Valid()
      reads this
      ensures pos < |kvs| && v == kvs[pos].value
    {
      contents[valueStart..valueStart + valueLength]
    }

    constructor (bytes: Bytes, offset: nat, count: nat, ranking: Ranking, ghost entries: seq<KV>,
                 ghost os: seq<nat>, ghost ss: seq<nat>, ghost rs: seq<nat>, ghost points: seq<nat>)
      requires |bytes| == offset + 4 * count + 4 && offset < U32 && |points| == count
      requires forall i :: 0 <= i < count ==> DecodeFixed32(bytes[offset + 4 * i..]) == points[i]
      requires BlockOf(bytes[..offset], points, entries, os, ss, rs) && Ascending(entries, ranking)
      ensures Inv() && !Valid() && kvs == entries && rank == ranking
    {
      contents, restartOffset, numRestarts, rank := bytes, offset, count, ranking;
      current, restartIndex, key, valueStart, valueLength, corrupted := offset, count, [], 0, 0, false;
      kvs, offs, shs, ris, restarts := entries, os, ss, rs, points;
      pos := |entries|;
    }

    function GetRestartPoint(index: nat): (offset: nat)
      requires Holds() && index < numRestarts
      ensures offset == restarts[index] == offs[ris[index]]
    {
      DecodeFixed32(contents[restartOffset + 4 * index..])
    }

    method SeekToRestartPoint(index: nat)
      requires Holds() && index < numRestarts
      modifies this
      ensures Ready(ris[index]) && restartIndex == index && corrupted == old(corrupted)
    {
      key := [];
      restartIndex := index;
      var offset := GetRestartPoint(index);
      valueStart, valueLength := offset, 0;
      if ris[index] < |kvs| {
        RestartSharesNothing(index);
      }
    }

    lemma RestartSharesNothing(index: nat)
      requires Holds() && index < numRestarts && ris[index] < |kvs|
      ensures shs[ris[index]] == 0
    {
      if index == 0 {
        assert EntryAt(Data(), kvs, offs, shs, 0);
      }
    }

    /** What the bytes at the start of entry e hold. */
    ghost predicate Decodes(e: nat)
      requires Holds() && e < |kvs|
    {
      && shs[e] <= |kvs[e].key| && offs[e] < offs[e + 1] <= restartOffset
      && var h := |EntryHeader(shs[e], kvs[e].key, kvs[e].value)|;
      var n := |kvs[e].key| - shs[e];
      var p := offs[e] + h;
      && ReadHeader(contents[offs[e]..restartOffset]) == Some(Header(shs[e], n, |kvs[e].value|, h))
      && p + n + |kvs[e].value| == offs[e + 1] <= restartOffset
      && contents[p..p + n] == kvs[e].key[shs[e]..]
      && contents[p + n..offs[e + 1]] == kvs[e].value
    }

    lemma DecodesHere(e: nat)
      requires Holds() && e < |kvs|
      ensures Decodes(e)
    {
      hide BlockOf, Ascending, ReadHeader, EntryHeader;
      HoldsSizes();
      DecodeAt(Data(), restarts, kvs, offs, shs, ris, e);
      var h := |EntryHeader(shs[e], kvs[e].key, kvs[e].value)|;
      var n := |kvs[e].key| - shs[e];
      var p := offs[e] + h;
      assert Data()[offs[e]..] == Data()[offs[e]..restartOffset];
      SliceOfPrefix(contents, restartOffset, offs[e], restartOffset);
      SliceOfPrefix(contents, restartOffset, p, p + n);
      SliceOfPrefix(contents, restartOffset, p + n, offs[e + 1]);
    }

    /** Decode the entry that comes next, if there is one. */
    method ParseNextKey(ghost e: nat) returns (more: bool)
      requires Holds() && !corrupted && Ready(e)
      modifies this
      ensures Inv() && pos == e && (more <==> e < |kvs|)
      ensures more ==> restartIndex >= old(restartIndex)
    {
      hide BlockOf, Ascending, ReadHeader, EntryHeader;
      HoldsSizes();
      current := NextEntryOffset();
      if current >= restartOffset {
        if e < |kvs| {
          DecodesHere(e);
        }
        current := restartOffset;
        restartIndex := numRestarts;
        pos := e;
        return false;
      }
      EndIsLast(e);
      DecodesHere(e);
      var header := DecodeEntry(contents, current, restartOffset);
      if header.None? || |key| < header.value.shared {
        assert false;  // the bytes hold a well-formed block
      } else {
        var h := header.value;
        var p := current + h.length;
        key := key[..h.shared] + contents[p..p + h.nonShared];
        assert kvs[e].key == kvs[e].key[..h.shared] + kvs[e].key[h.shared..];
        valueStart, valueLength := p + h.nonShared, h.valueLength;
        pos := e;
        AdvanceRestartIndex();
        more := true;
      }
    }

    /** Entry |kvs| would start where the restart offsets do. */
    lemma EndIsLast(e: nat)
      requires Holds() && e <= |kvs| && offs[e] < restartOffset
      ensures e < |kvs|
    {
    }

    /** Keep the restart index at the last restart point before the current entry. */
    method AdvanceRestartIndex()
      requires Inv() && pos < |kvs|
      modifies this`restartIndex
      ensures Inv() && restartIndex >= old(restartIndex)
    {
      hide BlockOf, Ascending;
      while restartIndex + 1 < numRestarts && GetRestartPoint(restartIndex + 1) < current
        invariant Inv() && restartIndex >= old(restartIndex)
        decreases numRestarts - restartIndex
      {
        RestartBefore(restartIndex + 1, pos);
        restartIndex := restartIndex + 1;
      }
    }

    /** A restart point that starts before entry e is the start of an earlier entry. */
    lemma RestartBefore(index: nat, e: nat)
      requires Holds() && index < numRestarts && e <= |kvs| && offs[ris[index]] < offs[e]
      ensures ris[index] < e
    {
      if e <= ris[index] {
        OffsetsIncrease(Data(), restarts, kvs, offs, shs, ris, e, ris[index]);
      }
    }

    /** After a valid entry the next one is ready. */
    lemma NextIsReady()
      requires Inv() && pos < |kvs|
      ensures Ready(pos + 1)
    {
      if pos + 1 < |kvs| {
        assert EntryAt(Data(), kvs, offs, shs, pos + 1);
      }
    }

    method Next()
      requires Inv() && Valid()
      modifies this
      ensures Inv() && pos == old(pos) + 1
    {
      ValidMeansPositioned();
      NextIsReady();
      var more := ParseNextKey(pos + 1);
    }

    method SeekToFirst()
      requires Inv()
      modifies this
      ensures Inv() && pos == 0
    {
      SeekToRestartPoint(0);
      var more := ParseNextKey(0);
    }

    lemma OffsetOrder(i: nat, j: nat)
      requires Holds() && i <= |kvs| && j <= |kvs| && |offs| == |kvs| + 1
      ensures i < j <==> offs[i] < offs[j]
    {
      if i < j {
        OffsetsIncrease(Data(), restarts, kvs, offs, shs, ris, i, j);
      } else {
        OffsetsIncrease(Data(), restarts, kvs, offs, shs, ris, j, i);
      }
    }

    /** Decode entries from e on until one ends at or past `limit`, the start of entry `stop`. */
    method ParseUntil(ghost e: nat, limit: nat, ghost stop: nat)
      requires Holds() && !corrupted && Ready(e) && e <= stop <= |kvs| && limit == offs[stop]
      requires e < stop || stop == |kvs|
      modifies this
      ensures Inv() && pos == if e < stop then stop - 1 else |kvs|
    {
      hide BlockOf, Ascending;
      HoldsSizes();
      var more := ParseNextKey(e);
      if more {
        OffsetOrder(pos + 1, stop);
      }
      while more && NextEntryOffset() < limit
        invariant Inv() && (more <==> e < stop) && (more <==> pos < |kvs|)
        invariant more ==> pos < stop && (pos + 1 < stop <==> NextEntryOffset() < limit)
        decreases |kvs| - pos
      {
        NextIsReady();
        more := ParseNextKey(pos + 1);
        OffsetOrder(pos + 1, stop);
      }
    }

    method SeekToLast()
      requires Inv()
      modifies this
      ensures Inv() && pos == if kvs == [] then 0 else |kvs| - 1
    {
      SeekToRestartPoint(numRestarts - 1);
      ParseUntil(ris[restartIndex], restartOffset, |kvs|);
    }

    /** Go back to the last restart point before the current entry, and decode forward up to it. */
    method Prev()
      requires Inv() && Valid()
      modifies this
      ensures Inv() && pos == if old(pos) == 0 then |kvs| else old(pos) - 1
    {
      ValidMeansPositioned();
      var original := current;
      ghost var p := pos;
      while GetRestartPoint(restartIndex) >= original
        invariant Holds() && !corrupted && restartIndex < numRestarts && pos == p && current == original
        invariant ris[restartIndex] <= p < |kvs| && original == offs[p]
        decreases restartIndex
      {
        if ris[restartIndex] < p {
          OffsetsIncrease(Data(), restarts, kvs, offs, shs, ris, ris[restartIndex], p);
        }
        if restartIndex == 0 {
          current := restartOffset;
          restartIndex := numRestarts;
          pos := |kvs|;
          return;
        }
        restartIndex := restartIndex - 1;
      }
      SeekToRestartPoint(restartIndex);
      ParseUntil(ris[restartIndex], original, p);
    }

    lemma LaterRestart(index: nat)
      requires Holds() && 0 < index < numRestarts
      ensures |ris| == numRestarts && ris[index] < |kvs| == |shs| && shs[ris[index]] == 0
    {
    }

    /** From a restart point on, no restart point has a key before the target. */
    ghost predicate NoneBeforeFrom(index: nat, target: Bytes)
      requires Holds()
    {
      forall r :: index <= r < numRestarts && ris[r] < |kvs| ==> rank(kvs[ris[r]].key) >= rank(target)
    }

    lemma RestartsFrom(index: nat, target: Bytes)
      requires Holds() && index < numRestarts && ris[index] < |kvs| && rank(kvs[ris[index]].key) >= rank(target)
      ensures NoneBeforeFrom(index, target)
    {
      forall r | index <= r < numRestarts && ris[r] < |kvs| ensures rank(kvs[ris[r]].key) >= rank(target) {
        assert r > index ==> ris[index] < ris[r];
      }
    }

    /** Halve the restart points until the last one whose key precedes the target is left. */
    method SearchRestarts(target: Bytes) returns (left: nat)
      requires Holds()
      ensures left < numRestarts
      ensures left > 0 ==> ris[left] < |kvs| && rank(kvs[ris[left]].key) < rank(target)
      ensures NoneBeforeFrom(left + 1, target)
    {
      hide BlockOf, ReadHeader, EntryHeader, Ascending;
      HoldsSizes();
      left := 0;
      var right := numRestarts - 1;
      while left < right
        invariant left <= right < numRestarts
        invariant left > 0 ==> ris[left] < |kvs| && rank(kvs[ris[left]].key) < rank(target)
        invariant NoneBeforeFrom(right + 1, target)
      {
        var mid := (left + right + 1) / 2;
        var region := GetRestartPoint(mid);
        ghost var e := ris[mid];
        LaterRestart(mid);
        DecodesHere(e);
        var header := DecodeEntry(contents, region, restartOffset);
        if header.None? || header.value.shared != 0 {
          assert false;  // restart entries share nothing
        } else {
          var p := region + header.value.length;
          var midKey := contents[p..p + header.value.nonShared];
          if rank(midKey) < rank(target) {
            left := mid;
          } else {
            RestartsFrom(mid, target);
            right := mid - 1;
          }
        }
      }
    }

    lemma BeforeRestart(left: nat, target: Bytes)
      requires Holds() && left < numRestarts && (left > 0 ==> ris[left] < |kvs| && rank(kvs[ris[left]].key) < rank(target))
      ensures ris[left] <= |kvs|
      ensures forall i :: 0 <= i < ris[left] ==> rank(kvs[i].key) < rank(target)
    {
    }

    lemma FromHere(target: Bytes, p: nat)
      requires Holds() && p <= |kvs| && (p < |kvs| ==> rank(kvs[p].key) >= rank(target))
      requires forall i :: 0 <= i < p ==> rank(kvs[i].key) < rank(target)
      ensures IsLowerBoundKV(kvs, rank, target, p)
    {
    }

    /** Go to where the target is, or would be. */
    method Seek(target: Bytes)
      requires Inv()
      modifies this
      ensures Inv() && IsLowerBoundKV(kvs, rank, target, pos)
    {
      hide BlockOf, Ascending;
      HoldsSizes();
      var left := SearchRestarts(target);
      BeforeRestart(left, target);

      SeekToRestartPoint(left);
      var more := ParseNextKey(ris[left]);
      while more && rank(key) < rank(target)
        invariant Inv() && (more <==> pos < |kvs|)
        invariant forall i :: 0 <= i < pos ==> rank(kvs[i].key) < rank(target)
        decreases |kvs| - pos
      {
        NextIsReady();
        more := ParseNextKey(pos + 1);
      }
      FromHere(target, pos);
    }
  }
}
