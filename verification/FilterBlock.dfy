/** The filter block of a table: one filter for every two kilobytes of table offsets in which a block
    starts, made from the keys of the blocks that start there. */
module FilterBlocks {
  import opened InternalKeys
  import opened Coding
  import opened BlockBuilding
  import opened Bloom

  const BASE_LG := 11
  const BASE := 2048

  type Keys = seq<Bytes>

  function Flat(keys: Keys): Bytes {
    if keys == [] then [] else Flat(keys[..|keys| - 1]) + keys[|keys| - 1]
  }

  /** What is stored for one group of keys: nothing when it is empty. */
  function FilterOf(policy: FilterPolicy, keys: Keys): Bytes {
    if keys == [] then [] else policy.create(keys)
  }

  function Filters(policy: FilterPolicy, groups: seq<Keys>): Bytes {
    if groups == [] then [] else Filters(policy, groups[..|groups| - 1]) + FilterOf(policy, groups[|groups| - 1])
  }

  lemma {:induction false} FiltersUpTo(policy: FilterPolicy, groups: seq<Keys>, i: nat)
    requires i < |groups|
    ensures var start, limit := |Filters(policy, groups[..i])|, |Filters(policy, groups[..i + 1])|;
        start <= limit <= |Filters(policy, groups)| && Filters(policy, groups)[start..limit] == FilterOf(policy, groups[i])
    decreases |groups|
  {
    var n := |groups| - 1;
    assert groups[..i + 1][..i] == groups[..i];
    if i < n {
      FiltersUpTo(policy, groups[..n], i);
      assert groups[..n][..i] == groups[..i] && groups[..n][..i + 1] == groups[..i + 1];
    } else {
      assert groups[..i + 1] == groups;
    }
  }

  lemma {:induction false} StartsGrow(policy: FilterPolicy, groups: seq<Keys>, i: nat)
    requires i <= |groups|
    ensures |Filters(policy, groups[..i])| <= |Filters(policy, groups)|
    decreases |groups|
  {
    if i < |groups| {
      StartsGrow(policy, groups[..|groups| - 1], i);
      assert groups[..|groups| - 1][..i] == groups[..i];
    } else {
      assert groups[..i] == groups;
    }
  }

  function Count(groups: seq<Keys>): nat {
    if groups == [] then 0 else Count(groups[..|groups| - 1]) + |groups[|groups| - 1]|
  }

  /** At most b bytes a key. */
  ghost predicate Compact(policy: FilterPolicy, b: nat) {
    forall keys :: keys != [] ==> |policy.create(keys)| <= b * |keys|
  }

  lemma {:induction false} FiltersSize(policy: FilterPolicy, groups: seq<Keys>, b: nat)
    requires Compact(policy, b)
    ensures |Filters(policy, groups)| <= b * Count(groups)
    decreases |groups|
  {
    if groups != [] {
      FiltersSize(policy, groups[..|groups| - 1], b);
    }
  }

  lemma SizeBound(policy: FilterPolicy, groups: seq<Keys>, current: Keys, b: nat)
    requires Compact(policy, b)
    ensures |Filters(policy, groups)| + |FilterOf(policy, current)| <= b * (Count(groups) + |current|)
  {
    FiltersSize(policy, groups, b);
    hide Filters, Count;
    assert b * (Count(groups) + |current|) == b * Count(groups) + b * |current|;
  }

  /** A finished filter block: the filters, where each starts, where that list starts, and the base. */
  function FilterBlockBytes(policy: FilterPolicy, groups: seq<Keys>): Bytes
    requires |Filters(policy, groups)| < U32
  {
    Filters(policy, groups) + RestartBytes(Offsets(policy, groups)) + Fixed32(|Filters(policy, groups)|) + [BASE_LG]
  }

  function Offsets(policy: FilterPolicy, groups: seq<Keys>): (offsets: seq<nat>)
    requires |Filters(policy, groups)| < U32
    ensures |offsets| == |groups| && forall i :: 0 <= i < |groups| ==>
        offsets[i] == |Filters(policy, groups[..i])| && offsets[i] < U32
  {
    if groups == [] then []
    else
      var n := |groups| - 1;
      StartsGrow(policy, groups, n);
      var before := Offsets(policy, groups[..n]);
      assert forall i :: 0 <= i < n ==> groups[..n][..i] == groups[..i];
      before + [|Filters(policy, groups[..n])|]
  }

  /** No filter was completed; or one of the keys so far was, and then empty ones. */
  ghost predicate Continued(groups: seq<Keys>, current: Keys, groups': seq<Keys>, current': Keys) {
    if groups' == groups then current' == current
    else
      && current' == [] && |groups| < |groups'| && groups'[..|groups|] == groups && groups'[|groups|] == current
      && forall i :: |groups| < i < |groups'| ==> groups'[i] == []
  }

  /** Each key is in the group of its block's offset. */
  ghost predicate AllIn(promised: set<(nat, Bytes)>, groups: seq<Keys>) {
    forall p :: p in promised ==> p.0 / BASE < |groups| && p.1 in groups[p.0 / BASE]
  }

  // ----- Building -----

  class FilterBlockBuilder {
    const policy: FilterPolicy
    var keys: Bytes            // the keys of the open filter, one after the other
    var start: seq<nat>        // where each of them begins
    var result: Bytes          // the filters that are complete
    var filterOffsets: seq<nat>
    ghost var groups: seq<Keys>            // the keys of each filter so far
    ghost var current: Keys                // the keys since
    ghost var promised: set<(nat, Bytes)>  // each key added so far, with the offset of its block

    /** How long the filters will be when the current one is made. */
    ghost function Size(): nat
      reads this`result, this`current
    {
      |result| + |FilterOf(policy, current)|
    }

    ghost function Added(): nat
      reads this`groups, this`current
    {
      Count(groups) + |current|
    }

    /** Each key is in the group of its block's offset; the last group is still open. */
    ghost predicate Grouped()
      reads this`groups, this`current, this`promised
    {
      forall p :: p in promised ==>
        var i := p.0 / BASE;
        i <= |groups| && p.1 in if i < |groups| then groups[i] else current
    }

    ghost predicate Inv()
      reads this
    {
      && keys == Flat(current) && |start| == |current|
      && (forall i :: 0 <= i < |start| ==> start[i] == |Flat(current[..i])|)
      && result == Filters(policy, groups) && |filterOffsets| == |groups|
      && (forall i :: 0 <= i < |groups| ==> filterOffsets[i] == |Filters(policy, groups[..i])|)
      && Grouped()
    }

    constructor (p: FilterPolicy)
      ensures Inv() && policy == p && groups == [] && current == [] && promised == {}
    {
      policy := p;
      keys, start, result, filterOffsets := [], [], [], [];
      groups, current, promised := [], [], {};
    }

    /** A block begins at an offset: the filters before its own are complete. */
    method StartBlock(blockOffset: nat)
      requires Inv() && blockOffset / BASE >= |groups|
      modifies this
      ensures Inv() && |groups| == blockOffset / BASE && promised == old(promised)
      ensures Size() == old(Size()) && Added() == old(Added())
      ensures Continued(old(groups), old(current), groups, current)
    {
      var filterIndex := blockOffset / BASE;
      while filterIndex > |filterOffsets|
        invariant Inv() && |groups| <= filterIndex && promised == old(promised)
        invariant Size() == old(Size()) && Added() == old(Added())
        invariant Continued(old(groups), old(current), groups, current)
      {
        GenerateFilter();
      }
    }

    /** Add a key of the block that began last. */
    method AddKey(key: Bytes, ghost blockOffset: nat)
      requires Inv() && |groups| == blockOffset / BASE
      modifies this`keys, this`start, this`current, this`promised
      ensures Inv() && current == old(current) + [key] && promised == old(promised) + {(blockOffset, key)} && groups == old(groups)
    {
      start := start + [|keys|];
      keys := keys + key;
      ghost var was := current;
      current := current + [key];
      promised := promised + {(blockOffset, key)};
      assert current[..|was|] == was;
      assert forall i :: 0 <= i < |was| ==> current[..i] == was[..i];
      assert forall k :: k in was ==> k in current;
      assert key in current by { assert current[|was|] == key; }
    }

    /** Make the next filter, of the keys added since the last. */
    method GenerateFilter()
      requires Inv()
      modifies this
      ensures Inv() && groups == old(groups) + [old(current)] && current == [] && promised == old(promised)
      ensures Size() == old(Size()) && Added() == old(Added())
    {
      ghost var was := groups;
      var numKeys := |start|;
      if numKeys == 0 {
        filterOffsets := filterOffsets + [|result|];
      } else {
        var tmpKeys := Unflatten();
        filterOffsets := filterOffsets + [|result|];
        result := result + policy.create(tmpKeys);
        keys := [];
        start := [];
      }
      groups := groups + [current];
      current := [];
      assert groups[..|was|] == was;
      assert forall i :: 0 <= i < |was| ==> groups[..i] == was[..i];
    }

    method Unflatten() returns (tmpKeys: Keys)
      requires Inv()
      ensures tmpKeys == current
    {
      var starts := start + [|keys|];  // so that the last key ends like the others
      tmpKeys := [];
      for i := 0 to |start|
        invariant tmpKeys == current[..i]
      {
        FlatPiece(current, i);
        assert current[..|current|] == current;
        var base, length := starts[i], starts[i + 1] - starts[i];
        tmpKeys := tmpKeys + [keys[base..base + length]];
      }
    }

    /** Complete the block. */
    method Finish() returns (bytes: Bytes)
      requires Inv()
      requires Size() < U32
      modifies this
      ensures Inv() && groups == (if old(current) == [] then old(groups) else old(groups) + [old(current)])
      ensures current == [] && promised == old(promised)
      ensures |Filters(policy, groups)| < U32 && bytes == FilterBlockBytes(policy, groups)
      ensures AllIn(promised, groups)
    {
      if start != [] {
        GenerateFilter();
        assert groups[..|groups| - 1] == old(groups);
      }
      bytes := WithTrailer();
    }

    method WithTrailer() returns (bytes: Bytes)
      requires Inv() && |result| < U32
      ensures |Filters(policy, groups)| < U32 && bytes == FilterBlockBytes(policy, groups)
    {
      hide Filters, Fixed32, FilterOf, Flat;
      var arrayOffset := |result|;
      bytes := result;
      ghost var offsets := Offsets(policy, groups);
      for i := 0 to |filterOffsets|
        invariant bytes == result + RestartBytes(offsets[..i])
      {
        assert offsets[..i + 1][..i] == offsets[..i];
        bytes := bytes + Fixed32(filterOffsets[i]);
      }
      assert offsets[..|filterOffsets|] == offsets;
      bytes := bytes + Fixed32(arrayOffset);
      bytes := bytes + [BASE_LG];
    }
  }

  lemma {:induction false} FlatPiece(ks: Keys, i: nat)
    requires i < |ks|
    ensures |Flat(ks[..i])| + |ks[i]| == |Flat(ks[..i + 1])| <= |Flat(ks)|
    ensures Flat(ks)[|Flat(ks[..i])|..|Flat(ks[..i + 1])|] == ks[i]
    decreases |ks|
  {
    var n := |ks| - 1;
    assert ks[..i + 1][..i] == ks[..i];
    if i < n {
      FlatPiece(ks[..n], i);
      assert ks[..n][..i] == ks[..i] && ks[..n][..i + 1] == ks[..i + 1];
    } else {
      assert ks[..i + 1] == ks;
    }
  }

  // ----- Reading -----

  class FilterBlockReader {
    const policy: FilterPolicy
    const contents: Bytes
    const offsetArray: nat  // where the offset array begins
    const num: nat          // how many filters there are
    const baseLg: nat

    constructor (p: FilterPolicy, bytes: Bytes)
      ensures policy == p && contents == bytes
      ensures Opened()
    {
      policy, contents := p, bytes;
      var n := |bytes|;
      if n < 5 {
        // Not even the five bytes that end every block
        offsetArray, num, baseLg := 0, 0, 0;
      } else {
        var lastWord := DecodeFixed32(bytes[n - 5..]);
        baseLg := bytes[n - 1];
        if lastWord > n - 5 {
          offsetArray, num := 0, 0;
        } else {
          offsetArray := lastWord;
          num := (n - 5 - lastWord) / 4;
        }
      }
    }

    ghost predicate Opened() {
      var n := |contents|;
      if n < 5 || DecodeFixed32(contents[n - 5..]) > n - 5 then num == 0
      else
        && offsetArray == DecodeFixed32(contents[n - 5..])
        && num == (n - 5 - offsetArray) / 4 && baseLg == contents[n - 1]
    }

    method KeyMayMatch(blockOffset: nat, key: Bytes) returns (r: bool)
      requires Opened()
      ensures r == ReaderMatch(policy, contents, blockOffset, key)
    {
      hide PowerOf2, DecodeFixed32;
      var index := blockOffset / PowerOf2(baseLg);
      if index < num {
        var start := DecodeFixed32(contents[offsetArray + index * 4..]);
        var limit := DecodeFixed32(contents[offsetArray + index * 4 + 4..]);
        if start <= limit && limit <= offsetArray {
          var filter := contents[start..limit];
          return policy.mayMatch(key, filter);
        } else if start == limit {
          return false;
        }
      }
      r := true;  // whatever is wrong, no key may be lost
    }
  }

  /** The answer of a reader for any contents. */
  function ReaderMatch(policy: FilterPolicy, contents: Bytes, blockOffset: nat, key: Bytes): bool {
    if |contents| < 5 then true
    else
      var n := |contents| - 5;
      var offsets := DecodeFixed32(contents[n..]);
      if offsets > n then true
      else
        var index := blockOffset / PowerOf2(contents[n + 4]);
        if index >= (n - offsets) / 4 then true
        else
          var at := offsets + index * 4;
          assert at + 8 <= n + 4;
          var start, limit := DecodeFixed32(contents[at..]), DecodeFixed32(contents[at + 4..]);
          if start <= limit <= offsets then policy.mayMatch(key, contents[start..limit]) else start != limit
  }

  /** A reader of a built block asks exactly the filter of the group that the block's offset falls in. */
  lemma ReaderAsks(policy: FilterPolicy, groups: seq<Keys>, blockOffset: nat, key: Bytes)
    requires |Filters(policy, groups)| < U32
    ensures var i := blockOffset / BASE;
        ReaderMatch(policy, FilterBlockBytes(policy, groups), blockOffset, key) <==>
        i >= |groups| || policy.mayMatch(key, FilterOf(policy, groups[i]))
  {
    hide DecodeFixed32, Fixed32, RestartBytes, Filters, FilterOf, Offsets, PowerOf2, ReaderMatch;
    var filters, offsets := Filters(policy, groups), Offsets(policy, groups);
    var tail := Fixed32(|filters|) + [BASE_LG];
    var bytes := FilterBlockBytes(policy, groups);
    var a, g, i := |filters|, |groups|, blockOffset / BASE;
    assert bytes == filters + (RestartBytes(offsets) + tail);
    assert bytes[a + 4 * g..] == tail;
    Fixed32RoundTrip(a, [BASE_LG]);
    hide FilterBlockBytes;
    if i < g {
      OffsetDecodes(filters, offsets, tail, i);
      FiltersUpTo(policy, groups, i);
      if i + 1 < g {
        OffsetDecodes(filters, offsets, tail, i + 1);
      } else {
        assert groups[..i + 1] == groups;
      }
      var start, limit := |Filters(policy, groups[..i])|, |Filters(policy, groups[..i + 1])|;
      assert bytes[start..limit] == filters[start..limit];
      MatchReads(policy, bytes, blockOffset, key, a, start, limit);
    } else {
      MatchPast(policy, bytes, blockOffset, key, a);
    }
  }

  /** What a match reads in well-formed contents. */
  lemma MatchReads(policy: FilterPolicy, contents: Bytes, blockOffset: nat, key: Bytes, offsets: nat, start: nat, limit: nat)
    requires |contents| >= 5 && contents[|contents| - 1] == BASE_LG
    requires DecodeFixed32(contents[|contents| - 5..]) == offsets && start <= limit <= offsets <= |contents| - 5
    requires var i := blockOffset / BASE;
        && offsets + 4 * i + 4 <= |contents| - 5
        && DecodeFixed32(contents[offsets + 4 * i..]) == start && DecodeFixed32(contents[offsets + 4 * (i + 1)..]) == limit
    ensures ReaderMatch(policy, contents, blockOffset, key) == policy.mayMatch(key, contents[start..limit])
  {
    hide DecodeFixed32, PowerOf2;
    PowerIsBase();
  }

  lemma MatchPast(policy: FilterPolicy, contents: Bytes, blockOffset: nat, key: Bytes, offsets: nat)
    requires |contents| >= 5 && contents[|contents| - 1] == BASE_LG && DecodeFixed32(contents[|contents| - 5..]) == offsets
    requires offsets + 4 * (blockOffset / BASE) + 4 > |contents| - 5
    ensures ReaderMatch(policy, contents, blockOffset, key)
  {
    hide DecodeFixed32, PowerOf2;
    PowerIsBase();
  }

  lemma PowerIsBase()
    ensures PowerOf2(BASE_LG) == BASE
  {
    assert PowerOf2(5) == 32;
    assert PowerOf2(10) == 1024;
  }

  lemma OffsetDecodes(filters: Bytes, offsets: seq<nat>, tail: Bytes, i: nat)
    requires (forall t :: 0 <= t < |offsets| ==> offsets[t] < U32) && i < |offsets| && |tail| >= 4
    ensures var bytes := filters + (RestartBytes(offsets) + tail);
        DecodeFixed32(bytes[|filters| + 4 * i..]) == offsets[i]
  {
    hide DecodeFixed32, RestartBytes;
    var bytes := filters + (RestartBytes(offsets) + tail);
    RestartDecodes(offsets, i, tail);
    assert bytes[|filters| + 4 * i..] == (RestartBytes(offsets) + tail)[4 * i..];
  }

  /** A key that was added while a block at some offset was being built matches at that offset. */
  lemma NoFalseNegatives(policy: FilterPolicy, groups: seq<Keys>, blockOffset: nat, key: Bytes)
    requires Sound(policy) && |Filters(policy, groups)| < U32
    requires var i := blockOffset / BASE; i < |groups| && key in groups[i]
    ensures ReaderMatch(policy, FilterBlockBytes(policy, groups), blockOffset, key)
  {
    ReaderAsks(policy, groups, blockOffset, key);
  }
}
