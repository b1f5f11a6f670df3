/** The hash table of the cache: buckets of entries chained through their own links, resized as it
    grows. */
module HandleTables {
  import opened InternalKeys
  import opened LruHandles

  predicate Same(h: LRUHandle, key: Bytes, hash: nat) {
    h.hash == hash && h.key == key
  }

  /** From its first entry, a chain runs through all of c and ends. */
  ghost predicate Chain(first: LRUHandle?, c: seq<LRUHandle>)
    reads c`nextHash
  {
    if c == [] then first == null
    else
      && first == c[0] && c[|c| - 1].nextHash == null
      && forall i, j :: 0 <= i && j == i + 1 && j < |c| ==> c[i].nextHash == c[j]
  }

  ghost function Elements(buckets: seq<seq<LRUHandle>>): set<LRUHandle> {
    set b, i | 0 <= b < |buckets| && 0 <= i < |buckets[b]| :: buckets[b][i]
  }

  /** The buckets hold what hashes to them. */
  ghost predicate InPlace(buckets: seq<seq<LRUHandle>>) {
    && |buckets| > 0
    && (forall b :: 0 <= b < |buckets| ==> Distinct(buckets[b]))
    && forall b, i :: 0 <= b < |buckets| && 0 <= i < |buckets[b]| ==> buckets[b][i].hash % |buckets| == b
  }

  ghost predicate Chains(list: seq<LRUHandle?>, buckets: seq<seq<LRUHandle>>)
    reads Elements(buckets)`nextHash
  {
    |list| == |buckets| && forall b :: 0 <= b < |list| ==> ChainAt(list, buckets, b)
  }

  ghost predicate ChainAt(list: seq<LRUHandle?>, buckets: seq<seq<LRUHandle>>, b: nat)
    requires b < |list| == |buckets|
    reads Elements(buckets)`nextHash
  {
    assert forall i :: 0 <= i < |buckets[b]| ==> buckets[b][i] in Elements(buckets);
    Chain(list[b], buckets[b])
  }

  /** No two entries are the same to the table. */
  ghost predicate UniqueKeys(handles: set<LRUHandle>) {
    forall g, h :: g in handles && h in handles && Same(g, h.key, h.hash) ==> g == h
  }

  /** Table lengths are powers of two, so that masking a hash with length - 1 takes its remainder. */
  predicate PowerOfTwo(n: nat) {
    n == 4 || (n > 4 && n % 2 == 0 && PowerOfTwo(n / 2))
  }

  class HandleTable {
    var list: seq<LRUHandle?>
    var elems: nat
    ghost var buckets: seq<seq<LRUHandle>>

    ghost function Handles(): set<LRUHandle>
      reads this
    {
      Elements(buckets)
    }

    ghost predicate Valid()
      reads this, Handles()`nextHash
    {
      && InPlace(buckets) && Chains(list, buckets) && UniqueKeys(Handles())
      && PowerOfTwo(|list|) && elems == |Handles()| <= |list|
    }

    constructor ()
      ensures Valid() && Handles() == {}
    {
      list := [null, null, null, null];
      elems := 0;
      buckets := [[], [], [], []];
      new;
      assert Handles() == {};
    }

    /** The slot that points to the entry that matches, or the trailing slot of its bucket: the bucket's
        head when prev is null, the link of prev otherwise. */
    method FindPointer(key: Bytes, hash: nat) returns (b: nat, prev: LRUHandle?, found: LRUHandle?, ghost i: nat)
      requires Valid()
      ensures Valid()
      ensures b == hash % |list| && b < |list| == |buckets| && i <= |buckets[b]|
      ensures prev == if i == 0 then null else buckets[b][i - 1]
      ensures found == if i < |buckets[b]| then buckets[b][i] else null
      ensures found != null ==> Same(found, key, hash)
      ensures found == null ==> forall h :: h in Handles() ==> !Same(h, key, hash)
    {
      b := hash % |list|;
      assert ChainAt(list, buckets, b);
      ghost var c := buckets[b];
      prev, found, i := null, list[b], 0;
      while found != null && !Same(found, key, hash)
        invariant i <= |c| && found == (if i < |c| then c[i] else null)
        invariant prev == if i == 0 then null else c[i - 1]
        invariant forall j :: 0 <= j < i ==> !Same(c[j], key, hash)
        decreases |c| - i
      {
        prev, found, i := found, found.nextHash, i + 1;
      }
      forall h | found == null && h in Handles() ensures !Same(h, key, hash) {
        var bb, j :| 0 <= bb < |buckets| && 0 <= j < |buckets[bb]| && buckets[bb][j] == h;
      }
    }

    method Lookup(key: Bytes, hash: nat) returns (found: LRUHandle?)
      requires Valid()
      ensures found != null ==> found in Handles() && Same(found, key, hash)
      ensures found == null ==> forall h :: h in Handles() ==> !Same(h, key, hash)
    {
      var b, prev, f, i := FindPointer(key, hash);
      found := f;
      assert found != null ==> buckets[b][i] in Handles();
    }

    /** Take the matching entry out of the table. */
    method Remove(key: Bytes, hash: nat) returns (result: LRUHandle?)
      requires Valid()
      modifies this, Handles()`nextHash
      ensures Valid()
      ensures result != null ==> result in old(Handles()) && Same(result, key, hash) && Handles() == old(Handles()) - {result}
      ensures result == null ==> Handles() == old(Handles()) && forall h :: h in Handles() ==> !Same(h, key, hash)
    {
      var b, prev, found, i := FindPointer(key, hash);
      result := found;
      if result != null {
        RemovedFromBucket(buckets, b, i);
        UnlinkSlot(b, prev, result, i);
        elems := elems - 1;
      }
    }

    /** Make the slot of an entry point past it. */
    method UnlinkSlot(b: nat, prev: LRUHandle?, result: LRUHandle, ghost i: nat)
      requires InPlace(buckets) && Chains(list, buckets) && b < |buckets| && i < |buckets[b]| && buckets[b][i] == result
      requires prev == if i == 0 then null else buckets[b][i - 1]
      modifies this`list, this`buckets, Handles()`nextHash
      ensures buckets == old(buckets)[b := Without(old(buckets)[b], i)]
      ensures |list| == |old(list)| && Chains(list, buckets)
    {
      hide InPlace, Elements;
      ghost var c := buckets[b];
      InElements(buckets, b, i);
      assert ChainAt(list, buckets, b);
      if prev == null {
        list := list[b := result.nextHash];
      } else {
        InElements(buckets, b, i - 1);
        prev.nextHash := result.nextHash;
      }
      ghost var after := Without(c, i);
      assert forall k :: 0 <= k < |after| ==> after[k] == if k < i then c[k] else c[k + 1];
      OwnBucket(buckets, b);
      assert Chain(list[b], after);
      forall bb | 0 <= bb < |buckets| && bb != b ensures Chain(list[bb], buckets[bb]) {
        assert old(ChainAt(list, buckets, bb));
        if i > 0 {
          OtherBucket(buckets, b, i - 1, bb);
        }
      }
      buckets := buckets[b := after];
    }

    /** Put an entry into the table, in place of the one it matches if there is one, which is returned. */
    method Insert(h: LRUHandle) returns (replaced: LRUHandle?)
      requires Valid() && h !in Handles()
      modifies this, Handles()`nextHash, h`nextHash
      ensures Valid()
      ensures replaced != null ==>
          && replaced in old(Handles()) && Same(replaced, h.key, h.hash)
          && Handles() == old(Handles()) - {replaced} + {h}
      ensures replaced == null ==>
          && Handles() == old(Handles()) + {h}
          && forall g :: g in old(Handles()) ==> !Same(g, h.key, h.hash)
    {
      hide InPlace, Elements, UniqueKeys, Chains;
      var b, prev, found, i := FindPointer(h.key, h.hash);
      replaced := found;
      SetInBucket(buckets, b, i, h);
      StillUnique(Handles(), h, found);
      LinkSlot(b, prev, found, h, i);
      if found == null {
        elems := elems + 1;
        if elems > |list| {
          // No more entries than buckets
          Resize();
        }
      }
    }

    /** Make a slot point to h, and h to what came after the entry there. */
    method LinkSlot(b: nat, prev: LRUHandle?, found: LRUHandle?, h: LRUHandle, ghost i: nat)
      requires InPlace(buckets) && Chains(list, buckets) && b < |buckets| && i <= |buckets[b]| && h !in Handles()
      requires prev == if i == 0 then null else buckets[b][i - 1]
      requires found == if i < |buckets[b]| then buckets[b][i] else null
      modifies this`list, this`buckets, Handles()`nextHash, h`nextHash
      ensures buckets == old(buckets)[b := Replaced(old(buckets)[b], i, h)]
      ensures |list| == |old(list)| && Chains(list, buckets)
    {
      hide InPlace, Elements;
      ghost var c := buckets[b];
      NotIn(buckets, b, h);
      assert ChainAt(list, buckets, b);
      h.nextHash := if found == null then null else found.nextHash;
      if prev == null {
        list := list[b := h];
      } else {
        InElements(buckets, b, i - 1);
        prev.nextHash := h;
      }
      ghost var after := Replaced(c, i, h);
      OwnBucket(buckets, b);
      assert Chain(list[b], after);
      forall bb | 0 <= bb < |buckets| && bb != b ensures Chain(list[bb], buckets[bb]) {
        assert old(ChainAt(list, buckets, bb));
        NotIn(buckets, bb, h);
        if i > 0 {
          OtherBucket(buckets, b, i - 1, bb);
        }
      }
      buckets := buckets[b := after];
    }

    /** Move the entries of one bucket to the new table, from front to front. */
    method MoveBucket(i: nat, list0: seq<LRUHandle?>, ghost after0: seq<seq<LRUHandle>>, count0: nat)
      returns (newList: seq<LRUHandle?>, ghost after: seq<seq<LRUHandle>>, count: nat)
      requires InPlace(buckets) && |list| == |buckets| && i < |list| && |list0| == |after0|
      requires forall b :: i <= b < |list| ==> Chain(list[b], buckets[b])
      requires InPlace(after0) && Chains(list0, after0)
      requires Elements(after0) == Moved(buckets, i, 0) && count0 == |Elements(after0)|
      modifies Handles()`nextHash
      ensures forall b :: i < b < |list| ==> Chain(list[b], buckets[b])
      ensures |newList| == |after| == |list0| && InPlace(after) && Chains(newList, after)
      ensures Elements(after) == Moved(buckets, i, |buckets[i]|) && count == |Elements(after)|
    {
      hide InPlace, Elements, Chains, ChainAt, Chain, Moved;
      newList, after, count := list0, after0, count0;
      var h := list[i];
      ghost var c, j := buckets[i], 0;
      assert c[0..] == c;
      while h != null
        invariant j <= |c| && Chain(h, c[j..])
        invariant forall b :: i < b < |list| ==> Chain(list[b], buckets[b])
        invariant |newList| == |list0| == |after| && InPlace(after) && Chains(newList, after)
        invariant Elements(after) == Moved(buckets, i, j) && count == |Elements(after)|
        decreases |c| - j
      {
        StepChain(h, c[j..]);
        assert c[j..][1..] == c[j + 1..] && c[j..][0] == c[j];
        InElements(buckets, i, j);
        MovedOne(buckets, i, j);
        LaterElsewhere(buckets, i, j);
        var next := h.nextHash;
        newList, after := MoveToFront(newList, after, h);
        h := next;
        j := j + 1;
        count := count + 1;
      }
      ChainEnds(c[j..]);
    }

    /** Spread the entries over a table of a length that suits their number. */
    method Resize()
      requires InPlace(buckets) && Chains(list, buckets) && elems == |Handles()|
      modifies this`list, this`buckets, Handles()`nextHash
      ensures InPlace(buckets) && Chains(list, buckets) && Handles() == old(Handles()) && PowerOfTwo(|list|) && |list| >= elems
    {
      hide InPlace, ChainAt, Chain, Moved, PowerOfTwo;
      var newLength := LengthFor(elems);
      SameLength(list, buckets);
      hide Elements, Chains;
      var newList: seq<LRUHandle?> := seq(newLength, i => null);
      ghost var after: seq<seq<LRUHandle>> := seq(newLength, i => []);
      EmptyTable(newList, after);
      MovedNone(buckets);
      var count := 0;
      for i := 0 to |list|
        invariant list == old(list) && buckets == old(buckets)
        invariant forall b :: i <= b < |list| ==> Chain(list[b], buckets[b])
        invariant |newList| == newLength == |after| && InPlace(after) && Chains(newList, after)
        invariant Elements(after) == Moved(buckets, i, 0) && count == |Elements(after)|
      {
        newList, after, count := MoveBucket(i, newList, after, count);
        MovedBucket(buckets, i);
      }
      MovedAll(buckets);
      assert elems == count;
      list, buckets := newList, after;
    }
  }

  lemma InElements(buckets: seq<seq<LRUHandle>>, b: nat, i: nat)
    requires b < |buckets| && i < |buckets[b]|
    ensures buckets[b][i] in Elements(buckets)
  {
  }

  lemma OwnBucket(buckets: seq<seq<LRUHandle>>, b: nat)
    requires InPlace(buckets) && b < |buckets|
    ensures Distinct(buckets[b])
  {
  }

  lemma OtherBucket(buckets: seq<seq<LRUHandle>>, b: nat, i: nat, bb: nat)
    requires InPlace(buckets) && b < |buckets| && i < |buckets[b]| && bb < |buckets| && bb != b
    ensures buckets[b][i] !in buckets[bb]
  {
  }

  lemma RemovedFromBucket(buckets: seq<seq<LRUHandle>>, b: nat, i: nat)
    requires InPlace(buckets) && b < |buckets| && i < |buckets[b]|
    ensures var after := buckets[b := Without(buckets[b], i)];
        InPlace(after) && Elements(after) == Elements(buckets) - {buckets[b][i]} && buckets[b][i] in Elements(buckets)
  {
    var c := buckets[b];
    var after := buckets[b := Without(c, i)];
    assert forall k :: 0 <= k < |after[b]| ==> after[b][k] == if k < i then c[k] else c[k + 1];
    forall h | h in Elements(buckets) && h != c[i] ensures h in Elements(after) {
      var bb, j :| 0 <= bb < |buckets| && 0 <= j < |buckets[bb]| && buckets[bb][j] == h;
      if bb == b {
        assert after[b][if j < i then j else j - 1] == h;
      } else {
        assert after[bb][j] == h;
      }
    }
    assert buckets[b][i] in Elements(buckets);
    forall h | h in Elements(after) ensures h in Elements(buckets) && h != c[i] {
      var bb, j :| 0 <= bb < |after| && 0 <= j < |after[bb]| && after[bb][j] == h;
      if bb == b {
        assert h == c[if j < i then j else j + 1];
      } else {
        assert buckets[bb][j] == h && h.hash % |buckets| == bb;
      }
    }
  }

  /** The least power of two from 4 on that is no less than n. */
  method LengthFor(n: nat) returns (length: nat)
    ensures PowerOfTwo(length) && length >= n && length >= 4 && (length > 4 ==> length < 2 * n)
  {
    length := 4;
    while length < n
      invariant PowerOfTwo(length) && length >= 4 && (length > 4 ==> length < 2 * n)
    {
      Doubled(length);
      length := 2 * length;
    }
  }

  lemma Doubled(n: nat)
    requires PowerOfTwo(n)
    ensures PowerOfTwo(2 * n)
  {
    assert 2 * n % 2 == 0 && 2 * n / 2 == n;
  }

  // ----- Facts about buckets -----

  lemma StillUnique(handles: set<LRUHandle>, h: LRUHandle, found: LRUHandle?)
    requires UniqueKeys(handles)
    requires if found != null then found in handles && Same(found, h.key, h.hash)
             else forall g :: g in handles ==> !Same(g, h.key, h.hash)
    ensures UniqueKeys((if found != null then handles - {found} else handles) + {h})
  {
  }

  ghost function Replaced(c: seq<LRUHandle>, i: nat, h: LRUHandle): (r: seq<LRUHandle>)
    requires i <= |c|
  {
    if i == |c| then c + [h] else c[i := h]
  }

  lemma NotIn(buckets: seq<seq<LRUHandle>>, b: nat, h: LRUHandle)
    requires b < |buckets| && h !in Elements(buckets)
    ensures h !in buckets[b]
  {
  }

  lemma SetInBucket(buckets: seq<seq<LRUHandle>>, b: nat, i: nat, h: LRUHandle)
    requires InPlace(buckets) && b < |buckets| && i <= |buckets[b]| && h !in Elements(buckets) && h.hash % |buckets| == b
    ensures var after := buckets[b := Replaced(buckets[b], i, h)];
        && InPlace(after)
        && (i < |buckets[b]| ==> buckets[b][i] in Elements(buckets))
        && Elements(after) == Elements(buckets) - (if i < |buckets[b]| then {buckets[b][i]} else {}) + {h}
  {
    var c := buckets[b];
    var after := buckets[b := Replaced(c, i, h)];
    NotIn(buckets, b, h);
    assert after[b][i] == h;
    forall g | g in Elements(buckets) && (i == |c| || g != c[i]) ensures g in Elements(after) {
      var bb, j :| 0 <= bb < |buckets| && 0 <= j < |buckets[bb]| && buckets[bb][j] == g;
      assert after[bb][j] == g;
    }
    forall g | g in Elements(after) && g != h ensures g in Elements(buckets) && (i < |c| ==> g != c[i]) {
      var bb, j :| 0 <= bb < |after| && 0 <= j < |after[bb]| && after[bb][j] == g;
      assert buckets[bb][j] == g;
    }
    if i < |c| {
      InElements(buckets, b, i);
    }
  }

  lemma EmptyTable(list: seq<LRUHandle?>, buckets: seq<seq<LRUHandle>>)
    requires |list| == |buckets| > 0
    requires forall b :: 0 <= b < |list| ==> list[b] == null && buckets[b] == []
    ensures InPlace(buckets) && Chains(list, buckets) && Elements(buckets) == {}
  {
  }

  lemma SameLength(list: seq<LRUHandle?>, buckets: seq<seq<LRUHandle>>)
    requires Chains(list, buckets)
    ensures |list| == |buckets| && forall b :: 0 <= b < |list| ==> Chain(list[b], buckets[b])
  {
    forall b | 0 <= b < |list| ensures Chain(list[b], buckets[b]) {
      assert ChainAt(list, buckets, b);
    }
  }

  lemma StepChain(first: LRUHandle?, c: seq<LRUHandle>)
    requires Chain(first, c) && first != null
    ensures c != [] && first == c[0] && Chain(first.nextHash, c[1..])
  {
  }

  lemma ChainEnds(c: seq<LRUHandle>)
    requires Chain(null, c)
    ensures c == []
  {
  }

  /** Push an entry on the front of its bucket. */
  method MoveToFront(list: seq<LRUHandle?>, ghost buckets: seq<seq<LRUHandle>>, h: LRUHandle)
    returns (list': seq<LRUHandle?>, ghost buckets': seq<seq<LRUHandle>>)
    requires InPlace(buckets) && Chains(list, buckets) && h !in Elements(buckets)
    modifies h`nextHash
    ensures |list'| == |list| == |buckets'| && InPlace(buckets') && Chains(list', buckets')
    ensures Elements(buckets') == Elements(buckets) + {h}
  {
    hide Elements;
    var b := h.hash % |list|;
    SameLength(list, buckets);
    NotIn(buckets, b, h);
    PushFront(buckets, b, h);
    h.nextHash := list[b];
    list' := list[b := h];
    buckets' := buckets[b := [h] + buckets[b]];
    forall bb | 0 <= bb < |list| ensures Chain(list'[bb], buckets'[bb]) {
      NotIn(buckets, bb, h);
      assert old(Chain(list[bb], buckets[bb]));
    }
  }

  lemma PushFront(buckets: seq<seq<LRUHandle>>, b: nat, h: LRUHandle)
    requires InPlace(buckets) && h !in Elements(buckets) && b == h.hash % |buckets|
    ensures var after := buckets[b := [h] + buckets[b]]; InPlace(after) && Elements(after) == Elements(buckets) + {h}
  {
    var c := buckets[b];
    var after := buckets[b := [h] + c];
    NotIn(buckets, b, h);
    assert after[b][0] == h;
    forall g | g in Elements(buckets) ensures g in Elements(after) {
      var bb, j :| 0 <= bb < |buckets| && 0 <= j < |buckets[bb]| && buckets[bb][j] == g;
      assert after[bb][if bb == b then j + 1 else j] == g;
    }
    forall g | g in Elements(after) && g != h ensures g in Elements(buckets) {
      var bb, j :| 0 <= bb < |after| && 0 <= j < |after[bb]| && after[bb][j] == g;
      assert buckets[bb][if bb == b then j - 1 else j] == g;
    }
  }

  /** The entries before position j of bucket i. */
  ghost function Moved(buckets: seq<seq<LRUHandle>>, i: nat, j: nat): set<LRUHandle> {
    set b, k | 0 <= b < |buckets| && 0 <= k < |buckets[b]| && (b < i || (b == i && k < j)) :: buckets[b][k]
  }

  lemma MovedNone(buckets: seq<seq<LRUHandle>>)
    ensures Moved(buckets, 0, 0) == {}
  {
  }

  lemma MovedOne(buckets: seq<seq<LRUHandle>>, i: nat, j: nat)
    requires InPlace(buckets) && i < |buckets| && j < |buckets[i]|
    ensures buckets[i][j] !in Moved(buckets, i, j)
    ensures Moved(buckets, i, j + 1) == Moved(buckets, i, j) + {buckets[i][j]}
  {
    assert buckets[i][j] in Moved(buckets, i, j + 1);
  }

  lemma MovedBucket(buckets: seq<seq<LRUHandle>>, i: nat)
    requires i < |buckets|
    ensures Moved(buckets, i, |buckets[i]|) == Moved(buckets, i + 1, 0)
  {
  }

  lemma MovedAll(buckets: seq<seq<LRUHandle>>)
    ensures Moved(buckets, |buckets|, 0) == Elements(buckets)
  {
  }

  lemma LaterElsewhere(buckets: seq<seq<LRUHandle>>, i: nat, j: nat)
    requires InPlace(buckets) && i < |buckets| && j < |buckets[i]|
    ensures buckets[i][j] !in buckets[i][j + 1..]
    ensures forall b :: i < b < |buckets| ==> buckets[i][j] !in buckets[b]
  {
  }
}
