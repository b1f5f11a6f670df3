/** Bloom filters: each key sets some bits of an array, and may be there only if all its bits are set. */
module Bloom {
  import opened InternalKeys
  import opened Coding

  type Word = w: nat | w < U32

  /** A filter policy: a summary of some keys, and a test of a key against a summary. */
  datatype FilterPolicy = FilterPolicy(create: seq<Bytes> -> Bytes, mayMatch: (Bytes, Bytes) -> bool)

  /** A policy must match every key that a filter was made from. */
  ghost predicate Sound(p: FilterPolicy) {
    forall keys, key :: key in keys ==> p.mayMatch(key, p.create(keys))
  }

  // ----- Bits -----

  function PowerOf2(n: nat): (p: nat)
    ensures p > 0
  {
    if n == 0 then 1 else 2 * PowerOf2(n - 1)
  }

  /** (x & (1 << b)) != 0 */
  predicate HasBit(x: nat, b: nat)
    decreases b
  {
    if b == 0 then x % 2 == 1 else HasBit(x / 2, b - 1)
  }

  /** x | (1 << b) */
  function WithBit(x: nat, b: nat): nat
    decreases b
  {
    if b == 0 then x / 2 * 2 + 1 else WithBit(x / 2, b - 1) * 2 + x % 2
  }

  lemma {:induction false} OtherBits(x: nat, b: nat, c: nat)
    ensures HasBit(WithBit(x, b), c) <==> c == b || HasBit(x, c)
    decreases b
  {
    if b > 0 && c > 0 {
      OtherBits(x / 2, b - 1, c - 1);
    }
  }

  lemma {:induction false} ZeroHasNone(b: nat)
    ensures !HasBit(0, b)
  {
    if b > 0 {
      ZeroHasNone(b - 1);
    }
  }

  lemma {:induction false} StillFits(x: nat, b: nat, n: nat)
    requires b < n && x < PowerOf2(n)
    ensures WithBit(x, b) < PowerOf2(n)
    decreases b
  {
    if b > 0 {
      StillFits(x / 2, b - 1, n - 1);
    }
  }

  predicate BitSet(a: Bytes, p: nat)
    requires p < 8 * |a|
  {
    HasBit(a[p / 8], p % 8)
  }

  function SetBit(a: Bytes, p: nat): (r: Bytes)
    requires p < 8 * |a|
    ensures |r| == |a|
  {
    assert PowerOf2(8) == 256;
    StillFits(a[p / 8], p % 8, 8);
    a[p / 8 := WithBit(a[p / 8], p % 8)]
  }

  lemma OneBitSet(a: Bytes, p: nat, q: nat)
    requires p < 8 * |a| && q < 8 * |a|
    ensures BitSet(SetBit(a, p), q) <==> q == p || BitSet(a, q)
  {
    hide HasBit, WithBit;
    OtherBits(a[p / 8], p % 8, q % 8);
    if p / 8 == q / 8 && p % 8 == q % 8 {
      assert p == 8 * (p / 8) + p % 8 && q == 8 * (q / 8) + q % 8;
    }
  }

  // ----- Probes -----

  /** The hash with its lower 17 bits brought to the top. */
  function Delta(h: Word): Word {
    h / 0x2_0000 + h * 0x8000 % U32
  }

  /** Set k bits by double hashing. */
  function SetProbes(a: Bytes, h: Word, delta: Word, k: nat): (r: Bytes)
    requires a != []
    ensures |r| == |a|
    decreases k
  {
    if k == 0 then a
    else SetProbes(SetBit(a, h % (8 * |a|)), (h + delta) % U32, delta, k - 1)
  }

  predicate AllSet(a: Bytes, h: Word, delta: Word, k: nat)
    requires a != []
    decreases k
  {
    k == 0 || (BitSet(a, h % (8 * |a|)) && AllSet(a, (h + delta) % U32, delta, k - 1))
  }

  /** A bit is one of those that a key sets. */
  predicate Hits(n: nat, h: Word, delta: Word, k: nat, p: nat)
    requires n > 0
    decreases k
  {
    k > 0 && (h % (8 * n) == p || Hits(n, (h + delta) % U32, delta, k - 1, p))
  }

  lemma {:induction false} ProbesSet(a: Bytes, h: Word, delta: Word, k: nat, p: nat)
    requires a != [] && p < 8 * |a|
    ensures BitSet(SetProbes(a, h, delta, k), p) <==> Hits(|a|, h, delta, k, p) || BitSet(a, p)
    decreases k
  {
    if k > 0 {
      OneBitSet(a, h % (8 * |a|), p);
      ProbesSet(SetBit(a, h % (8 * |a|)), (h + delta) % U32, delta, k - 1, p);
    }
  }

  lemma {:induction false} AllSetIs(a: Bytes, h: Word, delta: Word, k: nat)
    requires a != []
    ensures AllSet(a, h, delta, k) <==> forall p: nat :: p < 8 * |a| && Hits(|a|, h, delta, k, p) ==> BitSet(a, p)
    decreases k
  {
    if k > 0 {
      var next := (h + delta) % U32;
      AllSetIs(a, next, delta, k - 1);
      var first := h % (8 * |a|);
      assert Hits(|a|, h, delta, k, first);
      assert forall p: nat :: Hits(|a|, h, delta, k, p) <==> p == first || Hits(|a|, next, delta, k - 1, p);
    }
  }

  /** Set the bits of several keys. */
  function SetKeys(a: Bytes, keys: seq<Bytes>, hash: Bytes -> Word, k: nat): (r: Bytes)
    requires a != []
    ensures |r| == |a|
    decreases |keys|
  {
    if keys == [] then a
    else SetKeys(SetProbes(a, hash(keys[0]), Delta(hash(keys[0])), k), keys[1..], hash, k)
  }

  ghost predicate SomeHits(n: nat, keys: seq<Bytes>, hash: Bytes -> Word, k: nat, p: nat)
    requires n > 0
  {
    exists i :: 0 <= i < |keys| && Hits(n, hash(keys[i]), Delta(hash(keys[i])), k, p)
  }

  lemma {:induction false} KeysSet(a: Bytes, keys: seq<Bytes>, hash: Bytes -> Word, k: nat, p: nat)
    requires a != [] && p < 8 * |a|
    ensures BitSet(SetKeys(a, keys, hash, k), p) <==> SomeHits(|a|, keys, hash, k, p) || BitSet(a, p)
    decreases |keys|
  {
    if keys != [] {
      var h := hash(keys[0]);
      ProbesSet(a, h, Delta(h), k, p);
      KeysSet(SetProbes(a, h, Delta(h), k), keys[1..], hash, k, p);
      if SomeHits(|a|, keys[1..], hash, k, p) {
        var i :| 0 <= i < |keys[1..]| && Hits(|a|, hash(keys[1..][i]), Delta(hash(keys[1..][i])), k, p);
        assert keys[1..][i] == keys[i + 1];
      }
      if i :| 0 < i < |keys| && Hits(|a|, hash(keys[i]), Delta(hash(keys[i])), k, p) {
        assert keys[1..][i - 1] == keys[i];
      }
    }
  }

  // ----- The policy -----

  /** How many probes for how many bits a key. */
  function ProbeCount(bitsPerKey: nat): (k: nat)
    ensures 1 <= k <= 30
  {
    var k := (bitsPerKey as real * 0.69).Floor;
    if k < 1 then 1 else if k > 30 then 30 else k
  }

  function FilterSize(n: nat, bitsPerKey: nat): (bytes: nat)
    ensures bytes >= 8
  {
    ((if n * bitsPerKey < 64 then 64 else n * bitsPerKey) + 7) / 8
  }

  function Zeros(n: nat): (z: Bytes)
    ensures |z| == n && forall i :: 0 <= i < n ==> z[i] == 0
  {
    seq(n, i => 0)
  }

  function BloomFilter(keys: seq<Bytes>, hash: Bytes -> Word, bitsPerKey: nat): (filter: Bytes)
    ensures |filter| == FilterSize(|keys|, bitsPerKey) + 1
  {
    SetKeys(Zeros(FilterSize(|keys|, bitsPerKey)), keys, hash, ProbeCount(bitsPerKey)) + [ProbeCount(bitsPerKey)]
  }

  lemma FilterSizeBound(n: nat, bitsPerKey: nat)
    requires n > 0
    ensures FilterSize(n, bitsPerKey) + 1 <= (bitsPerKey + 9) * n
  {
    var m := n * bitsPerKey;
    assert (bitsPerKey + 9) * n == m + 9 * n;
  }

  predicate BloomMatch(key: Bytes, filter: Bytes, hash: Bytes -> Word) {
    |filter| >= 2
    && var k := filter[|filter| - 1];
       k > 30 || AllSet(filter[..|filter| - 1], hash(key), Delta(hash(key)), k)
  }

  function BloomPolicy(hash: Bytes -> Word, bitsPerKey: nat): FilterPolicy {
    FilterPolicy(keys => BloomFilter(keys, hash, bitsPerKey), (key, filter) => BloomMatch(key, filter, hash))
  }

  /** A key matches a filter exactly when some key of the filter sets each of its bits. */
  lemma MatchIs(keys: seq<Bytes>, key: Bytes, hash: Bytes -> Word, bitsPerKey: nat)
    ensures var n, k := FilterSize(|keys|, bitsPerKey), ProbeCount(bitsPerKey);
        BloomMatch(key, BloomFilter(keys, hash, bitsPerKey), hash) <==>
        forall p: nat :: p < 8 * n && Hits(n, hash(key), Delta(hash(key)), k, p) ==> SomeHits(n, keys, hash, k, p)
  {
    hide AllSet, SetKeys, Hits, SomeHits, Delta, ProbeCount, FilterSize;
    var n, k := FilterSize(|keys|, bitsPerKey), ProbeCount(bitsPerKey);
    var filter := BloomFilter(keys, hash, bitsPerKey);
    var a := SetKeys(Zeros(n), keys, hash, k);
    assert filter[..|filter| - 1] == a;
    AllSetIs(a, hash(key), Delta(hash(key)), k);
    forall p: nat | p < 8 * n ensures BitSet(a, p) <==> SomeHits(n, keys, hash, k, p) {
      KeysSet(Zeros(n), keys, hash, k, p);
      ZeroHasNone(p % 8);
    }
  }

  /** No false negatives. */
  lemma BloomIsSound(hash: Bytes -> Word, bitsPerKey: nat)
    ensures Sound(BloomPolicy(hash, bitsPerKey))
  {
    hide BloomMatch, BloomFilter, Delta;
    forall keys, key | key in keys ensures BloomMatch(key, BloomFilter(keys, hash, bitsPerKey), hash) {
      var i :| 0 <= i < |keys| && keys[i] == key;
      MatchIs(keys, key, hash, bitsPerKey);
    }
  }

  /** Append a filter of some keys. */
  method CreateFilter(keys: seq<Bytes>, hash: Bytes -> Word, bitsPerKey: nat, dst0: Bytes) returns (dst: Bytes)
    ensures dst == dst0 + BloomPolicy(hash, bitsPerKey).create(keys)
  {
    hide SetBit;
    var k := ProbeCount(bitsPerKey);
    var bits := |keys| * bitsPerKey;
    if bits < 64 {
      bits := 64;
    }
    var bytes := (bits + 7) / 8;
    bits := bytes * 8;
    var data := Zeros(bytes);
    assert keys[0..] == keys;
    for i := 0 to |keys|
      invariant |data| == bytes
      invariant SetKeys(data, keys[i..], hash, k) == SetKeys(Zeros(bytes), keys, hash, k)
    {
      // One hash is enough: each probe adds the same delta
      var h: Word := hash(keys[i]);
      var delta := Delta(h);
      ghost var was := data;
      var j := 0;
      while j < k
        invariant j <= k && |data| == bytes
        invariant SetProbes(data, h, delta, k - j) == SetProbes(was, hash(keys[i]), delta, k)
      {
        var bitpos := h % bits;
        data := SetBit(data, bitpos);
        h := (h + delta) % U32;
        j := j + 1;
      }
      assert keys[i..][1..] == keys[i + 1..];
    }
    assert SetKeys(data, keys[|keys|..], hash, k) == data;
    dst := dst0 + data + [k];
    assert dst == dst0 + (data + [k]);
  }

  method KeyMayMatch(key: Bytes, filter: Bytes, hash: Bytes -> Word) returns (r: bool)
    ensures r == BloomMatch(key, filter, hash)
  {
    var len := |filter|;
    if len < 2 {
      return false;
    }
    var bits := (len - 1) * 8;
    // The filter says itself how many probes it was made with
    var k := filter[len - 1];
    if k > 30 {
      // No builder writes this: no answer but yes is safe
      return true;
    }
    var data := filter[..len - 1];
    var h: Word := hash(key);
    var delta := Delta(h);
    var j := 0;
    while j < k
      invariant j <= k
      invariant AllSet(data, h, delta, k - j) == AllSet(data, hash(key), delta, k)
    {
      var bitpos := h % bits;
      if !HasBit(filter[bitpos / 8], bitpos % 8) {
        return false;
      }
      h := (h + delta) % U32;
      j := j + 1;
    }
    r := true;
  }
}
