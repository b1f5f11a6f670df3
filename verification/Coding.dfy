/** Byte encodings of numbers: varints of seven bits a byte, lowest bits first, and little-endian
    fixed-width words. */
module Coding {
  import opened InternalKeys

  const U32 := 0x1_0000_0000
  const U64 := 0x1_0000_0000_0000_0000

  // ----- Varints -----

  function Varint(v: nat): (bs: Bytes)
    ensures bs != []
    decreases v
  {
    if v < 128 then [v] else [v % 128 + 128] + Varint(v / 128)
  }

  /** Read one varint of at most n bytes: its value and its length. */
  function ReadVarint(bs: Bytes, n: nat): (r: Option<(nat, nat)>)
    ensures r.Some? ==> 0 < r.value.1 <= |bs| && r.value.1 <= n
    decreases n
  {
    if n == 0 || bs == [] then None
    else if bs[0] < 128 then Some((bs[0], 1))
    else
      match ReadVarint(bs[1..], n - 1)
      case None => None
      case Some((v, k)) => Some((bs[0] - 128 + 128 * v, k + 1))
  }

  /** Reading undoes writing, whatever follows. */
  lemma {:induction false} VarintRoundTrip(v: nat, rest: Bytes, n: nat)
    requires |Varint(v)| <= n
    ensures ReadVarint(Varint(v) + rest, n) == Some((v, |Varint(v)|))
    decreases v
  {
    if v < 128 {
      assert (Varint(v) + rest)[0] == v;
    } else {
      VarintRoundTrip(v / 128, rest, n - 1);
      assert (Varint(v) + rest)[1..] == Varint(v / 128) + rest;
    }
  }

  /** 128 to the power k. */
  function Pow128(k: nat): (p: nat)
    ensures p > 0
  {
    if k == 0 then 1 else 128 * Pow128(k - 1)
  }

  lemma {:induction false} VarintLengthBound(v: nat, k: nat)
    requires k > 0 && v < Pow128(k)
    ensures |Varint(v)| <= k
    decreases k
  {
    if v >= 128 {
      assert k > 1;
      VarintLengthBound(v / 128, k - 1);
    }
  }

  /** A 32-bit number takes at most five bytes, a 64-bit number at most ten. */
  lemma VarintFits(v: nat)
    ensures v < U32 ==> |Varint(v)| <= 5
    ensures v < U64 ==> |Varint(v)| <= 10
  {
    assert Pow128(5) == 128 * 128 * 128 * 128 * 128;
    assert Pow128(10) == 128 * 128 * 128 * 128 * 128 * Pow128(5);
    if v < U32 {
      VarintLengthBound(v, 5);
    }
    if v < U64 {
      VarintLengthBound(v, 10);
    }
  }

  lemma VarintStep(v: nat)
    ensures v < 128 ==> Varint(v) == [v]
    ensures v >= 128 ==> Varint(v) == [v % 128 + 128] + Varint(v / 128)
  {
  }

  /** Append a 32-bit varint, one case for each length. */
  method PutVarint32(dst: Bytes, v: nat) returns (r: Bytes)
    requires v < U32
    ensures r == dst + Varint(v)
  {
    hide Varint;
    var v7, v14, v21, v28 := v / 0x80, v / 0x4000, v / 0x20_0000, v / 0x1000_0000;
    assert v14 == v7 / 128 && v21 == v14 / 128 && v28 == v21 / 128;
    VarintStep(v);
    VarintStep(v7);
    VarintStep(v14);
    VarintStep(v21);
    VarintStep(v28);
    if v < 0x80 {
      r := dst + [v];
    } else if v < 0x4000 {
      r := dst + [v % 128 + 128, v7];
    } else if v < 0x20_0000 {
      r := dst + [v % 128 + 128, v7 % 128 + 128, v14];
    } else if v < 0x1000_0000 {
      r := dst + [v % 128 + 128, v7 % 128 + 128, v14 % 128 + 128, v21];
    } else {
      r := dst + [v % 128 + 128, v7 % 128 + 128, v14 % 128 + 128, v21 % 128 + 128, v28];
    }
  }

  /** Append a 64-bit varint. */
  method PutVarint64(dst: Bytes, value: nat) returns (r: Bytes)
    requires value < U64
    ensures r == dst + Varint(value)
  {
    r := dst;
    var v := value;
    while v >= 128
      invariant r + Varint(v) == dst + Varint(value)
    {
      assert r + Varint(v) == (r + [v % 128 + 128]) + Varint(v / 128);
      r := r + [v % 128 + 128];
      v := v / 128;
    }
    r := r + [v];
  }

  /** A varint of at most n bytes read into a word of the given width: bits that do not fit are lost. */
  function ReadWord(bs: Bytes, n: nat, width: nat): (r: Option<(nat, nat)>)
    requires width > 0
    ensures r.Some? ==> 0 < r.value.1 <= |bs| && r.value.0 < width
  {
    var r := ReadVarint(bs, n);
    if r.None? then None else Some((r.value.0 % width, r.value.1))
  }

  /** Having read i bytes into `result`, the rest of the varint completes it. */
  ghost predicate PartlyRead(bs: Bytes, n: nat, width: nat, i: nat, result: nat, scale: nat)
    requires width > 0 && i <= n && i <= |bs|
  {
    var whole, rest := ReadVarint(bs, n), ReadVarint(bs[i..], n - i);
    && (whole.None? <==> rest.None?)
    && (whole.Some? ==>
          && whole.value.1 == i + rest.value.1
          && (result + scale * rest.value.0) % width == whole.value.0 % width)
  }

  lemma ReadOneMore(bs: Bytes, n: nat, width: nat, i: nat, result: nat, scale: nat)
    requires width == U32 || width == U64
    requires i < n && i < |bs| && PartlyRead(bs, n, width, i, result, scale)
    ensures bs[i] >= 128 ==>
        PartlyRead(bs, n, width, i + 1, (result + (bs[i] - 128) * scale) % width, 128 * scale)
    ensures bs[i] < 128 ==>
        ReadWord(bs, n, width) == Some(((result + bs[i] * scale) % width, i + 1))
  {
    hide ReadVarint;
    var byte := bs[i];
    ReadVarintStep(bs[i..], n - i);
    assert bs[i..][0] == byte && bs[i..][1..] == bs[i + 1..];
    var rest := ReadVarint(bs[i + 1..], n - i - 1);
    if byte >= 128 && rest.Some? {
      TakeBits(result, scale, byte - 128, rest.value.0, width);
    }
  }

  lemma ReadVarintStep(bs: Bytes, n: nat)
    requires n > 0 && bs != []
    ensures bs[0] < 128 ==> ReadVarint(bs, n) == Some((bs[0], 1))
    ensures bs[0] >= 128 ==>
        var r := ReadVarint(bs[1..], n - 1);
        ReadVarint(bs, n) == if r.None? then None else Some((bs[0] - 128 + 128 * r.value.0, r.value.1 + 1))
  {
  }

  /** The readers of the two word sizes: five bytes for 32 bits, ten for 64. */
  method GetVarint(bs: Bytes, n: nat, width: nat) returns (r: Option<(nat, nat)>)
    requires (n == 5 && width == U32) || (n == 10 && width == U64)
    ensures r == ReadWord(bs, n, width)
  {
    hide ReadVarint;
    var result: nat, i: nat, scale: nat := 0, 0, 1;
    assert bs[0..] == bs;
    while i < n && i < |bs|
      invariant i <= n && i <= |bs| && PartlyRead(bs, n, width, i, result, scale)
    {
      var byte := bs[i];
      ReadOneMore(bs, n, width, i, result, scale);
      if byte >= 128 {
        result := (result + (byte - 128) * scale) % width;
      } else {
        result := (result + byte * scale) % width;
        return Some((result, i + 1));
      }
      i := i + 1;
      scale := 128 * scale;
    }
    NothingLeft(bs[i..], n - i);
    r := None;
  }

  lemma NothingLeft(bs: Bytes, n: nat)
    requires bs == [] || n == 0
    ensures ReadVarint(bs, n) == None
  {
  }

  lemma TakeBits(result: nat, scale: nat, bits: nat, rest: nat, width: nat)
    requires width == U32 || width == U64
    ensures (result + scale * (bits + 128 * rest)) % width ==
        ((result + bits * scale) % width + 128 * scale * rest) % width
  {
    var a, b := result + bits * scale, 128 * scale * rest;
    assert scale * (bits + 128 * rest) == bits * scale + b;
    AddMod(a, b, width);
  }

  lemma AddMod(a: nat, b: nat, width: nat)
    requires width == U32 || width == U64
    ensures (a + b) % width == (a % width + b) % width
  {
    var q, r := a / width, a % width;
    var q', r' := (r + b) / width, (r + b) % width;
    if width == U32 {
      assert a + b == (q + q') * U32 + r';
    } else {
      assert a + b == (q + q') * U64 + r';
    }
  }

  /** How many bytes a varint takes. */
  method VarintLength(value: nat) returns (len: nat)
    ensures len == |Varint(value)|
  {
    len := 1;
    var v := value;
    while v >= 128
      invariant len + |Varint(v)| == |Varint(value)| + 1
    {
      v := v / 128;
      len := len + 1;
    }
  }

  // ----- Fixed-width words -----

  function Fixed32(v: nat): (bs: Bytes)
    requires v < U32
    ensures |bs| == 4
  {
    [v % 256, v / 0x100 % 256, v / 0x1_0000 % 256, v / 0x100_0000]
  }

  function DecodeFixed32(bs: Bytes): (v: nat)
    requires |bs| >= 4
    ensures v < U32
  {
    var b0: int, b1: int, b2: int, b3: int := bs[0], bs[1], bs[2], bs[3];
    b0 + 0x100 * b1 + 0x1_0000 * b2 + 0x100_0000 * b3
  }

  lemma Fixed32RoundTrip(v: nat, rest: Bytes)
    requires v < U32
    ensures DecodeFixed32(Fixed32(v) + rest) == v
  {
    var q := v / 256;
    var r := q / 256;
    assert v / 0x1_0000 == r && v / 0x100_0000 == r / 256;
  }

  function Fixed64(v: nat): (bs: Bytes)
    requires v < U64
    ensures |bs| == 8
  {
    Fixed32(v % U32) + Fixed32(v / U32)
  }

  function DecodeFixed64(bs: Bytes): (v: nat)
    requires |bs| >= 8
    ensures v < U64
  {
    DecodeFixed32(bs) + U32 * DecodeFixed32(bs[4..])
  }

  lemma Fixed64RoundTrip(v: nat, rest: Bytes)
    requires v < U64
    ensures DecodeFixed64(Fixed64(v) + rest) == v
  {
    hide Fixed32, DecodeFixed32;
    var low, high := Fixed32(v % U32), Fixed32(v / U32);
    var bs := Fixed64(v) + rest;
    assert bs == low + (high + rest) && bs[4..] == high + rest;
    Fixed32RoundTrip(v % U32, high + rest);
    Fixed32RoundTrip(v / U32, rest);
  }

  lemma Fixed32Unique(bs: Bytes)
    requires |bs| == 4
    ensures Fixed32(DecodeFixed32(bs)) == bs
  {
    var b0: int, b1: int, b2: int, b3: int := bs[0], bs[1], bs[2], bs[3];
    var v := DecodeFixed32(bs);
    var r := b2 + 0x100 * b3;
    var q := b1 + 0x100 * r;
    assert v == b0 + 0x100 * q;
    assert v % 0x100 == b0 && v / 0x100 == q;
    assert q % 0x100 == b1 && q / 0x100 == r;
    assert r % 0x100 == b2 && r / 0x100 == b3;
    Quotients(v);
  }

  lemma Quotients(v: nat)
    ensures v / 0x1_0000 == v / 0x100 / 0x100 && v / 0x100_0000 == v / 0x100 / 0x100 / 0x100
  {
  }

  lemma Fixed64Unique(bs: Bytes)
    requires |bs| == 8
    ensures Fixed64(DecodeFixed64(bs)) == bs
  {
    hide Fixed32, DecodeFixed32;
    Fixed32Unique(bs[..4]);
    Fixed32Unique(bs[4..]);
    SamePrefix(bs);
    var low, high := DecodeFixed32(bs), DecodeFixed32(bs[4..]);
    assert DecodeFixed64(bs) % U32 == low && DecodeFixed64(bs) / U32 == high;
    assert bs == bs[..4] + bs[4..];
  }

  lemma SamePrefix(bs: Bytes)
    requires |bs| >= 4
    ensures DecodeFixed32(bs[..4]) == DecodeFixed32(bs)
  {
  }

  // ----- Length-prefixed slices -----

  function LengthPrefixed(s: Bytes): Bytes {
    Varint(|s|) + s
  }

  /** Read one length-prefixed slice: the slice and what follows it. */
  function ReadLengthPrefixed(bs: Bytes): Option<(Bytes, Bytes)> {
    match ReadWord(bs, 5, U32)
    case None => None
    case Some((len, k)) =>
      if |bs| - k < len then None else Some((bs[k..k + len], bs[k + len..]))
  }

  lemma LengthPrefixedRoundTrip(s: Bytes, rest: Bytes)
    requires |s| < U32
    ensures ReadLengthPrefixed(LengthPrefixed(s) + rest) == Some((s, rest))
  {
    VarintFits(|s|);
    VarintRoundTrip(|s|, s + rest, 5);
    var bs := LengthPrefixed(s) + rest;
    assert bs == Varint(|s|) + (s + rest);
    var k := |Varint(|s|)|;
    assert bs[k..k + |s|] == s;
    assert bs[k + |s|..] == rest;
  }

  /** The imperative readers: a varint and the input after it. */
  method GetVarint32(input: Bytes) returns (r: Option<(nat, Bytes)>)
    ensures r.None? <==> ReadVarint(input, 5).None?
    ensures r.Some? ==> var word := ReadWord(input, 5, U32).value; r.value == (word.0, input[word.1..])
  {
    var p := GetVarint(input, 5, U32);
    r := match p case None => None case Some((v, k)) => Some((v, input[k..]));
  }

  method GetVarint64(input: Bytes) returns (r: Option<(nat, Bytes)>)
    ensures r.None? <==> ReadVarint(input, 10).None?
    ensures r.Some? ==> var word := ReadWord(input, 10, U64).value; r.value == (word.0, input[word.1..])
  {
    var p := GetVarint(input, 10, U64);
    r := match p case None => None case Some((v, k)) => Some((v, input[k..]));
  }

  method GetLengthPrefixedSlice(input: Bytes) returns (r: Option<(Bytes, Bytes)>)
    ensures r == ReadLengthPrefixed(input)
  {
    var p := GetVarint32(input);
    if p.None? || |p.value.1| < p.value.0 {
      return None;
    }
    var len, rest := p.value.0, p.value.1;
    ghost var k := ReadWord(input, 5, U32).value.1;
    assert input[k..][..len] == input[k..k + len] && input[k..][len..] == input[k + len..];
    r := Some((rest[..len], rest[len..]));
  }
}
