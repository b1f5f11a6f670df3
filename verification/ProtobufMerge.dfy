/** What the wire format asks of a decoder beyond undoing the encoder: the last of several values counts, and an
    array may be written packed or item by item. */
module ProtobufMerge {
  import opened InternalKeys
  import opened Coding
  import opened Protobuf
  import opened ProtobufDecoding
  import opened ProtobufTheorem

  // ----- 32-bit varints -----

  /** k bytes of which all but the last have their high bit set. */
  predicate IsChain(bs: Bytes, k: nat) {
    0 < k <= |bs| && bs[k - 1] < 128 && forall i :: 0 <= i < k - 1 ==> bs[i] >= 128
  }

  /** What the seven low bits of the first k bytes add up to. */
  function Sum(bs: Bytes, k: nat): nat
    requires k <= |bs|
  {
    if k == 0 then 0 else Sum(bs, k - 1) + bs[k - 1] % 128 * Pow128(k - 1)
  }

  /** Beyond the fifth byte there is nothing but zeros, or the sign of a number that is negative as 32 bits, and a
      fifth byte that is the last fits the word. */
  predicate Padded(bs: Bytes, k: nat, v: nat)
    requires k <= |bs|
  {
    && (k == 5 ==> bs[4] < 16)
    && forall i :: 5 <= i < k ==> Pad(bs, i, v)
  }

  lemma {:induction false} HighDigits(i: nat)
    requires i >= 5
    ensures Pow128(i) % U32 == 0
  {
    if i > 5 {
      HighDigits(i - 1);
      Times128(Pow128(i - 1));
    } else {
      PowersOf128();
      assert Pow128(5) == 8 * U32;
    }
  }

  lemma Times128(x: nat)
    requires x % U32 == 0
    ensures 128 * x % U32 == 0
  {
    assert 128 * x == U32 * (128 * (x / U32));
  }

  lemma AddDigit(sum: nat, digit: nat, power: nat)
    ensures (sum + digit * power) % U32 == (sum % U32 + digit * power) % U32
    ensures power % U32 == 0 ==> (sum + digit * power) % U32 == sum % U32
  {
    if power % U32 == 0 {
      var q := power / U32;
      assert digit * power == U32 * (digit * q);
    }
  }

  lemma SumStep(bs: Bytes, i: nat)
    requires i < |bs|
    ensures Sum(bs, i + 1) % U32 == if i >= 5 then Sum(bs, i) % U32 else (Sum(bs, i) % U32 + bs[i] % 128 * Pow128(i)) % U32
  {
    hide Pow128, Sum;
    SumMore(bs, i);
    AddDigit(Sum(bs, i), bs[i] % 128, Pow128(i));
    if i >= 5 {
      HighDigits(i);
    }
  }

  lemma SumMore(bs: Bytes, i: nat)
    requires i < |bs|
    ensures Sum(bs, i + 1) == Sum(bs, i) + bs[i] % 128 * Pow128(i)
  {
  }

  /** Bytes beyond the word do not change the sum. */
  lemma {:induction false} SumStays(bs: Bytes, i: nat, k: nat)
    requires 5 <= i <= k <= |bs|
    ensures Sum(bs, k) % U32 == Sum(bs, i) % U32
    decreases k
  {
    if i < k {
      SumStays(bs, i, k - 1);
      SumStep(bs, k - 1);
    }
  }

  /** What the reader does with one more byte, after i of them. */
  ghost function OneMore(bs: Bytes, i: nat): (r: Option<(nat, nat)>)
    requires i <= |bs|
    ensures r.Some? ==> r.value.1 > 0
  {
    Varint32Tail(bs[i..], i, Sum(bs, i) % U32)
  }

  function OneLonger(r: Option<(nat, nat)>): Option<(nat, nat)> {
    if r.None? then None else Some((r.value.0, r.value.1 + 1))
  }

  /** The byte at i, beyond the word, pads it. */
  predicate Pad(bs: Bytes, i: nat, v: nat)
    requires i < |bs|
  {
    bs[i] % 128 == 0 || (v >= 0x8000_0000 && bs[i] == if i < 9 then 255 else 1)
  }

  lemma TailStep(bs: Bytes, i: nat)
    requires 1 <= i <= |bs|
    ensures OneMore(bs, i) ==
        if i == |bs| || (i >= 5 && !Pad(bs, i, Sum(bs, i) % U32)) then None
        else if bs[i] >= 128 then OneLonger(OneMore(bs, i + 1))
        else if i == 4 && bs[4] >= 16 then None
        else Some((Sum(bs, i + 1) % U32, 1))
  {
    hide Sum, Pow128;
    if i < |bs| {
      SumStep(bs, i);
      assert bs[i..][0] == bs[i] && bs[i..][1..] == bs[i + 1..];
    }
  }

  /** Having read i bytes, whether and how the rest is read. */
  lemma {:induction false} TailIs(bs: Bytes, i: nat, v: nat, k: nat)
    requires 1 <= i <= |bs| && i < k && forall j :: 0 <= j < i ==> bs[j] >= 128
    requires forall j :: 5 <= j < i ==> Pad(bs, j, Sum(bs, i) % U32)
    ensures OneMore(bs, i) == Some((v, k - i)) <==> k <= |bs| && IsChain(bs, k) && v == Sum(bs, k) % U32 && Padded(bs, k, v)
    decreases |bs| - i
  {
    hide Sum, Pow128, OneMore;
    TailStep(bs, i);
    if i < |bs| {
      SumStep(bs, i);
      if i >= 5 && k <= |bs| {
        SumStays(bs, i, k);
      }
      if bs[i] >= 128 && (i >= 5 ==> Pad(bs, i, Sum(bs, i) % U32)) && i + 1 < k {
        TailIs(bs, i + 1, v, k);
      }
    }
  }

  /** What a 32-bit varint is: the reader takes a chain of bytes for the low 32 bits of its sum, if the bytes
      beyond the word are padding. */
  lemma Varint32Is(bs: Bytes, v: nat, k: nat)
    ensures ReadVarint32(bs) == Some((v, k)) <==> k <= |bs| && IsChain(bs, k) && v == Sum(bs, k) % U32 && Padded(bs, k, v)
  {
    hide Sum, Padded, Varint32Tail;
    FirstByte(bs);
    if bs != [] && bs[0] >= 128 && k > 1 {
      TailIs(bs, 1, v, k);
    }
    NoPadding(bs, k, v);
  }

  lemma FirstByte(bs: Bytes)
    ensures bs != [] ==> Sum(bs, 1) % U32 == bs[0] % 128
    ensures ReadVarint32(bs) ==
        if bs == [] then None
        else if bs[0] < 128 then Some((bs[0] % 128, 1))
        else OneLonger(OneMore(bs, 1))
  {
    hide Varint32Tail;
    if bs != [] {
      SumMore(bs, 0);
      assert Sum(bs, 0) == 0 && Pow128(0) == 1;
    }
  }

  lemma NoPadding(bs: Bytes, k: nat, v: nat)
    ensures k == 1 <= |bs| ==> Padded(bs, k, v)
  {
  }

  /** A value that its field can hold, written for it. */
  ghost predicate Writable(f: Field, v: Value) {
    TypedValue(f.ltype, v) && ValueKept(f.ltype, v) && |OccurrenceBytes(f, v, [], QUIET)| < U32
  }

  function Once(f: Field, v: Value): Bytes {
    OccurrenceBytes(f, v, [], QUIET)
  }

  /** Reading one value of a plain field. */
  lemma PlainOccurrence(fields: seq<Field>, st: State, i: nat, v: Value, rest: Bytes)
    requires |st.m| == |fields| && i < |fields| && ValidFields(fields)
    requires !IsArray(fields[i].rule) && !fields[i].ltype.TMessage? && Writable(fields[i], v)
    ensures var seen := if fields[i].rule.Required? then st.seen + {i} else st.seen;
        ReadFields(fields, st, Once(fields[i], v) + rest) == ReadFields(fields, State(Store(fields, st.m, i, v), seen, st.fixed), rest)
  {
    hide OccurrenceBytes, ReadFields, Store, TypedValue, ValueKept, ValidFields;
    OccurrenceRoundTrip(fields, st, i, v, [], QUIET, rest);
  }

  /** Of two values for one field, or for two members of a union, the last one counts. */
  lemma LastOneWins(fields: seq<Field>, st: State, i: nat, j: nat, v: Value, w: Value, rest: Bytes)
    requires |st.m| == |fields| && i < |fields| && j < |fields| && ValidFields(fields)
    requires i == j || SameUnion(fields[i], fields[j])
    requires !IsArray(fields[i].rule) && !fields[i].ltype.TMessage? && Writable(fields[i], v)
    requires !IsArray(fields[j].rule) && !fields[j].ltype.TMessage? && Writable(fields[j], w)
    ensures ReadFields(fields, st, Once(fields[i], v) + (Once(fields[j], w) + rest)) == ReadFields(fields, st, Once(fields[j], w) + rest)
  {
    hide ReadFields, ValidFields, Writable, Once;
    PlainOccurrence(fields, st, i, v, Once(fields[j], w) + rest);
    PlainOccurrence(fields, st, j, w, rest);
    var seen := if fields[i].rule.Required? then st.seen + {i} else st.seen;
    var first := State(Store(fields, st.m, i, v), seen, st.fixed);
    PlainOccurrence(fields, first, j, w, rest);
    StoreAgain(fields, st.m, i, j, v, w);
    assert seen + {i} == st.seen + {i};
  }

  lemma StoreAgain(fields: seq<Field>, m: seq<FieldValue>, i: nat, j: nat, v: Value, w: Value)
    requires |m| == |fields| && i < |fields| && j < |fields| && (i == j || SameUnion(fields[i], fields[j]))
    requires !IsArray(fields[i].rule) && !IsArray(fields[j].rule)
    ensures Store(fields, Store(fields, m, i, v), j, w) == Store(fields, m, j, w)
  {
    hide DefaultField;
  }

  /** A zero in place of a tag ends a message, whatever follows. */
  lemma ZeroEnds(fields: seq<Field>, st: State, rest: Bytes)
    requires |st.m| == |fields|
    ensures ReadFields(fields, st, [0] + rest) == Some(st)
  {
    hide Varint32Tail, ReadOne;
    assert ReadVarint32([0] + rest) == Some((0, 1));
  }

  // ----- Arrays -----

  /** Items with a tag each. */
  function Apart(f: Field, items: seq<Value>): Bytes {
    if items == [] then [] else Once(f, items[0]) + Apart(f, items[1..])
  }

  /** Items under one tag. */
  function Together(f: Field, items: seq<Value>): Bytes
    requires Packable(f.ltype)
  {
    TagBytes(2, f.tag) + LengthPrefixed(PackedBytes(f.ltype, items))
  }

  /** There is room for more items of an array, and reading may start on it. */
  ghost predicate Ready(fields: seq<Field>, st: State, i: nat, n: nat)
    requires |st.m| == |fields| && i < |fields| && IsArray(fields[i].rule)
  {
    Prepare(fields, st, i).Some? && |Items(Prepare(fields, st, i).value.m[i])| + n <= fields[i].rule.max
  }

  /** Reading with some items put behind those of an array. */
  ghost function Longer(fields: seq<Field>, st: State, i: nat, items: seq<Value>): (r: State)
    requires |st.m| == |fields| && i < |fields| && Prepare(fields, st, i).Some?
    ensures |r.m| == |fields|
  {
    var p := Prepare(fields, st, i).value;
    p.(m := p.m[i := Many(Items(p.m[i]) + items)])
  }

  lemma OneItem(fields: seq<Field>, st: State, i: nat, v: Value, rest: Bytes)
    requires |st.m| == |fields| && i < |fields| && ValidFields(fields)
    requires IsArray(fields[i].rule) && Packable(fields[i].ltype) && Ready(fields, st, i, 1) && TypedValue(fields[i].ltype, v)
    ensures ReadFields(fields, st, Once(fields[i], v) + rest) == ReadFields(fields, Longer(fields, st, i, [v]), rest)
  {
    hide TagBytes, ScalarBytes, ReadScalar, ReadFields, ReadOne, FindTag, Prepare;
    var f := fields[i];
    var bs := ScalarBytes(f.ltype, v.i);
    var w := WireType(f.ltype);
    assert ValueBytes(f.ltype, v, [], QUIET) == bs;
    assert Once(f, v) == TagBytes(w, f.tag) + ValueBytes(f.ltype, v, [], QUIET);
    assert Once(f, v) + rest == TagBytes(w, f.tag) + (bs + rest);
    assert ValidField(f);
    FieldStep(fields, st, w, f.tag, bs + rest);
    KnownOne(fields, st, w, i, bs + rest);
    ScalarRoundTrip(f.ltype, v.i, rest);
    var p := Prepare(fields, st, i).value;
    assert ReadValue(f.ltype, StartValue(f, p.m[i]), bs + rest) == Some((v, rest));
    assert ReadPrepared(fields, p, i, w, bs + rest) == Some((Longer(fields, st, i, [v]), rest));
    assert ReadField(fields, st, i, w, bs + rest) == ReadPrepared(fields, p, i, w, bs + rest);
  }

  lemma AgainReady(fields: seq<Field>, st: State, i: nat, items: seq<Value>, more: seq<Value>)
    requires |st.m| == |fields| && i < |fields| && IsArray(fields[i].rule) && Ready(fields, st, i, |items| + |more|)
    ensures var next := Longer(fields, st, i, items);
        Ready(fields, next, i, |more|) && Longer(fields, next, i, more) == Longer(fields, st, i, items + more)
  {
    var p, next := Prepare(fields, st, i).value, Longer(fields, st, i, items);
    assert Prepare(fields, next, i) == Some(next);
    assert (Items(p.m[i]) + items) + more == Items(p.m[i]) + (items + more);
  }

  lemma {:induction false} ItemsApart(fields: seq<Field>, st: State, i: nat, items: seq<Value>, rest: Bytes)
    requires |st.m| == |fields| && i < |fields| && ValidFields(fields) && items != []
    requires IsArray(fields[i].rule) && Packable(fields[i].ltype) && Ready(fields, st, i, |items|)
    requires forall k :: 0 <= k < |items| ==> TypedValue(fields[i].ltype, items[k])
    ensures ReadFields(fields, st, Apart(fields[i], items) + rest) == ReadFields(fields, Longer(fields, st, i, items), rest)
    decreases |items|
  {
    hide ReadFields, Prepare, Once, TypedValue, ValidFields;
    var first, others := items[..1], items[1..];
    assert items == [items[0]] + others;
    assert Apart(fields[i], items) + rest == Once(fields[i], items[0]) + (Apart(fields[i], others) + rest);
    OneItem(fields, st, i, items[0], Apart(fields[i], others) + rest);
    if others != [] {
      AgainReady(fields, st, i, [items[0]], others);
      ItemsApart(fields, Longer(fields, st, i, [items[0]]), i, others, rest);
    } else {
      assert items == [items[0]] && Apart(fields[i], others) + rest == rest;
    }
  }

  lemma ItemsTogether(fields: seq<Field>, st: State, i: nat, items: seq<Value>, rest: Bytes)
    requires |st.m| == |fields| && i < |fields| && ValidFields(fields)
    requires IsArray(fields[i].rule) && Packable(fields[i].ltype) && Ready(fields, st, i, |items|) && |PackedBytes(fields[i].ltype, items)| < U32
    requires forall k :: 0 <= k < |items| ==> TypedValue(fields[i].ltype, items[k])
    ensures ReadFields(fields, st, Together(fields[i], items) + rest) == ReadFields(fields, Longer(fields, st, i, items), rest)
  {
    hide TagBytes, LengthPrefixed, PackedBytes, ReadFields, ReadPacked, ReadString, ReadOne, TypedValue, FindTag, Prepare;
    var f := fields[i];
    var payload := PackedBytes(f.ltype, items);
    assert ValidField(f);
    assert Together(f, items) + rest == TagBytes(2, f.tag) + (LengthPrefixed(payload) + rest);
    FieldStep(fields, st, 2, f.tag, LengthPrefixed(payload) + rest);
    KnownOne(fields, st, 2, i, LengthPrefixed(payload) + rest);
    StringRoundTrip(payload, rest);
    PackedRoundTrip(f.ltype, Items(Prepare(fields, st, i).value.m[i]), items, f.rule.max);
  }

  /** An array of numbers may be written either way, whatever it holds already. */
  lemma PackedOrNot(fields: seq<Field>, st: State, i: nat, items: seq<Value>, rest: Bytes)
    requires |st.m| == |fields| && i < |fields| && ValidFields(fields) && items != []
    requires IsArray(fields[i].rule) && Packable(fields[i].ltype) && Ready(fields, st, i, |items|) && |PackedBytes(fields[i].ltype, items)| < U32
    requires forall k :: 0 <= k < |items| ==> TypedValue(fields[i].ltype, items[k])
    ensures ReadFields(fields, st, Together(fields[i], items) + rest) == ReadFields(fields, st, Apart(fields[i], items) + rest)
  {
    hide ReadFields, Together, Apart;
    ItemsTogether(fields, st, i, items, rest);
    ItemsApart(fields, st, i, items, rest);
  }
}
