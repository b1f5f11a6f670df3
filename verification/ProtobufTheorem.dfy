/** Decoding undoes encoding, and unknown fields change nothing. */
module ProtobufTheorem {
  import opened InternalKeys
  import opened Coding
  import opened Protobuf
  import opened ProtobufDecoding
  import Encoder = ProtobufEncoding
  import Decoder = ProtobufDecoder

  // ----- Numbers -----

  lemma PowersOf128()
    ensures Pow128(1) == 0x80 && Pow128(2) == 0x4000 && Pow128(3) == 0x20_0000 && Pow128(4) == 0x1000_0000
  {
  }

  lemma SplitAt7(p: nat, q: nat)
    ensures p * q == p * (q % 128) + 128 * p * (q / 128)
  {
    assert q == q % 128 + 128 * (q / 128);
  }

  lemma {:induction false} TailRoundTrip(q: nat, i: nat, r: nat, rest: Bytes)
    requires 1 <= i <= 4 && r < Pow128(i) && r + Pow128(i) * q < U32
    ensures Varint32Tail(Varint(q) + rest, i, r) == Some((r + Pow128(i) * q, |Varint(q)|))
    decreases 4 - i
  {
    hide Pow128, Varint, Varint32Tail;
    PowersOf128();
    VarintStep(q);
    var bs := Varint(q) + rest;
    Decoder.TailStep(bs, i, r);
    if q < 128 {
      assert bs[0] == q;
      assert i == 4 ==> q < 16;
    } else {
      var p, byte, next := Pow128(i), q % 128 + 128, q / 128;
      assert i < 4;
      assert bs[0] == byte && bs[1..] == Varint(next) + rest && byte % 128 == q % 128;
      SplitAt7(p, q);
      assert r + q % 128 * p < 128 * p;
      TailRoundTrip(next, i + 1, r + q % 128 * p, rest);
    }
  }

  lemma Varint32RoundTrip(v: nat, rest: Bytes)
    requires v < U32
    ensures ReadVarint32(Varint(v) + rest) == Some((v, |Varint(v)|))
  {
    PowersOf128();
    var bs := Varint(v) + rest;
    if v < 128 {
      assert bs[0] == v;
    } else {
      assert bs[0] == v % 128 + 128 && bs[1..] == Varint(v / 128) + rest;
      TailRoundTrip(v / 128, 1, v % 128, rest);
    }
  }

  lemma StringRoundTrip(b: Bytes, rest: Bytes)
    requires |b| < U32
    ensures ReadString(LengthPrefixed(b) + rest) == Some((b, rest))
  {
    hide ReadVarint32, Varint;
    var bs := LengthPrefixed(b) + rest;
    assert bs == Varint(|b|) + (b + rest);
    Varint32RoundTrip(|b|, b + rest);
    assert bs[|Varint(|b|)|..] == b + rest;
  }

  lemma Fixed32FieldRoundTrip(i: nat, rest: Bytes)
    requires i < U32
    ensures ReadScalar(TFixed32, Fixed32(i) + rest) == Some((i, rest))
  {
    hide Fixed32, DecodeFixed32;
    var bs := Fixed32(i) + rest;
    assert bs[..4] == Fixed32(i) + [] && bs[4..] == rest;
    Fixed32RoundTrip(i, []);
  }

  lemma Fixed64FieldRoundTrip(i: nat, rest: Bytes)
    requires i < U64
    ensures ReadScalar(TFixed64, Fixed64(i) + rest) == Some((i, rest))
  {
    hide Fixed32, DecodeFixed32;
    var low, high := i % U32, i / U32;
    var bs := Fixed64(i) + rest;
    assert bs[..8] == Fixed32(low) + Fixed32(high) && bs[8..] == rest;
    Fixed32RoundTrip(low, Fixed32(high));
    assert bs[..8][4..] == Fixed32(high) + [];
    Fixed32RoundTrip(high, []);
  }

  lemma BoolRoundTrip(i: nat, rest: Bytes)
    requires i < 2
    ensures ReadScalar(TBool, Varint(i) + rest) == Some((i, rest))
  {
    hide ReadVarint32;
    Varint32RoundTrip(i, rest);
    assert (Varint(i) + rest)[1..] == rest;
  }

  /** What an integer field writes decodes to its value. */
  lemma IntegerDecodes(t: LType, i: int)
    requires IsInteger(t) && ValidType(t) && TypedValue(t, VInt(i))
    ensures t.TVarint? ==> DecodeInteger(t, i % U64) == Some(i)
    ensures t.TUVarint? ==> 0 <= i < U64 && i % U64 == i && DecodeInteger(t, i) == Some(i)
    ensures t.TSVarint? ==> 0 <= ZigZag(i) < U64 && DecodeInteger(t, ZigZag(i)) == Some(i)
  {
    if t.TVarint? {
      assert i % U64 == if i < 0 then i + U64 else i;
      assert t.size != 8 ==> i % U64 % U32 == if i < 0 then i + U32 else i;
    }
  }

  /** A number of any field type comes back. */
  lemma ScalarRoundTrip(t: LType, i: int, rest: Bytes)
    requires Packable(t) && ValidType(t) && TypedValue(t, VInt(i))
    ensures ReadScalar(t, ScalarBytes(t, i) + rest) == Some((i, rest))
  {
    hide Varint, ReadVarint, ReadVarint32, Fixed32, DecodeFixed32, DecodeInteger, ReadInteger, ZigZag;
    if IsInteger(t) {
      IntegerDecodes(t, i);
      IntegerRoundTrip(t, if t.TSVarint? then ZigZag(i) else i % U64, i, rest);
    } else if t.TBool? {
      BoolRoundTrip(i, rest);
    } else if t.TFixed32? {
      Fixed32FieldRoundTrip(i, rest);
    } else {
      Fixed64FieldRoundTrip(i, rest);
    }
  }

  lemma IntegerRoundTrip(t: LType, v: nat, i: int, rest: Bytes)
    requires IsInteger(t) && v < U64 && DecodeInteger(t, v) == Some(i)
    ensures ReadInteger(t, Varint(v) + rest) == Some((i, rest))
  {
    hide Varint, ReadVarint;
    VarintFits(v);
    VarintRoundTrip(v, rest, 10);
    assert (Varint(v) + rest)[|Varint(v)|..] == rest;
  }

  lemma {:induction false} PackedRoundTrip(t: LType, before: seq<Value>, items: seq<Value>, max: nat)
    requires Packable(t) && ValidType(t) && |before| + |items| <= max
    requires forall k :: 0 <= k < |items| ==> TypedValue(t, items[k])
    ensures ReadPacked(t, before, max, PackedBytes(t, items)) == Some((before + items, []))
    decreases |items|
  {
    hide ScalarBytes, ReadScalar;
    if items == [] {
      assert before + items == before;
    } else {
      assert TypedValue(t, items[0]);
      ScalarRoundTrip(t, items[0].i, PackedBytes(t, items[1..]));
      PackedRoundTrip(t, before + [items[0]], items[1..], max);
      assert before + items == before + [items[0]] + items[1..];
    }
  }

  // ----- Unknown fields -----

  /** A tag and wire type announce a field. */
  lemma FieldStep(fields: seq<Field>, st: State, wireType: nat, tag: nat, bs: Bytes)
    requires |st.m| == |fields| && 0 < tag < 0x2000_0000 && wireType < 8
    ensures var next := ReadOne(fields, st, 8 * tag + wireType, bs);
        ReadFields(fields, st, TagBytes(wireType, tag) + bs) ==
        if next.None? then None else ReadFields(fields, next.value.0, next.value.1)
  {
    hide Varint, ReadVarint32, ReadOne, ReadFields;
    var word := 8 * tag + wireType;
    var all := TagBytes(wireType, tag) + bs;
    Varint32RoundTrip(word, bs);
    assert all[|Varint(word)|..] == bs;
    Decoder.FieldsStep(fields, st, all);
  }

  lemma SkipOne(fields: seq<Field>, st: State, wireType: nat, tag: nat, bs: Bytes, rest: Bytes)
    requires |st.m| == |fields| && wireType < 8 && FindTag(fields, tag) == None && SkipField(wireType, bs) == Some(rest)
    ensures ReadOne(fields, st, 8 * tag + wireType, bs) == Some((st, rest))
  {
    hide SkipField, ReadField, FindTag;
    assert (8 * tag + wireType) / 8 == tag && (8 * tag + wireType) % 8 == wireType;
  }

  lemma KnownOne(fields: seq<Field>, st: State, wireType: nat, i: nat, bs: Bytes)
    requires |st.m| == |fields| && i < |fields| && ValidFields(fields) && wireType < 8
    ensures ReadOne(fields, st, 8 * fields[i].tag + wireType, bs) == ReadField(fields, st, i, wireType, bs)
  {
    hide SkipField, ReadField, FindTag;
    var tag := fields[i].tag;
    assert (8 * tag + wireType) / 8 == tag && (8 * tag + wireType) % 8 == wireType;
    Decoder.TagIsAt(fields, tag, i);
  }

  lemma {:induction false} SkipVarintSkips(v: Bytes, rest: Bytes)
    requires IsVarint(v)
    ensures SkipVarint(v + rest) == Some(rest)
    decreases |v|
  {
    assert (v + rest)[0] == v[0] && (v + rest)[1..] == v[1..] + rest;
    if |v| == 1 {
      assert v[1..] + rest == rest;
    } else {
      SkipVarintSkips(v[1..], rest);
    }
  }

  lemma UnknownTag(fields: seq<Field>, tag: nat)
    requires tag !in Tags(fields)
    ensures FindTag(fields, tag) == None
  {
    var found := FindTag(fields, tag);
    if found.Some? {
      TagIsThere(fields, found.value);
    }
  }

  lemma TagIsThere(fields: seq<Field>, i: nat)
    requires i < |fields|
    ensures fields[i].tag in Tags(fields)
  {
  }

  function UnknownWire(u: Unknown): nat {
    match u
    case UnknownVarint(_, _) => 0
    case Unknown64(_, _) => 1
    case UnknownString(_, _) => 2
    case Unknown32(_, _) => 5
  }

  function UnknownPayload(u: Unknown): Bytes {
    if u.UnknownString? then LengthPrefixed(u.bytes) else u.bytes
  }

  lemma PayloadSkips(tags: set<nat>, u: Unknown, rest: Bytes)
    requires ValidUnknown(tags, u)
    ensures SkipField(UnknownWire(u), UnknownPayload(u) + rest) == Some(rest)
  {
    hide ReadString, LengthPrefixed;
    match u {
      case UnknownVarint(_, bs) => SkipVarintSkips(bs, rest);
      case Unknown64(_, bs) => assert (bs + rest)[8..] == rest;
      case UnknownString(_, bs) => StringRoundTrip(bs, rest);
      case Unknown32(_, bs) => assert (bs + rest)[4..] == rest;
    }
  }

  /** A well-formed field of unknown tag, anywhere in a message, is skipped. */
  lemma UnknownIsSkipped(fields: seq<Field>, st: State, u: Unknown, rest: Bytes)
    requires |st.m| == |fields| && ValidUnknown(Tags(fields), u)
    ensures ReadFields(fields, st, UnknownBytes(u) + rest) == ReadFields(fields, st, rest)
  {
    hide TagBytes, ReadFields, LengthPrefixed, Tags, SkipField, ReadOne, FindTag;
    UnknownTag(fields, u.tag);
    PayloadSkips(Tags(fields), u, rest);
    var payload := UnknownPayload(u);
    assert UnknownBytes(u) == TagBytes(UnknownWire(u), u.tag) + payload;
    assert UnknownBytes(u) + rest == TagBytes(UnknownWire(u), u.tag) + (payload + rest);
    FieldStep(fields, st, UnknownWire(u), u.tag, payload + rest);
    SkipOne(fields, st, UnknownWire(u), u.tag, payload + rest, rest);
  }

  lemma {:induction false} NoiseIsSkipped(fields: seq<Field>, st: State, us: seq<Unknown>, rest: Bytes)
    requires |st.m| == |fields|
    ensures ReadFields(fields, st, NoiseBytes(Tags(fields), us) + rest) == ReadFields(fields, st, rest)
    decreases |us|
  {
    hide ReadFields, UnknownBytes, Tags;
    if us == [] {
      assert NoiseBytes(Tags(fields), us) + rest == rest;
    } else {
      var more := NoiseBytes(Tags(fields), us[1..]);
      if ValidUnknown(Tags(fields), us[0]) {
        assert NoiseBytes(Tags(fields), us) + rest == UnknownBytes(us[0]) + (more + rest);
        UnknownIsSkipped(fields, st, us[0], more + rest);
      } else {
        assert NoiseBytes(Tags(fields), us) + rest == more + rest;
      }
      NoiseIsSkipped(fields, st, us[1..], rest);
    }
  }

  // ----- What comes back -----

  /** A message up to the contents of its absent fields. */
  ghost function CleanValue(t: LType, v: Value): Value
    decreases t
  {
    if t.TMessage? && v.VMessage? then VMessage(CleanMessage(t.fields, v.m)) else v
  }

  ghost function CleanField(f: Field, fv: FieldValue): FieldValue
    decreases f
  {
    match fv
    case One(v) => One(CleanValue(f.ltype, v))
    case Maybe(has, v) => if has then Maybe(true, CleanValue(f.ltype, v)) else DefaultField(f)
    case Many(items) => Many(seq(|items|, k requires 0 <= k < |items| => CleanValue(f.ltype, items[k])))
  }

  ghost function CleanMessage(fields: seq<Field>, m: seq<FieldValue>): (r: seq<FieldValue>)
    ensures |r| == |fields|
    ensures |m| == |fields| ==> forall i :: 0 <= i < |fields| ==> r[i] == CleanField(fields[i], m[i])
    decreases fields
  {
    if |m| != |fields| then DefaultMessage(fields)
    else seq(|fields|, i requires 0 <= i < |fields| => CleanField(fields[i], m[i]))
  }

  /** A field that is left out for being zero is what a new message holds anyway. */
  lemma {:induction false} ZeroIsDefault(f: Field, fv: FieldValue)
    requires ValidField(f) && TypedField(f, fv) && IsZero(f, fv)
    ensures CleanField(f, fv) == DefaultField(f)
    decreases f
  {
    if f.rule.Singular? && f.ltype.TMessage? {
      var fields, m := f.ltype.fields, fv.v.m;
      assert ValidFields(fields) && TypedMessage(fields, m);
      forall i | 0 <= i < |fields| ensures CleanField(fields[i], m[i]) == DefaultField(fields[i]) {
        ZeroIsDefault(fields[i], m[i]);
      }
      assert CleanMessage(fields, m) == DefaultMessage(fields);
      assert CleanValue(f.ltype, fv.v) == VMessage(CleanMessage(fields, m));
      assert DefaultValue(f) == ZeroValue(f.ltype) == VMessage(DefaultMessage(fields));
    } else if f.rule.Repeated? {
      assert CleanField(f, fv).items == [];
    } else if f.rule.Singular? {
      assert DefaultValue(f) == ZeroValue(f.ltype);
      assert f.ltype.TFixedBytes? ==> fv.v.b == Zeros(0);
    }
  }

  /** What the decoder has room for: arrays, and strings with their terminators. */
  ghost predicate ValueKept(t: LType, v: Value)
    decreases t
  {
    match t
    case TBytes(n) => v.VBytes? && |v.b| <= n
    case TString(n) => v.VBytes? && |v.b| < n
    case TMessage(fields) => v.VMessage? && MessageKept(fields, v.m)
    case _ => true
  }

  ghost predicate FieldKept(f: Field, fv: FieldValue)
    decreases f
  {
    match fv
    case One(v) => (f.rule.Singular? && IsZero(f, fv)) || ValueKept(f.ltype, v)
    case Maybe(has, v) => has ==> ValueKept(f.ltype, v)
    case Many(items) =>
      && IsArray(f.rule) && |items| <= f.rule.max
      && forall k :: 0 <= k < |items| ==> ValueKept(f.ltype, items[k])
  }

  ghost predicate MessageKept(fields: seq<Field>, m: seq<FieldValue>)
    decreases fields
  {
    |m| == |fields| && forall i :: 0 <= i < |fields| ==> FieldKept(fields[i], m[i])
  }

  /** All of it can be encoded, too. */
  lemma {:induction false} KeptFits(fields: seq<Field>, m: seq<FieldValue>)
    requires TypedMessage(fields, m) && MessageKept(fields, m)
    ensures MessageFits(fields, m)
    decreases fields
  {
    forall i | 0 <= i < |fields| ensures FieldFits(fields[i], m[i]) {
      FieldKeptFits(fields[i], m[i]);
    }
  }

  lemma {:induction false} FieldKeptFits(f: Field, fv: FieldValue)
    requires TypedField(f, fv) && FieldKept(f, fv)
    ensures FieldFits(f, fv)
    decreases f
  {
    if f.ltype.TMessage? {
      var fields := f.ltype.fields;
      match fv {
        case One(v) =>
          if MessageKept(fields, v.m) {
            KeptFits(fields, v.m);
          }
        case Maybe(has, v) =>
          if has {
            KeptFits(fields, v.m);
          }
        case Many(items) =>
          forall k | 0 <= k < |items| ensures ValueFits(f.ltype, items[k]) {
            KeptFits(fields, items[k].m);
          }
      }
    }
  }

  lemma {:induction false} NoZeroStays(b: Bytes)
    requires 0 !in b
    ensures UpToZero(b) == b
  {
    if b != [] {
      assert b[0] in b && forall x :: x in b[1..] ==> x in b;
      NoZeroStays(b[1..]);
    }
  }

  // ----- The round trip -----

  /** A value of any type comes back; a submessage is decoded into a struct that holds its defaults. */
  lemma {:induction false} ValueRoundTrip(t: LType, v: Value, start: Value, path: seq<nat>, noise: Noise, rest: Bytes)
    requires ValidType(t) && TypedValue(t, v) && ValueKept(t, v)
    requires |ValueBytes(t, v, path, noise)| < U32
    requires t.TMessage? ==> start == VMessage(DefaultMessage(t.fields))
    ensures ReadValue(t, start, ValueBytes(t, v, path, noise) + rest) == Some((CleanValue(t, v), rest))
    decreases t, 0
  {
    hide ReadString, LengthPrefixed, MessageBytes, ReadMessage, MessageKept, TypedMessage, ValidFields, ScalarBytes, ReadScalar;
    if Packable(t) {
      ScalarRoundTrip(t, v.i, rest);
    } else if t.TMessage? {
      Encoder.SameLength(t.fields, v.m);
      var w := MessageBytes(t.fields, v.m, 0, path, noise);
      PayloadIsShorter(w);
      StringRoundTrip(w, rest);
      MessageRoundTrip(t.fields, v.m, path, noise);
    } else {
      PayloadIsShorter(v.b);
      StringRoundTrip(v.b, rest);
      if t.TString? {
        NoZeroStays(v.b);
      } else if t.TFixedBytes? && v.b == [] {
        assert v.b == Zeros(0);
      }
    }
  }

  lemma PayloadIsShorter(b: Bytes)
    ensures |b| < |LengthPrefixed(b)|
  {
  }

  /** Some required fields, which a writer may leave out. */
  ghost predicate AllRequired(fields: seq<Field>, out: set<nat>) {
    forall j :: j in out ==> j < |fields| && fields[j].rule.Required?
  }

  /** How far decoding has come: fields before i hold what was encoded, except those left out; the others hold
      their defaults. */
  ghost predicate Stage(fields: seq<Field>, m: seq<FieldValue>, out: set<nat>, i: nat, st: State) {
    && |st.m| == |fields| == |m| && i <= |fields| && AllRequired(fields, out)
    && (forall j :: 0 <= j < i && j !in out ==> st.m[j] == CleanField(fields[j], m[j]))
    && (forall j :: 0 <= j < |fields| && (i <= j || j in out) ==> st.m[j] == DefaultField(fields[j]))
    && (forall j :: 0 <= j < i && fields[j].rule.Required? && j !in out ==> j in st.seen) && st.seen !! out
    && (st.fixed.Some? ==> st.fixed.value < i && fields[st.fixed.value].rule.FixedCount?)
  }

  lemma StageIsDone(fields: seq<Field>, m: seq<FieldValue>, out: set<nat>, i: nat, st: State)
    requires TypedMessage(fields, m) && Stage(fields, m, out, i, st)
    ensures FixedDone(fields, st)
  {
    if st.fixed.Some? {
      var j := st.fixed.value;
      assert TypedField(fields[j], m[j]);
      assert st.m[j] == CleanField(fields[j], m[j]);
    }
  }

  /** One tagged value is decoded and stored. */
  lemma {:induction false} OccurrenceRoundTrip(fields: seq<Field>, st: State, i: nat, v: Value, path: seq<nat>, noise: Noise, rest: Bytes)
    requires |st.m| == |fields| && i < |fields| && ValidFields(fields)
    requires TypedValue(fields[i].ltype, v) && ValueKept(fields[i].ltype, v)
    requires |OccurrenceBytes(fields[i], v, path, noise)| < U32
    requires Prepare(fields, st, i).Some?
    requires var f, p := fields[i], Prepare(fields, st, i).value;
        && (IsArray(f.rule) ==> !Packable(f.ltype) && |Items(p.m[i])| < f.rule.max)
        && (f.ltype.TMessage? ==> StartValue(f, p.m[i]) == VMessage(DefaultMessage(f.ltype.fields)))
    ensures var f, p := fields[i], Prepare(fields, st, i).value;
        ReadFields(fields, st, OccurrenceBytes(f, v, path, noise) + rest) ==
        ReadFields(fields, p.(m := Store(fields, p.m, i, CleanValue(f.ltype, v))), rest)
    decreases fields[i], 0
  {
    hide TagBytes, ValueBytes, ReadFields, ReadValue, ReadOne, StartValue, Store, Prepare, CleanValue, TypedValue, ValueKept, FindTag;
    var f, p := fields[i], Prepare(fields, st, i).value;
    var tag, bs := TagBytes(WireType(f.ltype), f.tag), ValueBytes(f.ltype, v, path, noise);
    assert OccurrenceBytes(f, v, path, noise) + rest == tag + (bs + rest);
    FieldStep(fields, st, WireType(f.ltype), f.tag, bs + rest);
    KnownOne(fields, st, WireType(f.ltype), i, bs + rest);
    ValueRoundTrip(f.ltype, v, StartValue(f, p.m[i]), path, noise, rest);
  }

  lemma StartsAtDefault(f: Field, fv: FieldValue)
    requires fv == DefaultField(f) || (IsArray(f.rule) && fv.Many?)
    ensures f.ltype.TMessage? ==> StartValue(f, fv) == VMessage(DefaultMessage(f.ltype.fields))
  {
    if f.ltype.TMessage? {
      assert DefaultValue(f) == ZeroValue(f.ltype) == VMessage(DefaultMessage(f.ltype.fields));
    }
  }

  lemma Fields(fields: seq<Field>, m: seq<FieldValue>, i: nat)
    requires ValidFields(fields) && TypedMessage(fields, m) && MessageKept(fields, m) && i < |fields|
    ensures ValidField(fields[i]) && |m| == |fields| && TypedField(fields[i], m[i]) && FieldKept(fields[i], m[i])
  {
  }

  /** A field that is left out is at its default. */
  lemma AbsentField(fields: seq<Field>, m: seq<FieldValue>, out: set<nat>, i: nat, st: State)
    requires ValidFields(fields) && TypedMessage(fields, m) && Stage(fields, m, out, i, st) && i < |fields|
    requires (!fields[i].rule.Required? && CleanField(fields[i], m[i]) == DefaultField(fields[i])) || i in out
    ensures Stage(fields, m, out, i + 1, st)
  {
  }

  /** A field of one value. */
  lemma {:induction false} SingleField(fields: seq<Field>, m: seq<FieldValue>, out: set<nat>, i: nat, st: State,
                                       path: seq<nat>, noise: Noise, rest: Bytes) returns (next: State)
    requires ValidFields(fields) && TypedMessage(fields, m) && MessageKept(fields, m)
    requires i < |fields| && i !in out && Stage(fields, m, out, i, st) && !IsArray(fields[i].rule)
    requires if HasFlag(fields[i].rule) then m[i].Maybe? && m[i].has else m[i].One?
    requires ValueKept(fields[i].ltype, m[i].v) && |OccurrenceBytes(fields[i], m[i].v, path, noise)| < U32
    ensures Stage(fields, m, out, i + 1, next)
    ensures ReadFields(fields, st, OccurrenceBytes(fields[i], m[i].v, path, noise) + rest) == ReadFields(fields, next, rest)
    decreases fields[i], 1
  {
    hide OccurrenceBytes, ReadFields, CleanValue, MessageKept, ValueKept;
    var f, v := fields[i], m[i].v;
    Fields(fields, m, i);
    var p := Prepare(fields, st, i).value;
    StartsAtDefault(f, p.m[i]);
    OccurrenceRoundTrip(fields, st, i, v, path, noise, rest);
    next := p.(m := Store(fields, p.m, i, CleanValue(f.ltype, v)));
    Stored(fields, m, out, i, st);
  }

  lemma Stored(fields: seq<Field>, m: seq<FieldValue>, out: set<nat>, i: nat, st: State)
    requires TypedMessage(fields, m) && i < |fields| && i !in out && Stage(fields, m, out, i, st) && !IsArray(fields[i].rule)
    requires if HasFlag(fields[i].rule) then m[i].Maybe? && m[i].has else m[i].One?
    ensures var p := Prepare(fields, st, i).value;
        Stage(fields, m, out, i + 1, p.(m := Store(fields, p.m, i, CleanValue(fields[i].ltype, m[i].v))))
  {
    hide CleanValue, DefaultField, TypedMessage, Store;
    var v := CleanValue(fields[i].ltype, m[i].v);
    StoredHere(fields, st.m, i, m[i]);
    forall j | 0 <= j < |fields| && j != i ensures Store(fields, st.m, i, v)[j] == st.m[j] {
      StoredElsewhere(fields, m, out, i, st, v, j);
    }
  }

  lemma StoredHere(fields: seq<Field>, was: seq<FieldValue>, i: nat, fv: FieldValue)
    requires i < |fields| == |was| && !IsArray(fields[i].rule)
    requires if HasFlag(fields[i].rule) then fv.Maybe? && fv.has else fv.One?
    ensures Store(fields, was, i, CleanValue(fields[i].ltype, fv.v))[i] == CleanField(fields[i], fv)
  {
    hide CleanValue;
  }

  /** No other member of a union was there to be pushed out. */
  lemma StoredElsewhere(fields: seq<Field>, m: seq<FieldValue>, out: set<nat>, i: nat, st: State, v: Value, j: nat)
    requires TypedMessage(fields, m) && i < |fields| && Stage(fields, m, out, i, st) && !IsArray(fields[i].rule)
    requires HasFlag(fields[i].rule) ==> m[i].Maybe? && m[i].has
    requires j < |fields| && j != i
    ensures Store(fields, st.m, i, v)[j] == st.m[j]
  {
    hide CleanValue, DefaultField;
    if SameUnion(fields[i], fields[j]) && j < i {
      assert SameUnion(fields[j], fields[i]) && TypedField(fields[j], m[j]);
    }
  }

  /** The items of an array from item k on, each with its own tag. */
  lemma {:induction false} ItemsRoundTrip(fields: seq<Field>, m: seq<FieldValue>, i: nat, k: nat, st: State, path: seq<nat>, noise: Noise,
                                          rest: Bytes) returns (next: State)
    requires ValidFields(fields) && |m| == |fields| == |st.m| && i < |fields| && IsArray(fields[i].rule) && !Packable(fields[i].ltype)
    requires m[i].Many? && TypedField(fields[i], m[i]) && FieldKept(fields[i], m[i]) && k <= |m[i].items|
    requires st.m[i] == Many(CleanField(fields[i], m[i]).items[..k])
    requires fields[i].rule.FixedCount? ==> if k == 0 then FixedDone(fields, st) && st.fixed != Some(i) else st.fixed == Some(i)
    requires |ItemsBytes(Tags(fields), fields[i], m[i].items, k, path, noise)| < U32
    ensures |next.m| == |fields| && next.seen == st.seen
    ensures next.m == st.m[i := CleanField(fields[i], m[i])]
    ensures next.fixed == if fields[i].rule.FixedCount? && k < |m[i].items| then Some(i) else st.fixed
    ensures ReadFields(fields, st, ItemsBytes(Tags(fields), fields[i], m[i].items, k, path, noise) + rest) == ReadFields(fields, next, rest)
    decreases fields[i], 1, |m[i].items| - k
  {
    hide OccurrenceBytes, ReadFields, CleanValue, TypedValue, ValueKept, NoiseBytes, Tags;
    var f, items := fields[i], m[i].items;
    var clean := CleanField(f, m[i]).items;
    if k == |items| {
      next := st;
      assert clean[..k] == clean;
      assert ItemsBytes(Tags(fields), f, items, k, path, noise) + rest == rest;
    } else {
      var us, occ := noise(path + [k]), OccurrenceBytes(f, items[k], path + [k], noise);
      var more := ItemsBytes(Tags(fields), f, items, k + 1, path, noise);
      assert ItemsBytes(Tags(fields), f, items, k, path, noise) + rest == NoiseBytes(Tags(fields), us) + (occ + (more + rest));
      NoiseIsSkipped(fields, st, us, occ + (more + rest));
      var p := Prepare(fields, st, i).value;
      assert p.m[i] == Many(clean[..k]);
      StartsAtDefault(f, p.m[i]);
      OccurrenceRoundTrip(fields, st, i, items[k], path + [k], noise, more + rest);
      var st' := p.(m := Store(fields, p.m, i, CleanValue(f.ltype, items[k])));
      assert clean[..k + 1] == clean[..k] + [clean[k]];
      next := ItemsRoundTrip(fields, m, i, k + 1, st', path, noise, rest);
      assert next.m == st.m[i := CleanField(f, m[i])];
    }
  }

  /** An array whose items share one tag. */
  lemma PackedField(fields: seq<Field>, m: seq<FieldValue>, i: nat, st: State, rest: Bytes)
    requires ValidFields(fields) && |m| == |fields| == |st.m| && i < |fields| && IsArray(fields[i].rule) && Packable(fields[i].ltype)
    requires m[i].Many? && TypedField(fields[i], m[i]) && FieldKept(fields[i], m[i]) && st.m[i] == Many([])
    requires fields[i].rule.FixedCount? ==> FixedDone(fields, st) && st.fixed != Some(i)
    requires |PackedBytes(fields[i].ltype, m[i].items)| < U32
    ensures var f := fields[i];
        var next := State(st.m[i := m[i]], st.seen, if f.rule.FixedCount? then Some(i) else st.fixed);
        && m[i] == CleanField(f, m[i])
        && ReadFields(fields, st, TagBytes(2, f.tag) + LengthPrefixed(PackedBytes(f.ltype, m[i].items)) + rest) ==
           ReadFields(fields, next, rest)
  {
    hide TagBytes, LengthPrefixed, PackedBytes, ReadFields, ReadPacked, ReadString, ReadOne, TypedValue, ValueKept, FindTag;
    var f, items := fields[i], m[i].items;
    var payload := PackedBytes(f.ltype, items);
    assert m[i].items == CleanField(f, m[i]).items;
    assert TagBytes(2, f.tag) + LengthPrefixed(payload) + rest == TagBytes(2, f.tag) + (LengthPrefixed(payload) + rest);
    FieldStep(fields, st, 2, f.tag, LengthPrefixed(payload) + rest);
    KnownOne(fields, st, 2, i, LengthPrefixed(payload) + rest);
    StringRoundTrip(payload, rest);
    PackedRoundTrip(f.ltype, [], items, f.rule.max);
    assert [] + items == items;
    var p := Prepare(fields, st, i).value;
    assert p.m[i] == Many([]) && p.m == st.m;
  }

  /** One field, whatever its rule, brings decoding to the next. */
  lemma {:induction false} FieldRoundTrip(fields: seq<Field>, m: seq<FieldValue>, out: set<nat>, i: nat, st: State,
                                          path: seq<nat>, noise: Noise, rest: Bytes) returns (next: State)
    requires ValidFields(fields) && TypedMessage(fields, m) && MessageKept(fields, m)
    requires i < |fields| && i !in out && Stage(fields, m, out, i, st)
    requires |FieldBytes(Tags(fields), fields[i], m[i], path, noise)| < U32
    ensures Stage(fields, m, out, i + 1, next)
    ensures ReadFields(fields, st, FieldBytes(Tags(fields), fields[i], m[i], path, noise) + rest) == ReadFields(fields, next, rest)
    decreases fields[i], 2
  {
    hide OccurrenceBytes, ReadFields, CleanValue, CleanField, DefaultField, ItemsBytes, MessageKept, Tags, IsZero, Stage, TypedMessage, ValidFields;
    Fields(fields, m, i);
    var f := fields[i];
    if FieldBytes(Tags(fields), f, m[i], path, noise) == [] {
      assert FieldBytes(Tags(fields), f, m[i], path, noise) + rest == rest;
      EmptyIsAbsent(Tags(fields), f, m[i], path, noise);
      AbsentField(fields, m, out, i, st);
      next := st;
    } else if IsArray(f.rule) {
      next := ArrayField(fields, m, out, i, st, path, noise, rest);
    } else {
      next := SingleField(fields, m, out, i, st, path, noise, rest);
    }
  }

  lemma ItemsNotEmpty(tags: set<nat>, f: Field, items: seq<Value>, path: seq<nat>, noise: Noise)
    requires items != []
    ensures ItemsBytes(tags, f, items, 0, path, noise) != []
  {
  }

  lemma EmptyIsAbsent(tags: set<nat>, f: Field, fv: FieldValue, path: seq<nat>, noise: Noise)
    requires ValidField(f) && TypedField(f, fv) && FieldBytes(tags, f, fv, path, noise) == []
    ensures !f.rule.Required? && CleanField(f, fv) == DefaultField(f)
  {
    if f.rule.Singular? && IsZero(f, fv) {
      ZeroIsDefault(f, fv);
    } else if IsArray(f.rule) && fv.items != [] {
      ItemsNotEmpty(tags, f, fv.items, path, noise);
    } else if IsArray(f.rule) {
      assert CleanField(f, fv).items == [];
    }
  }

  lemma {:induction false} ArrayField(fields: seq<Field>, m: seq<FieldValue>, out: set<nat>, i: nat, st: State,
                                      path: seq<nat>, noise: Noise, rest: Bytes) returns (next: State)
    requires ValidFields(fields) && TypedMessage(fields, m) && MessageKept(fields, m)
    requires i < |fields| && i !in out && Stage(fields, m, out, i, st) && IsArray(fields[i].rule) && m[i].Many? && m[i].items != []
    requires |FieldBytes(Tags(fields), fields[i], m[i], path, noise)| < U32
    ensures Stage(fields, m, out, i + 1, next)
    ensures ReadFields(fields, st, FieldBytes(Tags(fields), fields[i], m[i], path, noise) + rest) == ReadFields(fields, next, rest)
    decreases fields[i], 1, |m[i].items| + 1
  {
    hide ReadFields, CleanValue, ItemsBytes, MessageKept, TypedMessage, Tags, FixedDone;
    Fields(fields, m, i);
    StageIsDone(fields, m, out, i, st);
    var f := fields[i];
    if Packable(f.ltype) {
      PayloadIsShorter(PackedBytes(f.ltype, m[i].items));
      PackedField(fields, m, i, st, rest);
      next := State(st.m[i := m[i]], st.seen, if f.rule.FixedCount? then Some(i) else st.fixed);
    } else {
      assert CleanField(f, m[i]).items[..0] == [];
      next := ItemsRoundTrip(fields, m, i, 0, st, path, noise, rest);
    }
  }

  /** The bytes of a message without some of its fields. */
  function BytesWithout(fields: seq<Field>, m: seq<FieldValue>, out: set<nat>, i: nat, path: seq<nat>, noise: Noise): Bytes
    requires i <= |fields| == |m|
    decreases |fields| - i
  {
    NoiseBytes(Tags(fields), noise(path + [i])) +
    if i == |fields| then []
    else
      (if i in out then [] else FieldBytes(Tags(fields), fields[i], m[i], path + [i], noise))
      + BytesWithout(fields, m, out, i + 1, path, noise)
  }

  lemma {:induction false} NoneWithout(fields: seq<Field>, m: seq<FieldValue>, i: nat, path: seq<nat>, noise: Noise)
    requires i <= |fields| == |m|
    ensures BytesWithout(fields, m, {}, i, path, noise) == MessageBytes(fields, m, i, path, noise)
    decreases |fields| - i
  {
    if i < |fields| {
      NoneWithout(fields, m, i + 1, path, noise);
    }
  }

  lemma {:induction false} FieldsRoundTrip(fields: seq<Field>, m: seq<FieldValue>, out: set<nat>, i: nat, st: State,
                                           path: seq<nat>, noise: Noise) returns (last: State)
    requires ValidFields(fields) && TypedMessage(fields, m) && MessageKept(fields, m)
    requires i <= |fields| == |m| && Stage(fields, m, out, i, st)
    requires |BytesWithout(fields, m, out, i, path, noise)| < U32
    ensures Stage(fields, m, out, |fields|, last)
    ensures ReadFields(fields, st, BytesWithout(fields, m, out, i, path, noise)) == Some(last)
    decreases fields, |fields| - i
  {
    hide FieldBytes, ReadFields, NoiseBytes, TypedMessage, MessageKept, Stage, Tags, ValidFields;
    var us := NoiseBytes(Tags(fields), noise(path + [i]));
    StageLength(fields, m, out, i, st);
    if i == |fields| {
      NoiseIsSkipped(fields, st, noise(path + [i]), []);
      assert BytesWithout(fields, m, out, i, path, noise) == us + [];
      Decoder.FieldsEnd(fields, st);
      last := st;
    } else {
      var rest := BytesWithout(fields, m, out, i + 1, path, noise);
      if i in out {
        NoiseIsSkipped(fields, st, noise(path + [i]), rest);
        assert BytesWithout(fields, m, out, i, path, noise) == us + rest;
        AbsentField(fields, m, out, i, st);
        last := FieldsRoundTrip(fields, m, out, i + 1, st, path, noise);
      } else {
        var field := FieldBytes(Tags(fields), fields[i], m[i], path + [i], noise);
        assert BytesWithout(fields, m, out, i, path, noise) == us + (field + rest);
        NoiseIsSkipped(fields, st, noise(path + [i]), field + rest);
        var next := FieldRoundTrip(fields, m, out, i, st, path + [i], noise, rest);
        last := FieldsRoundTrip(fields, m, out, i + 1, next, path, noise);
      }
    }
  }

  lemma StageLength(fields: seq<Field>, m: seq<FieldValue>, out: set<nat>, i: nat, st: State)
    requires Stage(fields, m, out, i, st)
    ensures |st.m| == |fields| == |m|
  {
  }

  /** Decoding what was encoded, with unknown fields anywhere between the known ones at every depth,
      gives the message back. */
  lemma {:induction false} MessageRoundTrip(fields: seq<Field>, m: seq<FieldValue>, path: seq<nat>, noise: Noise)
    requires ValidFields(fields) && |m| == |fields| && TypedMessage(fields, m) && MessageKept(fields, m)
    requires |MessageBytes(fields, m, 0, path, noise)| < U32
    ensures ReadMessage(fields, DefaultMessage(fields), MessageBytes(fields, m, 0, path, noise)) == Some(CleanMessage(fields, m))
    decreases fields, |fields| + 1
  {
    var st := State(DefaultMessage(fields), {}, None);
    assert Stage(fields, m, {}, 0, st);
    NoneWithout(fields, m, 0, path, noise);
    var last := FieldsRoundTrip(fields, m, {}, 0, st, path, noise);
    StageIsDone(fields, m, {}, |fields|, last);
    assert last.m == CleanMessage(fields, m);
  }

  /** Encode a message into a buffer, decode it into a new struct: the message comes back, up to the
      contents of absent fields. */
  method EncodeThenDecode(fields: seq<Field>, m: seq<FieldValue>, room: nat)
    returns (bytes: Option<Bytes>, back: Option<seq<FieldValue>>)
    requires ValidFields(fields) && |m| == |fields| && TypedMessage(fields, m) && MessageKept(fields, m)
    requires |Encoding(fields, m)| < U32
    ensures bytes == if |Encoding(fields, m)| <= room then Some(Encoding(fields, m)) else None
    ensures bytes.Some? ==> back == Some(CleanMessage(fields, m))
  {
    KeptFits(fields, m);
    var size, out := Encoder.SizeThenWrite(fields, m, room);
    bytes, back := out, None;
    if bytes.Some? {
      var stream := new Decoder.IStream(bytes.value);
      MessageRoundTrip(fields, m, [], QUIET);
      back := Decoder.DecodeNoinit(stream, fields, DefaultMessage(fields));
    }
  }
}
