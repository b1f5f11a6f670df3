/** The encoder: one pass over the descriptors, run twice for every submessage, first to find its size
    and then to write it. */
module ProtobufEncoding {
  import opened InternalKeys
  import opened Coding
  import opened Protobuf

  /** An output stream; a sizing stream only counts. */
  class OStream {
    const sizing: bool
    const maxSize: nat
    var bytesWritten: nat
    var out: Bytes

    constructor (count: bool, max: nat, state: Bytes)
      ensures sizing == count && maxSize == max && bytesWritten == 0 && out == state
    {
      sizing, maxSize, bytesWritten, out := count, max, 0, state;
    }

    ghost predicate Room()
      reads this
    {
      !sizing ==> bytesWritten <= maxSize
    }
  }

  /** What a call that wants to put bs into a stream does: a sizing stream says whether bs can be encoded
      and counts it, any other takes all of it exactly when it can be encoded and there is room. */
  ghost predicate Outcome(s: OStream, written: nat, out: Bytes, fits: bool, bs: Bytes, ok: bool)
    reads s
  {
    && s.Room()
    && (if s.sizing then ok == fits && s.out == out else ok == (fits && written + |bs| <= s.maxSize))
    && (ok ==> s.bytesWritten == written + |bs| && (!s.sizing ==> s.out == out + bs))
  }

  method Write(s: OStream, buf: Bytes, count: nat, ghost bs: Bytes) returns (ok: bool)
    requires s.Room() && |bs| == count && (!s.sizing ==> buf == bs)
    modifies s
    ensures Outcome(s, old(s.bytesWritten), old(s.out), true, bs, ok)
  {
    if count > 0 && !s.sizing {
      if s.bytesWritten + count > s.maxSize {
        return false;  // stream full
      }
      s.out := s.out + buf;
    }
    s.bytesWritten := s.bytesWritten + count;
    ok := true;
  }

  /** The bytes of a varint, each with its top bit set but for the last. */
  method VarintBuffer(value: nat) returns (buffer: Bytes)
    requires value > 0x7F
    ensures buffer == Varint(value)
  {
    hide Varint;
    buffer := [];
    var v: nat := value;
    ghost var before: Bytes, left: nat := [], 0;
    while v > 0
      invariant v > 0 ==> buffer + Varint(v) == Varint(value)
      invariant v == 0 ==> buffer == before + [left + 128] && left < 128 && before + [left] == Varint(value)
      decreases v
    {
      VarintStep(v);
      before, left := buffer, v % 128;
      assert v >= 128 ==> (buffer + [v % 128 + 128]) + Varint(v / 128) == buffer + Varint(v);
      buffer := buffer + [v % 128 + 128];
      v := v / 128;
    }
    var last: int := buffer[|buffer| - 1];
    buffer := buffer[..|buffer| - 1] + [last - 128];
    assert buffer == before + [left];
  }

  method EncodeVarint(s: OStream, value: nat) returns (ok: bool)
    requires s.Room()
    modifies s
    ensures Outcome(s, old(s.bytesWritten), old(s.out), true, Varint(value), ok)
  {
    if value <= 0x7F {
      ok := Write(s, [value], 1, [value]);
      return;
    }
    var buffer := VarintBuffer(value);
    ok := Write(s, buffer, |buffer|, buffer);
  }

  /** One write after another. */
  lemma Then(s: OStream, w0: nat, o0: Bytes, w1: nat, o1: Bytes, fits1: bool, bs1: Bytes, fits2: bool, bs2: Bytes, ok: bool)
    requires s.sizing ==> fits1 && o1 == o0
    requires w1 == w0 + |bs1| && (!s.sizing ==> fits1 && o1 == o0 + bs1)
    requires Outcome(s, w1, o1, fits2, bs2, ok)
    ensures Outcome(s, w0, o0, fits1 && fits2, bs1 + bs2, ok)
  {
    assert o0 + bs1 + bs2 == o0 + (bs1 + bs2);
  }

  /** What a write that failed leaves undone does not matter. */
  lemma Fails(s: OStream, w0: nat, o0: Bytes, fits1: bool, bs1: Bytes, fits2: bool, bs2: Bytes)
    requires Outcome(s, w0, o0, fits1, bs1, false)
    ensures Outcome(s, w0, o0, fits1 && fits2, bs1 + bs2, false)
  {
  }

  method EncodeTag(s: OStream, wireType: nat, tag: nat) returns (ok: bool)
    requires s.Room()
    modifies s
    ensures Outcome(s, old(s.bytesWritten), old(s.out), true, TagBytes(wireType, tag), ok)
  {
    ok := EncodeVarint(s, 8 * tag + wireType);
  }

  method EncodeString(s: OStream, b: Bytes) returns (ok: bool)
    requires s.Room()
    modifies s
    ensures Outcome(s, old(s.bytesWritten), old(s.out), true, LengthPrefixed(b), ok)
  {
    hide Varint, Outcome;
    ok := EncodeVarint(s, |b|);
    if !ok {
      Fails(s, old(s.bytesWritten), old(s.out), true, Varint(|b|), true, b);
      return;
    }
    Succeeded(s, old(s.bytesWritten), old(s.out), true, Varint(|b|));
    ghost var w1, o1 := s.bytesWritten, s.out;
    ok := Write(s, b, |b|, b);
    Then(s, old(s.bytesWritten), old(s.out), w1, o1, true, Varint(|b|), true, b, ok);
  }

  lemma Succeeded(s: OStream, w0: nat, o0: Bytes, fits: bool, bs: Bytes)
    requires Outcome(s, w0, o0, fits, bs, true)
    ensures s.Room() && s.bytesWritten == w0 + |bs| && fits && (if s.sizing then s.out == o0 else s.out == o0 + bs)
  {
  }

  method EncodeSvarint(s: OStream, value: int) returns (ok: bool)
    requires s.Room() && -(U64 / 2) <= value < U64 / 2
    modifies s
    ensures Outcome(s, old(s.bytesWritten), old(s.out), true, Varint(ZigZag(value)), ok)
  {
    // 64-bit arithmetic: shift left, and complement for negative values
    var shifted := 2 * value % U64;
    var zigzagged := if value < 0 then U64 - 1 - shifted else shifted;
    ok := EncodeVarint(s, zigzagged);
  }

  method EncodeFixed32(s: OStream, val: nat) returns (ok: bool)
    requires s.Room() && val < U32
    modifies s
    ensures Outcome(s, old(s.bytesWritten), old(s.out), true, Fixed32(val), ok)
  {
    var bytes: Bytes := [val % 256, val / 0x100 % 256, val / 0x1_0000 % 256, val / 0x100_0000 % 256];
    ok := Write(s, bytes, 4, bytes);
  }

  method EncodeFixed64(s: OStream, val: nat) returns (ok: bool)
    requires s.Room() && val < U64
    modifies s
    ensures Outcome(s, old(s.bytesWritten), old(s.out), true, Fixed64(val), ok)
  {
    var low, high := val % U32, val / U32;
    var bytes: Bytes := [low % 256, low / 0x100 % 256, low / 0x1_0000 % 256, low / 0x100_0000,
                         high % 256, high / 0x100 % 256, high / 0x1_0000 % 256, high / 0x100_0000];
    assert bytes == Fixed64(val);
    ok := Write(s, bytes, 8, bytes);
  }

  /** The field encoders of numbers. */
  method EncodeScalar(s: OStream, t: LType, v: Value) returns (ok: bool)
    requires s.Room() && Packable(t) && ValidType(t) && TypedValue(t, v)
    modifies s
    ensures Outcome(s, old(s.bytesWritten), old(s.out), true, ScalarBytes(t, v.i), ok)
  {
    hide Varint, Fixed32, Fixed64;
    match t {
      case TBool => ok := EncodeVarint(s, if v.i != 0 then 1 else 0);
      case TVarint(_) => ok := EncodeVarint(s, if v.i < 0 then v.i + U64 else v.i);
      case TUVarint(_) => ok := EncodeVarint(s, v.i);
      case TSVarint(_) => ok := EncodeSvarint(s, v.i);
      case TFixed32 => ok := EncodeFixed32(s, v.i);
      case TFixed64 => ok := EncodeFixed64(s, v.i);
    }
  }

  // ----- Fields and messages -----

  /** Whether a field holds what proto3 does not write. */
  method CheckZero(f: Field, fv: FieldValue) returns (zero: bool)
    ensures zero == IsZero(f, fv)
    decreases f
  {
    match f.rule {
      case Required => return false;
      case Repeated(_) => return fv.Many? && |fv.items| == 0;
      case FixedCount(_) => return false;
      case Optional => return fv.Maybe? && !fv.has;
      case Oneof(_) => return fv.Maybe? && !fv.has;
      case Singular =>
    }
    if !fv.One? {
      return false;
    }
    match f.ltype {
      case TBytes(_) => return fv.v.VBytes? && |fv.v.b| == 0;
      case TString(_) => return fv.v.VBytes? && |fv.v.b| == 0;
      case TFixedBytes(n) => return n == 0;
      case TMessage(fields) =>
        if !fv.v.VMessage? || |fv.v.m| != |fields| {
          return false;
        }
        for i := 0 to |fields|
          invariant forall j :: 0 <= j < i ==> IsZero(fields[j], fv.v.m[j])
        {
          var fieldZero := CheckZero(fields[i], fv.v.m[i]);
          if !fieldZero {
            return false;
          }
        }
        return true;
      case _ => return fv.v.VInt? && fv.v.i == 0;
    }
  }

  /** The encoder of a single value, by type. */
  method EncodeValue(s: OStream, t: LType, v: Value, ghost path: seq<nat>) returns (ok: bool)
    requires s.Room() && ValidType(t) && TypedValue(t, v)
    modifies s
    ensures Outcome(s, old(s.bytesWritten), old(s.out), ValueFits(t, v), ValueBytes(t, v, path, QUIET), ok)
    decreases t, 0
  {
    match t {
      case TBytes(n) =>
        if |v.b| > n {
          return false;  // bytes size exceeded
        }
        ok := EncodeString(s, v.b);
      case TString(_) => ok := EncodeString(s, v.b);
      case TFixedBytes(_) => ok := EncodeString(s, v.b);
      case TMessage(fields) => ok := EncodeSubmessage(s, fields, v.m, path);
      case _ => ok := EncodeScalar(s, t, v);
    }
  }

  lemma SameLength(fields: seq<Field>, m: seq<FieldValue>)
    requires TypedMessage(fields, m)
    ensures |m| == |fields|
  {
  }

  /** Size the message with a stream that only counts, write the size, then write the message. */
  method EncodeSubmessage(s: OStream, fields: seq<Field>, m: seq<FieldValue>, ghost path: seq<nat>) returns (ok: bool)
    requires s.Room() && ValidFields(fields) && TypedMessage(fields, m)
    modifies s
    ensures Outcome(s, old(s.bytesWritten), old(s.out), MessageFits(fields, m),
                    LengthPrefixed(MessageBytes(fields, m, 0, path, QUIET)), ok)
    decreases fields, |fields| + 1
  {
    SameLength(fields, m);
    hide MessageBytes, MessageFits, Varint, TypedMessage, ValidFields;
    ghost var bs, fits := MessageBytes(fields, m, 0, path, QUIET), MessageFits(fields, m);
    // A stream that only counts gives the length to write first
    var substream := new OStream(true, 0, []);
    var status := Encode(substream, fields, m, path);
    if !status {
      return false;
    }
    var size := substream.bytesWritten;

    ok := EncodeVarint(s, size);
    if !ok {
      return;
    }
    ghost var w1, o1 := s.bytesWritten, s.out;
    if s.sizing {
      ok := Write(s, [], size, bs);
    } else if s.bytesWritten + size > s.maxSize {
      ok := false;  // stream full
    } else {
      // Use a substream with room for just the size found
      substream := new OStream(false, size, s.out);
      status := Encode(substream, fields, m, path);
      s.bytesWritten := s.bytesWritten + substream.bytesWritten;
      s.out := substream.out;
      if substream.bytesWritten != size {
        assert false;  // "submsg size changed"
      }
      ok := status;
    }
    Then(s, old(s.bytesWritten), old(s.out), w1, o1, true, Varint(size), true, bs, ok);
  }

  method EncodeOccurrence(s: OStream, f: Field, v: Value, ghost path: seq<nat>) returns (ok: bool)
    requires s.Room() && ValidType(f.ltype) && TypedValue(f.ltype, v)
    modifies s
    ensures Outcome(s, old(s.bytesWritten), old(s.out), ValueFits(f.ltype, v), OccurrenceBytes(f, v, path, QUIET), ok)
    decreases f, 0
  {
    hide ValueBytes, ValueFits, Outcome, TagBytes, TypedValue, ValidType;
    ghost var tag, bs, fits := TagBytes(WireType(f.ltype), f.tag), ValueBytes(f.ltype, v, path, QUIET), ValueFits(f.ltype, v);
    ok := EncodeTag(s, WireType(f.ltype), f.tag);
    if !ok {
      Fails(s, old(s.bytesWritten), old(s.out), true, tag, fits, bs);
      return;
    }
    Succeeded(s, old(s.bytesWritten), old(s.out), true, tag);
    ghost var w1, o1 := s.bytesWritten, s.out;
    ok := EncodeValue(s, f.ltype, v, path);
    Then(s, old(s.bytesWritten), old(s.out), w1, o1, true, tag, fits, bs, ok);
  }

  /** An array: packed under one tag when the type allows it, else every item under its own. */
  method EncodeArray(s: OStream, f: Field, items: seq<Value>, ghost tags: set<nat>, ghost path: seq<nat>) returns (ok: bool)
    requires s.Room() && IsArray(f.rule) && ValidType(f.ltype)
    requires forall k :: 0 <= k < |items| ==> TypedValue(f.ltype, items[k])
    modifies s
    ensures Outcome(s, old(s.bytesWritten), old(s.out), FieldFits(f, Many(items)),
                    FieldBytes(tags, f, Many(items), path, QUIET), ok)
    decreases f, 1
  {
    hide Outcome, ValueFits, TypedValue, ValidType;
    if |items| == 0 {
      Nothing(s);
      return true;
    }
    if |items| > f.rule.max {
      TooMany(s, f, items, FieldBytes(tags, f, Many(items), path, QUIET));
      return false;  // array max size exceeded
    }
    if Packable(f.ltype) {
      ok := EncodePacked(s, f, items);
      PackedFits(f, items);
    } else {
      ok := EncodeItems(s, f, items, tags, path);
    }
  }

  lemma Nothing(s: OStream)
    requires s.Room()
    ensures Outcome(s, s.bytesWritten, s.out, true, [], true)
  {
    assert s.out + [] == s.out;
  }

  lemma TooMany(s: OStream, f: Field, items: seq<Value>, bs: Bytes)
    requires s.Room() && IsArray(f.rule) && |items| > f.rule.max
    ensures Outcome(s, s.bytesWritten, s.out, FieldFits(f, Many(items)), bs, false)
  {
  }

  lemma PackedFits(f: Field, items: seq<Value>)
    requires IsArray(f.rule) && Packable(f.ltype) && |items| <= f.rule.max
    ensures FieldFits(f, Many(items))
  {
  }

  /** All items under one tag, after the size of them all. */
  method EncodePacked(s: OStream, f: Field, items: seq<Value>) returns (ok: bool)
    requires s.Room() && ValidType(f.ltype) && Packable(f.ltype)
    requires forall k :: 0 <= k < |items| ==> TypedValue(f.ltype, items[k])
    modifies s
    ensures Outcome(s, old(s.bytesWritten), old(s.out), true,
                    TagBytes(2, f.tag) + LengthPrefixed(PackedBytes(f.ltype, items)), ok)
  {
    hide Outcome, TagBytes, Varint, PackedBytes, TypedValue, ValidType;
    ghost var w0, o0, tag, bs := s.bytesWritten, s.out, TagBytes(2, f.tag), PackedBytes(f.ltype, items);
    ok := EncodeTag(s, 2, f.tag);
    if !ok {
      Fails(s, w0, o0, true, tag, true, LengthPrefixed(bs));
      return;
    }
    Succeeded(s, w0, o0, true, tag);
    ghost var w1, o1 := s.bytesWritten, s.out;
    var size;
    if f.ltype.TFixed32? {
      size := 4 * |items|;
      FixedItems(f.ltype, items, 4);
    } else if f.ltype.TFixed64? {
      size := 8 * |items|;
      FixedItems(f.ltype, items, 8);
    } else {
      var sizestream := new OStream(true, 0, []);
      var sized := EncodePackedItems(sizestream, f.ltype, items);
      if !sized {
        assert false by { Sizing(sizestream, 0, [], bs, false); }  // numbers can always be encoded
      }
      Sizing(sizestream, 0, [], bs, true);
      size := sizestream.bytesWritten;
    }
    ok := EncodeVarint(s, size);
    if !ok {
      Fails(s, w1, o1, true, Varint(size), true, bs);
      Then(s, w0, o0, w1, o1, true, tag, true, LengthPrefixed(bs), false);
      return;
    }
    Succeeded(s, w1, o1, true, Varint(size));
    ghost var w2, o2 := s.bytesWritten, s.out;
    if s.sizing {
      ok := Write(s, [], size, bs);
    } else {
      ok := EncodePackedItems(s, f.ltype, items);
    }
    Then(s, w1, o1, w2, o2, true, Varint(size), true, bs, ok);
    Then(s, w0, o0, w1, o1, true, tag, true, LengthPrefixed(bs), ok);
  }

  lemma Sizing(s: OStream, w0: nat, o0: Bytes, bs: Bytes, ok: bool)
    requires s.sizing && Outcome(s, w0, o0, true, bs, ok)
    ensures ok && s.bytesWritten == w0 + |bs|
  {
  }

  lemma {:induction false} FixedItems(t: LType, items: seq<Value>, width: nat)
    requires (t.TFixed32? && width == 4) || (t.TFixed64? && width == 8)
    requires forall k :: 0 <= k < |items| ==> TypedValue(t, items[k])
    ensures |PackedBytes(t, items)| == width * |items|
  {
    if items != [] {
      assert TypedValue(t, items[0]);
      FixedItems(t, items[1..], width);
    }
  }

  method EncodePackedItems(s: OStream, t: LType, items: seq<Value>) returns (ok: bool)
    requires s.Room() && ValidType(t) && Packable(t)
    requires forall k :: 0 <= k < |items| ==> TypedValue(t, items[k])
    modifies s
    ensures Outcome(s, old(s.bytesWritten), old(s.out), true, PackedBytes(t, items), ok)
  {
    hide Outcome, PackedBytes, TypedValue, ValidType, ScalarBytes;
    ghost var w0, o0, done := s.bytesWritten, s.out, [];
    ok := true;
    Nothing(s);
    assert items[0..] == items;
    for i := 0 to |items|
      invariant s.Room() && Outcome(s, w0, o0, true, done, true)
      invariant done + PackedBytes(t, items[i..]) == PackedBytes(t, items)
    {
      PackedStep(t, items, i);
      Succeeded(s, w0, o0, true, done);
      ghost var w1, o1, bs := s.bytesWritten, s.out, ScalarBytes(t, items[i].i);
      ok := EncodeScalar(s, t, items[i]);
      Then(s, w0, o0, w1, o1, true, done, true, bs, ok);
      assert done + PackedBytes(t, items[i..]) == (done + bs) + PackedBytes(t, items[i + 1..]);
      done := done + bs;
      if !ok {
        Fails(s, w0, o0, true, done, true, PackedBytes(t, items[i + 1..]));
        return;
      }
      Succeeded(s, w0, o0, true, done);
    }
    NoItems(t);
    assert items[|items|..] == [];
    assert done == PackedBytes(t, items);
    ok := true;
  }

  lemma PackedStep(t: LType, items: seq<Value>, i: nat)
    requires Packable(t) && i < |items| && TypedValue(t, items[i])
    ensures items[i].VInt? && PackedBytes(t, items[i..]) == ScalarBytes(t, items[i].i) + PackedBytes(t, items[i + 1..])
  {
    assert items[i..][1..] == items[i + 1..];
  }

  lemma NoItems(t: LType)
    requires Packable(t)
    ensures PackedBytes(t, []) == []
  {
  }

  method EncodeItems(s: OStream, f: Field, items: seq<Value>, ghost tags: set<nat>, ghost path: seq<nat>) returns (ok: bool)
    requires s.Room() && IsArray(f.rule) && ValidType(f.ltype) && |items| <= f.rule.max
    requires forall k :: 0 <= k < |items| ==> TypedValue(f.ltype, items[k])
    modifies s
    ensures Outcome(s, old(s.bytesWritten), old(s.out), FieldFits(f, Many(items)),
                    ItemsBytes(tags, f, items, 0, path, QUIET), ok)
    decreases f, 1, 0
  {
    hide Outcome, OccurrenceBytes, ItemsBytes, ValueFits, TypedValue, ValidType;
    ghost var w0, o0, done := s.bytesWritten, s.out, [];
    ghost var whole := ItemsBytes(tags, f, items, 0, path, QUIET);
    ok := true;
    Nothing(s);
    for i := 0 to |items|
      invariant s.Room() && Outcome(s, w0, o0, true, done, true)
      invariant done + ItemsBytes(tags, f, items, i, path, QUIET) == whole
      invariant forall k :: 0 <= k < i ==> ValueFits(f.ltype, items[k])
    {
      QuietItem(tags, f, items, i, path);
      Succeeded(s, w0, o0, true, done);
      ghost var w1, o1, bs := s.bytesWritten, s.out, OccurrenceBytes(f, items[i], path + [i], QUIET);
      ghost var rest := ItemsBytes(tags, f, items, i + 1, path, QUIET);
      ok := EncodeOccurrence(s, f, items[i], path + [i]);
      Then(s, w0, o0, w1, o1, true, done, ValueFits(f.ltype, items[i]), bs, ok);
      assert done + (bs + rest) == (done + bs) + rest;
      if !ok {
        Gone(s, w0, o0, ValueFits(f.ltype, items[i]), FieldFits(f, Many(items)), done + bs, rest);
        return;
      }
      done := done + bs;
      Fits(s, w0, o0, ValueFits(f.ltype, items[i]), done);
      Succeeded(s, w0, o0, true, done);
    }
    QuietItem(tags, f, items, |items|, path);
    assert done == whole;
    ok := true;
  }

  /** What does not fit, or has no room, fails the whole. */
  lemma Gone(s: OStream, w0: nat, o0: Bytes, fits: bool, allFit: bool, bs: Bytes, rest: Bytes)
    requires Outcome(s, w0, o0, fits, bs, false) && (allFit ==> fits)
    ensures Outcome(s, w0, o0, allFit, bs + rest, false)
  {
  }

  lemma Fits(s: OStream, w0: nat, o0: Bytes, fits: bool, bs: Bytes)
    requires Outcome(s, w0, o0, fits, bs, true)
    ensures fits && Outcome(s, w0, o0, true, bs, true)
  {
  }

  lemma QuietItem(tags: set<nat>, f: Field, items: seq<Value>, k: nat, path: seq<nat>)
    requires k <= |items|
    ensures ItemsBytes(tags, f, items, k, path, QUIET) ==
        if k == |items| then []
        else OccurrenceBytes(f, items[k], path + [k], QUIET) + ItemsBytes(tags, f, items, k + 1, path, QUIET)
  {
  }

  method EncodeField(s: OStream, f: Field, fv: FieldValue, ghost tags: set<nat>, ghost path: seq<nat>) returns (ok: bool)
    requires s.Room() && ValidField(f) && TypedField(f, fv)
    modifies s
    ensures Outcome(s, old(s.bytesWritten), old(s.out), FieldFits(f, fv), FieldBytes(tags, f, fv, path, QUIET), ok)
    decreases f, 2
  {
    ok := true;
    match f.rule {
      case Required => ok := EncodeOccurrence(s, f, fv.v, path);
      case Singular =>
        // Whether it is there shows in its value only
        var zero := CheckZero(f, fv);
        if !zero {
          ok := EncodeOccurrence(s, f, fv.v, path);
        }
      case Optional =>
        if fv.has {
          ok := EncodeOccurrence(s, f, fv.v, path);
        }
      case Oneof(_) =>
        if fv.has {
          ok := EncodeOccurrence(s, f, fv.v, path);
        }
      case _ => ok := EncodeArray(s, f, fv.items, tags, path);
    }
  }

  /** Encode all fields of a message in the order of their descriptors. */
  method Encode(s: OStream, fields: seq<Field>, m: seq<FieldValue>, ghost path: seq<nat>) returns (ok: bool)
    requires s.Room() && ValidFields(fields) && TypedMessage(fields, m)
    modifies s
    ensures Outcome(s, old(s.bytesWritten), old(s.out), MessageFits(fields, m), MessageBytes(fields, m, 0, path, QUIET), ok)
    decreases fields, |fields|
  {
    hide Outcome, FieldBytes, MessageBytes, FieldFits, TypedField, ValidField;
    ghost var w0, o0, done := s.bytesWritten, s.out, [];
    ghost var whole := MessageBytes(fields, m, 0, path, QUIET);
    ok := true;
    Nothing(s);
    for i := 0 to |fields|
      invariant s.Room() && Outcome(s, w0, o0, true, done, true)
      invariant done + MessageBytes(fields, m, i, path, QUIET) == whole
      invariant forall j :: 0 <= j < i ==> FieldFits(fields[j], m[j])
    {
      QuietField(fields, m, i, path);
      Succeeded(s, w0, o0, true, done);
      ghost var w1, o1, bs := s.bytesWritten, s.out, FieldBytes(Tags(fields), fields[i], m[i], path + [i], QUIET);
      ghost var rest := MessageBytes(fields, m, i + 1, path, QUIET);
      ok := EncodeField(s, fields[i], m[i], Tags(fields), path + [i]);
      Then(s, w0, o0, w1, o1, true, done, FieldFits(fields[i], m[i]), bs, ok);
      assert done + (bs + rest) == (done + bs) + rest;
      if !ok {
        Gone(s, w0, o0, FieldFits(fields[i], m[i]), MessageFits(fields, m), done + bs, rest);
        return;
      }
      done := done + bs;
      Fits(s, w0, o0, FieldFits(fields[i], m[i]), done);
      Succeeded(s, w0, o0, true, done);
    }
    QuietField(fields, m, |fields|, path);
    assert done == whole;
    ok := true;
  }

  lemma QuietField(fields: seq<Field>, m: seq<FieldValue>, i: nat, path: seq<nat>)
    requires i <= |fields| == |m|
    ensures MessageBytes(fields, m, i, path, QUIET) ==
        if i == |fields| then []
        else FieldBytes(Tags(fields), fields[i], m[i], path + [i], QUIET) + MessageBytes(fields, m, i + 1, path, QUIET)
  {
  }

  /** How many bytes a message takes, found without writing it. */
  method GetEncodedSize(fields: seq<Field>, m: seq<FieldValue>) returns (size: Option<nat>)
    requires ValidFields(fields) && TypedMessage(fields, m)
    ensures size == if MessageFits(fields, m) then Some(|Encoding(fields, m)|) else None
  {
    var stream := new OStream(true, 0, []);
    var ok := Encode(stream, fields, m, []);
    size := if ok then Some(stream.bytesWritten) else None;
  }

  /** Sizing agrees with writing: when sizing gives n, a buffer with room for n gets exactly n bytes, and
      one with less room gets an error. */
  method SizeThenWrite(fields: seq<Field>, m: seq<FieldValue>, room: nat) returns (size: Option<nat>, out: Option<Bytes>)
    requires ValidFields(fields) && TypedMessage(fields, m)
    ensures size == if MessageFits(fields, m) then Some(|Encoding(fields, m)|) else None
    ensures out.Some? <==> size.Some? && size.value <= room
    ensures out.Some? ==> |out.value| == size.value && out.value == Encoding(fields, m)
  {
    size := GetEncodedSize(fields, m);
    var stream := new OStream(false, room, []);
    var ok := Encode(stream, fields, m, []);
    out := if ok then Some(stream.out) else None;
  }
}
