/** The decoder's code: streams, field iterator and field decoders, against the functions that say what
    they compute. */
module ProtobufDecoder {
  import opened InternalKeys
  import opened Coding
  import opened Protobuf
  import opened ProtobufDecoding

  /** An input stream: the bytes it has left. */
  class IStream {
    var input: Bytes

    constructor (bytes: Bytes)
      ensures input == bytes
    {
      input := bytes;
    }
  }

  /** A read gave what the specification says, and left the rest. */
  ghost predicate Gives<T>(s: IStream, spec: Option<(T, Bytes)>, r: Option<T>)
    reads s
  {
    match spec
    case None => r == None
    case Some((v, rest)) => r == Some(v) && s.input == rest
  }

  method ReadByte(s: IStream) returns (r: Option<Byte>)
    modifies s
    ensures if old(s.input) == [] then r == None else r == Some(old(s.input)[0]) && s.input == old(s.input)[1..]
  {
    if |s.input| == 0 {
      return None;  // end-of-stream
    }
    r := Some(s.input[0]);
    s.input := s.input[1..];
  }

  method Read(s: IStream, count: nat) returns (r: Option<Bytes>)
    modifies s
    ensures Gives(s, Take(old(s.input), count), r)
  {
    if |s.input| < count {
      return None;  // end-of-stream
    }
    r := Some(s.input[..count]);
    s.input := s.input[count..];
  }

  ghost function Shift<T>(r: Option<(T, nat)>, k: nat): Option<(T, nat)> {
    match r case None => None case Some((v, n)) => Some((v, n + k))
  }

  ghost function Rest(bs: Bytes, r: Option<(nat, nat)>): Option<(nat, Bytes)>
    requires r.Some? ==> r.value.1 <= |bs|
  {
    match r case None => None case Some((v, n)) => Some((v, bs[n..]))
  }

  method DecodeVarint32(s: IStream) returns (r: Option<nat>, eof: bool)
    modifies s
    ensures Gives(s, Rest(old(s.input), ReadVarint32(old(s.input))), r)
    ensures eof <==> old(s.input) == []
  {
    hide Varint32Tail, Pow128;
    ghost var bs := s.input;
    eof := false;
    var first := ReadByte(s);
    if first.None? {
      return None, true;
    }
    var byte: int := first.value;
    if byte < 128 {
      return Some(byte), false;
    }
    var result: nat, bitpos, scale := byte - 128, 7, 128;
    ghost var i: nat := 1;
    OnePower();
    while byte >= 128
      invariant 1 <= i <= |bs| && bitpos == 7 * i && scale == Pow128(i) && s.input == bs[i..]
      invariant byte >= 128 ==> ReadVarint32(bs) == Shift(Varint32Tail(s.input, i, result), i)
      invariant byte < 128 ==> ReadVarint32(bs) == if bitpos == 35 && byte / 16 % 8 != 0 then None else Some((result, i))
      decreases byte >= 128, |bs| - i
    {
      TailStep(s.input, i, result);
      var next := ReadByte(s);
      if next.None? {
        return None, false;
      }
      byte := next.value;
      if bitpos >= 32 {
        // Bytes past the word must extend it: zeros, or the sign of a negative number
        var sign := if bitpos < 63 then 0xFF else 0x01;
        if byte % 128 != 0 && (result / 0x8000_0000 == 0 || byte != sign) {
          return None, false;  // varint overflow
        }
      } else {
        result := (result + byte % 128 * scale) % U32;
      }
      bitpos, scale := bitpos + 7, 128 * scale;
      i := i + 1;
    }
    if bitpos == 35 && byte / 16 % 8 != 0 {
      // Only four of its bits are left
      return None, false;
    }
    r := Some(result);
  }

  lemma OnePower()
    ensures Pow128(1) == 128
  {
  }

  lemma TailStep(bs: Bytes, i: nat, result: nat)
    ensures Pow128(i + 1) == 128 * Pow128(i)
    ensures Varint32Tail(bs, i, result) ==
        if bs == [] then None
        else
          var byte: int := bs[0];
          var sign := if i < 9 then 0xFF else 0x01;
          if i >= 5 && byte % 128 != 0 && (result < 0x8000_0000 || byte != sign) then None
          else
            var next := if i >= 5 then result else (result + byte % 128 * Pow128(i)) % U32;
            if byte >= 128 then Shift(Varint32Tail(bs[1..], i + 1, next), 1)
            else if i == 4 && byte / 16 != 0 then None
            else Some((next, 1))
  {
  }

  method DecodeVarint(s: IStream) returns (r: Option<nat>)
    modifies s
    ensures Gives(s, Rest(old(s.input), ReadWord(old(s.input), 10, U64)), r)
  {
    hide ReadVarint;
    ghost var bs := s.input;
    ghost var i: nat := 0;
    var bitpos, result: nat, scale: nat := 0, 0, 1;
    assert bs[0..] == bs;
    var more := true;
    while more
      invariant more ==> i <= 10 && i <= |bs| && bitpos == 7 * i && s.input == bs[i..] && PartlyRead(bs, 10, U64, i, result, scale)
      invariant !more ==> i <= |bs| && s.input == bs[i..] && ReadWord(bs, 10, U64) == Some((result, i))
      decreases more, 11 - i
    {
      if bitpos >= 64 {
        NothingLeft(bs[i..], 10 - i);
        return None;  // varint overflow
      }
      var next := ReadByte(s);
      if next.None? {
        NothingLeft(bs[i..], 10 - i);
        return None;
      }
      var byte: int := next.value;
      assert byte == bs[i];
      ReadOneMore(bs, 10, U64, i, result, scale);
      result := (result + byte % 128 * scale) % U64;
      bitpos, scale := bitpos + 7, 128 * scale;
      i := i + 1;
      more := byte >= 128;
    }
    r := Some(result);
  }

  method DecodeSvarint(s: IStream) returns (r: Option<int>)
    modifies s
    ensures match ReadWord(old(s.input), 10, U64)
            case None => r == None
            case Some((v, k)) => r == Some(UnZigZag(v)) && s.input == old(s.input)[k..]
  {
    var value := DecodeVarint(s);
    if value.None? {
      return None;
    }
    // 64-bit arithmetic: the complement of the halved value when the lowest bit is set
    if value.value % 2 == 1 {
      r := Some(ToSigned(U64 - 1 - value.value / 2, U64));
    } else {
      r := Some(ToSigned(value.value / 2, U64));
    }
  }

  /** Integers, with the check that they fit their field. */
  method DecodeInt(s: IStream, t: LType) returns (r: Option<int>)
    requires IsInteger(t)
    modifies s
    ensures Gives(s, ReadInteger(t, old(s.input)), r)
  {
    var i: int;
    if t.TSVarint? {
      var value := DecodeSvarint(s);
      if value.None? {
        return None;
      }
      i := value.value;
    } else {
      var value := DecodeVarint(s);
      if value.None? {
        return None;
      }
      i := value.value;
      if t.TUVarint? {
        if i >= Range(t.size) {
          return None;  // integer too large
        }
        return Some(i);
      }
      // The sign of a short field is in its lower 32 bits
      i := if t.size == 8 then ToSigned(i, U64) else ToSigned(i % U32, U32);
    }
    if !InSigned(i, t.size) {
      return None;  // integer too large
    }
    r := Some(i);
  }

  method DecodeFixed32Field(s: IStream) returns (r: Option<nat>)
    modifies s
    ensures match Take(old(s.input), 4)
            case None => r == None
            case Some((b, rest)) => r == Some(DecodeFixed32(b)) && s.input == rest
  {
    var bytes := Read(s, 4);
    if bytes.None? {
      return None;
    }
    var b0: int, b1: int, b2: int, b3: int := bytes.value[0], bytes.value[1], bytes.value[2], bytes.value[3];
    r := Some(b0 + 0x100 * b1 + 0x1_0000 * b2 + 0x100_0000 * b3);
  }

  method DecodeFixed64Field(s: IStream) returns (r: Option<nat>)
    modifies s
    ensures match Take(old(s.input), 8)
            case None => r == None
            case Some((b, rest)) => r == Some(DecodeFixed32(b) + U32 * DecodeFixed32(b[4..])) && s.input == rest
  {
    var bytes := Read(s, 8);
    if bytes.None? {
      return None;
    }
    var b := bytes.value;
    var b0: int, b1: int, b2: int, b3: int := b[0], b[1], b[2], b[3];
    var b4: int, b5: int, b6: int, b7: int := b[4], b[5], b[6], b[7];
    r := Some(b0 + 0x100 * b1 + 0x1_0000 * b2 + 0x100_0000 * b3
              + 0x1_0000_0000 * b4 + 0x100_0000_0000 * b5 + 0x1_0000_0000_0000 * b6 + 0x100_0000_0000_0000 * b7);
  }

  method DecodeScalar(s: IStream, t: LType) returns (r: Option<int>)
    requires Packable(t)
    modifies s
    ensures Gives(s, ReadScalar(t, old(s.input)), r)
  {
    if IsInteger(t) {
      r := DecodeInt(s, t);
    } else if t.TBool? {
      var value, eof := DecodeVarint32(s);
      r := if value.None? then None else Some(if value.value != 0 then 1 else 0);
    } else if t.TFixed32? {
      r := DecodeFixed32Field(s);
    } else {
      r := DecodeFixed64Field(s);
    }
  }

  method DecodeSkipVarint(s: IStream) returns (ok: bool)
    modifies s
    ensures match SkipVarint(old(s.input)) case None => !ok case Some(rest) => ok && s.input == rest
  {
    ghost var bs := s.input;
    var byte: int := 128;
    while byte >= 128
      invariant byte >= 128 ==> SkipVarint(s.input) == SkipVarint(bs)
      invariant byte < 128 ==> SkipVarint(bs) == Some(s.input)
      decreases byte >= 128, |s.input|
    {
      var next := ReadByte(s);
      if next.None? {
        return false;
      }
      byte := next.value;
    }
    ok := true;
  }

  method DecodeSkipField(s: IStream, wireType: nat) returns (ok: bool)
    modifies s
    ensures match SkipField(wireType, old(s.input)) case None => !ok case Some(rest) => ok && s.input == rest
  {
    var skipped := None;
    match wireType {
      case 0 =>
        ok := DecodeSkipVarint(s);
        return;
      case 1 => skipped := Read(s, 8);
      case 2 =>
        var length, eof := DecodeVarint32(s);
        if length.None? {
          return false;
        }
        skipped := Read(s, length.value);
      case 5 => skipped := Read(s, 4);
      case _ => return false;  // invalid wire_type
    }
    ok := skipped.Some?;
  }

  /** Read a length, and hand out a stream of as many bytes; the parent goes on after them. */
  method MakeSubstream(s: IStream) returns (sub: Option<IStream>)
    modifies s
    ensures match ReadString(old(s.input))
            case None => sub == None
            case Some((b, rest)) => sub.Some? && fresh(sub.value) && sub.value.input == b && s.input == rest
  {
    var size, eof := DecodeVarint32(s);
    if size.None? || |s.input| < size.value {
      return None;  // parent stream too short
    }
    var substream := new IStream(s.input[..size.value]);
    s.input := s.input[size.value..];
    sub := Some(substream);
  }

  /** The decoder of a single value, by type, into what is there. */
  method DecodeValue(s: IStream, t: LType, start: Value) returns (r: Option<Value>)
    requires ValidType(t)
    modifies s
    ensures Gives(s, ReadValue(t, start, old(s.input)), r)
    decreases t, 0
  {
    match t {
      case TBytes(n) =>
        var size, eof := DecodeVarint32(s);
        if size.None? || size.value > n {
          return None;  // bytes overflow
        }
        var b := Read(s, size.value);
        r := if b.None? then None else Some(VBytes(b.value));
      case TString(n) =>
        var size, eof := DecodeVarint32(s);
        // A string of n bytes has room for n - 1
        if size.None? || size.value + 1 > n {
          return None;  // string overflow
        }
        var b := Read(s, size.value);
        r := if b.None? then None else Some(VBytes(UpToZero(b.value)));
      case TFixedBytes(n) =>
        var size, eof := DecodeVarint32(s);
        if size.None? {
          return None;
        }
        if size.value == 0 {
          // No bytes at all stand for zeros
          return Some(VBytes(Zeros(n)));
        }
        if size.value != n {
          return None;  // incorrect fixed length bytes size
        }
        var b := Read(s, n);
        r := if b.None? then None else Some(VBytes(b.value));
      case TMessage(fields) =>
        var sub := MakeSubstream(s);
        if sub.None? || !start.VMessage? || |start.m| != |fields| {
          return None;
        }
        var m := DecodeNoinit(sub.value, fields, start.m);
        r := if m.None? then None else Some(VMessage(m.value));
      case _ =>
        var i := DecodeScalar(s, t);
        r := if i.None? then None else Some(VInt(i.value));
    }
  }

  /** Items one after the other in a substream, which they must use up. */
  method DecodePacked(s: IStream, t: LType, before: seq<Value>, max: nat) returns (r: Option<seq<Value>>)
    requires Packable(t)
    modifies s
    ensures match ReadString(old(s.input))
            case None => r == None
            case Some((b, rest)) =>
              match ReadPacked(t, before, max, b)
              case None => r == None
              case Some((items, left)) => if left == [] then r == Some(items) && s.input == rest else r == None
  {
    hide ReadScalar;
    var made := MakeSubstream(s);
    if made.None? {
      return None;
    }
    var substream := made.value;
    ghost var b, rest := substream.input, s.input;
    var items := before;
    while |substream.input| > 0 && |items| < max
      invariant fresh(substream) && s.input == rest
      invariant ReadPacked(t, items, max, substream.input) == ReadPacked(t, before, max, b)
      decreases |substream.input|
    {
      var item := DecodeScalar(substream, t);
      if item.None? {
        return None;
      }
      items := items + [VInt(item.value)];
    }
    if |substream.input| != 0 {
      return None;  // array overflow
    }
    r := Some(items);
  }

  /** Walks the descriptors of a message in a circle. */
  class FieldIter {
    const fields: seq<Field>
    var pos: nat
    var requiredIndex: nat

    ghost predicate Inv()
      reads this
    {
      if fields == [] then pos == requiredIndex == 0 else pos < |fields| && requiredIndex == Ordinal(fields, pos)
    }

    constructor (fs: seq<Field>)
      ensures Inv() && fields == fs && pos == 0
    {
      fields, pos, requiredIndex := fs, 0, 0;
    }

    /** Step to the next field, or back to the first; more is false when that happens. */
    method Next() returns (more: bool)
      requires Inv()
      modifies this
      ensures Inv() && more == (old(pos) + 1 < |fields|) && pos == if more then old(pos) + 1 else 0
    {
      if |fields| == 0 {
        return false;
      }
      if pos + 1 == |fields| {
        // All over again
        pos, requiredIndex := 0, 0;
        return false;
      }
      if fields[pos].rule.Required? {
        requiredIndex := requiredIndex + 1;
      }
      pos := pos + 1;
      more := true;
    }

    /** Go on from the current field to the one with the tag, all the way around if need be. */
    method Find(tag: nat) returns (found: bool)
      requires Inv() && ValidFields(fields)
      modifies this
      ensures Inv() && FindTag(fields, tag) == if found then Some(pos) else None
      ensures !found ==> pos == old(pos)
    {
      var start := pos;
      ghost var wrapped := false;
      var again := true;
      while again
        invariant Inv()
        invariant !wrapped ==> again && start <= pos && forall j :: start <= j < pos ==> fields[j].tag != tag
        invariant wrapped ==> pos <= start && forall j :: 0 <= j < |fields| && (start <= j || j < pos) ==> fields[j].tag != tag
        invariant wrapped && again ==> pos < start
        invariant again || pos == start
        decreases again, !wrapped, |fields| - pos
      {
        if |fields| > 0 && fields[pos].tag == tag {
          TagIsAt(fields, tag, pos);
          return true;
        }
        var more := Next();
        wrapped := wrapped || !more;
        again := pos != start;
      }
      found := false;
    }
  }

  lemma TagIsAt(fields: seq<Field>, tag: nat, i: nat)
    requires ValidFields(fields) && i < |fields| && fields[i].tag == tag
    ensures FindTag(fields, tag) == Some(i)
  {
    assert FindTag(fields, tag).Some?;
  }

  /** Decode one field of a message that has been started on. */
  method DecodeStaticField(s: IStream, fields: seq<Field>, st: State, i: nat, wireType: nat) returns (r: Option<State>)
    requires |st.m| == |fields| && i < |fields| && ValidType(fields[i].ltype)
    modifies s
    ensures Gives(s, ReadPrepared(fields, st, i, wireType, old(s.input)), r)
    decreases fields[i], 0
  {
    hide ValidType, ReadValue, ReadPacked, ReadString;
    var f := fields[i];
    if IsArray(f.rule) {
      if wireType == 2 && Packable(f.ltype) {
        var items := DecodePacked(s, f.ltype, Items(st.m[i]), f.rule.max);
        return if items.None? then None else Some(st.(m := st.m[i := Many(items.value)]));
      }
      if |Items(st.m[i])| >= f.rule.max {
        return None;  // array overflow
      }
    }
    var v := DecodeValue(s, f.ltype, StartValue(f, st.m[i]));
    r := if v.None? then None else Some(st.(m := Store(fields, st.m, i, v.value)));
  }

  /** The seen bits are those of the required fields seen. */
  ghost predicate BitsAre(fields: seq<Field>, bits: seq<bool>, seen: set<nat>) {
    && |bits| == MAX_REQUIRED
    && forall i :: 0 <= i < |fields| && fields[i].rule.Required? && Ordinal(fields, i) < MAX_REQUIRED ==>
         (bits[Ordinal(fields, i)] <==> i in seen)
  }

  lemma {:induction false} OrdinalGrows(fields: seq<Field>, i: nat, j: nat)
    requires i < j <= |fields| && fields[i].rule.Required?
    ensures Ordinal(fields, i) < Ordinal(fields, j)
    decreases j
  {
    if i < j - 1 {
      OrdinalGrows(fields, i, j - 1);
    }
  }

  lemma MarkBit(fields: seq<Field>, bits: seq<bool>, seen: set<nat>, i: nat)
    requires BitsAre(fields, bits, seen) && i < |fields| && fields[i].rule.Required?
    ensures BitsAre(fields, if Ordinal(fields, i) < MAX_REQUIRED then bits[Ordinal(fields, i) := true] else bits, seen + {i})
  {
    forall j | 0 <= j < |fields| && fields[j].rule.Required? && j != i ensures Ordinal(fields, i) != Ordinal(fields, j) {
      if j < i {
        OrdinalGrows(fields, j, i);
      } else {
        OrdinalGrows(fields, i, j);
      }
    }
  }

  /** Decode all fields of a message into a struct that holds its defaults. */
  method DecodeNoinit(s: IStream, fields: seq<Field>, m0: seq<FieldValue>) returns (r: Option<seq<FieldValue>>)
    requires ValidFields(fields) && |m0| == |fields|
    modifies s
    ensures r == ReadMessage(fields, m0, old(s.input))
    decreases fields, 1
  {
    hide ReadPrepared, BitsAre, ReadFields, FindTag, SkipField, ReadVarint32, Ordinal, ValidType;
    ghost var bs := s.input;
    var fieldsSeen := seq(MAX_REQUIRED, i => false);
    NoBits(fields, fieldsSeen);
    var iter := new FieldIter(fields);
    var st := State(m0, {}, None);
    var stop := false;
    while !stop && |s.input| > 0
      invariant iter.Inv() && iter.fields == fields && fresh(iter) && |st.m| == |fields|
      invariant st.fixed.Some? ==> st.fixed.value < |fields| && fields[st.fixed.value].rule.FixedCount?
      invariant |fieldsSeen| == MAX_REQUIRED && BitsAre(fields, fieldsSeen, st.seen)
      invariant ReadFields(fields, State(m0, {}, None), bs) == if stop then Some(st) else ReadFields(fields, st, s.input)
      decreases !stop, |s.input|
    {
      FieldsStep(fields, st, s.input);
      var word, eof := DecodeVarint32(s);
      if word.None? {
        return None;
      }
      if word.value == 0 {
        stop := true;  // a zero tag ends the message
      } else {
        var tag, wireType := word.value / 8, word.value % 8;
        var found := iter.Find(tag);
        if !found {
          var skipped := DecodeSkipField(s, wireType);
          if !skipped {
            return None;
          }
        } else {
          var i := iter.pos;
          var f := fields[i];
          if f.rule.FixedCount? && st.fixed != Some(i) {
            // The previous fixed count field must have received all the expected data
            if st.fixed.Some? && |Items(st.m[st.fixed.value])| != fields[st.fixed.value].rule.max {
              return None;  // wrong size for fixed count field
            }
            st := st.(fixed := Some(i), m := st.m[i := Many([])]);
          }
          if f.rule.Required? {
            MarkBit(fields, fieldsSeen, st.seen, i);
            if iter.requiredIndex < MAX_REQUIRED {
              fieldsSeen := fieldsSeen[iter.requiredIndex := true];
            }
            st := st.(seen := st.seen + {i});
          }
          var next := DecodeStaticField(s, fields, st, i, wireType);
          if next.None? {
            return None;
          }
          st := next.value;
        }
      }
    }
    if !stop {
      FieldsEnd(fields, st);
    }

    // A fixed-count array that was begun must be full
    if st.fixed.Some? && |Items(st.m[st.fixed.value])| != fields[st.fixed.value].rule.max {
      return None;  // wrong size for fixed count field
    }

    var all := AllRequired(iter, fieldsSeen, st.seen);
    r := if all then Some(st.m) else None;
  }

  lemma NoBits(fields: seq<Field>, bits: seq<bool>)
    requires |bits| == MAX_REQUIRED && forall i :: 0 <= i < |bits| ==> !bits[i]
    ensures BitsAre(fields, bits, {})
  {
  }

  lemma FieldsEnd(fields: seq<Field>, st: State)
    requires |st.m| == |fields|
    ensures ReadFields(fields, st, []) == Some(st)
  {
  }

  lemma FieldsStep(fields: seq<Field>, st: State, bs: Bytes)
    requires |st.m| == |fields| && bs != []
    ensures var word := ReadVarint32(bs);
        && (word.None? ==> ReadFields(fields, st, bs) == None)
        && (word.Some? && word.value.0 == 0 ==> ReadFields(fields, st, bs) == Some(st))
        && (word.Some? && word.value.0 != 0 ==>
              var next := ReadOne(fields, st, word.value.0, bs[word.value.1..]);
              ReadFields(fields, st, bs) == if next.None? then None else ReadFields(fields, next.value.0, next.value.1))
  {
  }

  /** Whether each required field was seen, as far as there are bits for them. */
  method AllRequired(iter: FieldIter, bits: seq<bool>, ghost seen: set<nat>) returns (all: bool)
    requires iter.Inv() && BitsAre(iter.fields, bits, seen)
    modifies iter
    ensures all <==> RequiredSeen(iter.fields, seen)
  {
    var fields := iter.fields;
    // Walk to the last field, counting the required ones passed
    var count, lastRequired, more := 0, false, true;
    while more
      invariant iter.Inv() && iter.fields == fields
      invariant !more ==> count + (if lastRequired then 1 else 0) == Ordinal(fields, |fields|)
      decreases more, |fields| - iter.pos
    {
      count := iter.requiredIndex;
      lastRequired := |fields| > 0 && fields[iter.pos].rule.Required?;
      more := iter.Next();
    }
    // The last field itself was not passed
    if lastRequired {
      count := count + 1;
    }
    if count > MAX_REQUIRED {
      count := MAX_REQUIRED;
    }
    // Check the bits
    for o := 0 to count
      invariant forall p :: 0 <= p < o ==> bits[p]
    {
      if !bits[o] {
        ghost var i := WithOrdinal(fields, o, |fields|);
        return false;
      }
    }
    forall i | 0 <= i < |fields| && fields[i].rule.Required? && Ordinal(fields, i) < MAX_REQUIRED ensures i in seen {
      OrdinalGrows(fields, i, |fields|);
      assert bits[Ordinal(fields, i)];
    }
    all := true;
  }

  /** The required field of an ordinal. */
  ghost function WithOrdinal(fields: seq<Field>, o: nat, n: nat): (i: nat)
    requires n <= |fields| && o < Ordinal(fields, n)
    ensures i < n && fields[i].rule.Required? && Ordinal(fields, i) == o
    decreases n
  {
    if o < Ordinal(fields, n - 1) then WithOrdinal(fields, o, n - 1) else n - 1
  }
}
