/** The decoder: what it makes of any bytes, as functions, and the code that computes them. */
module ProtobufDecoding {
  import opened InternalKeys
  import opened Coding
  import opened Protobuf

  const MAX_REQUIRED := 64

  // ----- Numbers -----

  /** The rest of a 32-bit varint after i bytes: more bytes may follow if they only extend the sign. */
  function Varint32Tail(bs: Bytes, i: nat, result: nat): (r: Option<(nat, nat)>)
    ensures r.Some? ==> 0 < r.value.1 <= |bs|
  {
    if bs == [] then None
    else
      var byte: int := bs[0];
      var sign := if i < 9 then 0xFF else 0x01;
      if i >= 5 && byte % 128 != 0 && (result < 0x8000_0000 || byte != sign) then None
      else
        var next := if i >= 5 then result else (result + byte % 128 * Pow128(i)) % U32;
        if byte >= 128 then
          match Varint32Tail(bs[1..], i + 1, next)
          case None => None
          case Some((v, k)) => Some((v, k + 1))
        else if i == 4 && byte / 16 != 0 then None
        else Some((next, 1))
  }

  function ReadVarint32(bs: Bytes): (r: Option<(nat, nat)>)
    ensures r.Some? ==> 0 < r.value.1 <= |bs|
  {
    if bs == [] then None
    else if bs[0] < 128 then Some((bs[0], 1))
    else
      match Varint32Tail(bs[1..], 1, bs[0] - 128)
      case None => None
      case Some((v, k)) => Some((v, k + 1))
  }

  function ToSigned(v: nat, width: nat): int {
    if v < width / 2 then v else v - width
  }

  predicate InSigned(i: int, size: nat) {
    -(Range(size) / 2) <= i < Range(size) / 2
  }

  function UnZigZag(v: nat): int {
    if v % 2 == 1 then -(v / 2) - 1 else v / 2
  }

  /** Some bytes off the front. */
  function Take(bs: Bytes, n: nat): (r: Option<(Bytes, Bytes)>)
    ensures r.Some? ==> |r.value.0| == n && |r.value.1| == |bs| - n
  {
    if |bs| < n then None else Some((bs[..n], bs[n..]))
  }

  predicate IsInteger(t: LType) {
    t.TVarint? || t.TUVarint? || t.TSVarint?
  }

  /** The number a 64-bit varint stands for, unless it is too large for its field.  Fields of up to 32 bits
      take negative numbers that were extended to 32 bits only. */
  function DecodeInteger(t: LType, v: nat): Option<int>
    requires IsInteger(t)
  {
    var i :=
      if t.TUVarint? then v
      else if t.TSVarint? then UnZigZag(v)
      else if t.size == 8 then ToSigned(v, U64)
      else ToSigned(v % U32, U32);
    if (if t.TUVarint? then i < Range(t.size) else InSigned(i, t.size)) then Some(i) else None
  }

  function ReadInteger(t: LType, bs: Bytes): (r: Option<(int, Bytes)>)
    requires IsInteger(t)
    ensures r.Some? ==> |r.value.1| < |bs|
  {
    match ReadWord(bs, 10, U64)
    case None => None
    case Some((v, k)) =>
      match DecodeInteger(t, v)
      case None => None
      case Some(i) => Some((i, bs[k..]))
  }

  function ReadScalar(t: LType, bs: Bytes): (r: Option<(int, Bytes)>)
    requires Packable(t)
    ensures r.Some? ==> |r.value.1| < |bs|
  {
    if IsInteger(t) then ReadInteger(t, bs)
    else if t.TBool? then
      match ReadVarint32(bs)
      case None => None
      case Some((v, k)) => Some((if v != 0 then 1 else 0, bs[k..]))
    else if t.TFixed32? then
      match Take(bs, 4)
      case None => None
      case Some((b, rest)) => Some((DecodeFixed32(b), rest))
    else
      match Take(bs, 8)
      case None => None
      case Some((b, rest)) => Some((DecodeFixed32(b) + U32 * DecodeFixed32(b[4..]), rest))
  }

  /** A length and as many bytes. */
  function ReadString(bs: Bytes): (r: Option<(Bytes, Bytes)>)
    ensures r.Some? ==> |r.value.0| < |bs| && |r.value.1| < |bs|
  {
    match ReadVarint32(bs)
    case None => None
    case Some((n, k)) => Take(bs[k..], n)
  }

  // ----- Defaults -----

  function Zeros(n: nat): (zs: Bytes)
    ensures |zs| == n && forall i :: 0 <= i < n ==> zs[i] == 0
  {
    seq(n, i => 0)
  }

  function ZeroValue(t: LType): Value
    decreases t
  {
    match t
    case TBytes(_) => VBytes([])
    case TString(_) => VBytes([])
    case TFixedBytes(n) => VBytes(Zeros(n))
    case TMessage(fields) => VMessage(DefaultMessage(fields))
    case _ => VInt(0)
  }

  function DefaultValue(f: Field): Value
    decreases f, 0
  {
    if !f.ltype.TMessage? && f.initial.Some? then f.initial.value else ZeroValue(f.ltype)
  }

  function DefaultField(f: Field): FieldValue
    decreases f, 1
  {
    if IsArray(f.rule) then Many([])
    else if HasFlag(f.rule) then Maybe(false, DefaultValue(f))
    else One(DefaultValue(f))
  }

  function DefaultMessage(fields: seq<Field>): (m: seq<FieldValue>)
    ensures |m| == |fields|
    ensures forall i :: 0 <= i < |fields| ==> m[i] == DefaultField(fields[i])
    decreases fields
  {
    seq(|fields|, i requires 0 <= i < |fields| => DefaultField(fields[i]))
  }

  // ----- Fields -----

  function SkipVarint(bs: Bytes): (r: Option<Bytes>)
    ensures r.Some? ==> |r.value| < |bs|
  {
    if bs == [] then None else if bs[0] < 128 then Some(bs[1..]) else SkipVarint(bs[1..])
  }

  /** Skip a field of unknown tag. */
  function SkipField(wireType: nat, bs: Bytes): (r: Option<Bytes>)
    ensures r.Some? ==> |r.value| <= |bs|
  {
    if wireType == 0 then SkipVarint(bs)
    else if wireType == 1 then (match Take(bs, 8) case None => None case Some((_, rest)) => Some(rest))
    else if wireType == 2 then (match ReadString(bs) case None => None case Some((_, rest)) => Some(rest))
    else if wireType == 5 then (match Take(bs, 4) case None => None case Some((_, rest)) => Some(rest))
    else None
  }

  /** The place of a tag among the descriptors. */
  function FindTag(fields: seq<Field>, tag: nat): (r: Option<nat>)
    ensures r.Some? ==> r.value < |fields| && fields[r.value].tag == tag
    ensures r.None? ==> forall i :: 0 <= i < |fields| ==> fields[i].tag != tag
  {
    if fields == [] then None
    else if fields[|fields| - 1].tag == tag then Some(|fields| - 1)
    else FindTag(fields[..|fields| - 1], tag)
  }

  /** Decoding in progress: the message so far, the required fields seen, and the fixed-count array that
      is being filled. */
  datatype State = State(m: seq<FieldValue>, seen: set<nat>, fixed: Option<nat>)

  function Items(fv: FieldValue): seq<Value> {
    if fv.Many? then fv.items else []
  }

  predicate FixedDone(fields: seq<Field>, st: State)
    requires |st.m| == |fields|
  {
    st.fixed.Some? && st.fixed.value < |fields| && fields[st.fixed.value].rule.FixedCount? ==>
      |Items(st.m[st.fixed.value])| == fields[st.fixed.value].rule.max
  }

  /** How many required fields come before field i. */
  function Ordinal(fields: seq<Field>, i: nat): (n: nat)
    requires i <= |fields|
    ensures n <= i
  {
    if i == 0 then 0 else Ordinal(fields, i - 1) + if fields[i - 1].rule.Required? then 1 else 0
  }

  /** The required fields, or the first 64 of them, have been seen. */
  predicate RequiredSeen(fields: seq<Field>, seen: set<nat>) {
    forall i :: 0 <= i < |fields| && fields[i].rule.Required? && Ordinal(fields, i) < MAX_REQUIRED ==> i in seen
  }

  /** Start on a field: a new fixed-count array begins empty, and only after the last one is complete. */
  function Prepare(fields: seq<Field>, st: State, i: nat): (r: Option<State>)
    requires |st.m| == |fields| && i < |fields|
    ensures r.Some? ==> |r.value.m| == |fields|
  {
    var f := fields[i];
    if f.rule.FixedCount? && st.fixed != Some(i) then
      if FixedDone(fields, st) then Some(st.(fixed := Some(i), m := st.m[i := Many([])])) else None
    else if f.rule.Required? then Some(st.(seen := st.seen + {i}))
    else Some(st)
  }

  /** The value a field starts from. */
  function StartValue(f: Field, fv: FieldValue): Value {
    match f.rule
    case Required => if fv.One? then fv.v else DefaultValue(f)
    case Singular => if fv.One? then fv.v else DefaultValue(f)
    case Optional => if fv.Maybe? then fv.v else DefaultValue(f)
    case _ => ZeroValue(f.ltype)
  }

  /** A decoded value goes into its field; a member of a union pushes out the others. */
  function Store(fields: seq<Field>, m: seq<FieldValue>, i: nat, v: Value): (r: seq<FieldValue>)
    requires |m| == |fields| && i < |fields|
    ensures |r| == |fields|
  {
    match fields[i].rule
    case Required => m[i := One(v)]
    case Singular => m[i := One(v)]
    case Optional => m[i := Maybe(true, v)]
    case Oneof(_) =>
      seq(|m|, j requires 0 <= j < |m| =>
        if j == i then Maybe(true, v)
        else if SameUnion(fields[i], fields[j]) then DefaultField(fields[j])
        else m[j])
    case _ => m[i := Many(Items(m[i]) + [v])]
  }

  /** Decode packed items until the bytes end or the array is full. */
  function ReadPacked(t: LType, items: seq<Value>, max: nat, bs: Bytes): (r: Option<(seq<Value>, Bytes)>)
    requires Packable(t)
    decreases |bs|
  {
    if bs == [] || |items| >= max then Some((items, bs))
    else
      match ReadScalar(t, bs)
      case None => None
      case Some((i, rest)) => ReadPacked(t, items + [VInt(i)], max, rest)
  }

  /** A C string ends at the first zero byte. */
  function UpToZero(b: Bytes): Bytes {
    if b == [] || b[0] == 0 then [] else [b[0]] + UpToZero(b[1..])
  }

  function ReadValue(t: LType, start: Value, bs: Bytes): (r: Option<(Value, Bytes)>)
    ensures r.Some? ==> |r.value.1| < |bs|
    decreases |bs|, 0
  {
    if Packable(t) then
      (match ReadScalar(t, bs) case None => None case Some((i, rest)) => Some((VInt(i), rest)))
    else
      match ReadString(bs)
      case None => None
      case Some((b, rest)) =>
        match t
        case TBytes(n) => if |b| > n then None else Some((VBytes(b), rest))
        case TString(n) => if |b| + 1 > n then None else Some((VBytes(UpToZero(b)), rest))
        case TFixedBytes(n) =>
          if b == [] then Some((VBytes(Zeros(n)), rest)) else if |b| != n then None else Some((VBytes(b), rest))
        case TMessage(fields) =>
          if !start.VMessage? || |start.m| != |fields| then None
          else
            match ReadMessage(fields, start.m, b)
            case None => None
            case Some(m) => Some((VMessage(m), rest))
  }

  /** Decode the field that has been started on. */
  function ReadPrepared(fields: seq<Field>, st: State, i: nat, wireType: nat, bs: Bytes): (r: Option<(State, Bytes)>)
    requires |st.m| == |fields| && i < |fields|
    ensures r.Some? ==> |r.value.0.m| == |fields| && |r.value.1| <= |bs|
    ensures r.Some? ==> r.value.0.fixed == st.fixed && r.value.0.seen == st.seen
    decreases |bs|, 1
  {
    var f := fields[i];
    if IsArray(f.rule) && wireType == 2 && Packable(f.ltype) then
      match ReadString(bs)
      case None => None
      case Some((b, rest)) =>
        (match ReadPacked(f.ltype, Items(st.m[i]), f.rule.max, b)
         case None => None
         case Some((items, left)) =>
           if left != [] then None else Some((st.(m := st.m[i := Many(items)]), rest)))
    else if IsArray(f.rule) && |Items(st.m[i])| >= f.rule.max then None
    else
      match ReadValue(f.ltype, StartValue(f, st.m[i]), bs)
      case None => None
      case Some((v, rest)) => Some((st.(m := Store(fields, st.m, i, v)), rest))
  }

  function ReadField(fields: seq<Field>, before: State, i: nat, wireType: nat, bs: Bytes): (r: Option<(State, Bytes)>)
    requires |before.m| == |fields| && i < |fields|
    ensures r.Some? ==> |r.value.0.m| == |fields| && |r.value.1| <= |bs|
    decreases |bs|, 2
  {
    var prepared := Prepare(fields, before, i);
    if prepared.None? then None else ReadPrepared(fields, prepared.value, i, wireType, bs)
  }

  /** The field that a tag and wire type announce: decoded, or skipped when its tag is unknown. */
  function ReadOne(fields: seq<Field>, st: State, word: nat, bs: Bytes): (r: Option<(State, Bytes)>)
    requires |st.m| == |fields|
    ensures r.Some? ==> |r.value.0.m| == |fields| && |r.value.1| <= |bs|
    decreases |bs|, 3
  {
    match FindTag(fields, word / 8)
    case Some(i) => ReadField(fields, st, i, word % 8, bs)
    case None =>
      match SkipField(word % 8, bs)
      case None => None
      case Some(rest) => Some((st, rest))
  }

  /** All fields, until the bytes or a zero tag end them. */
  function ReadFields(fields: seq<Field>, st: State, bs: Bytes): (r: Option<State>)
    requires |st.m| == |fields|
    ensures r.Some? ==> |r.value.m| == |fields|
    decreases |bs|, 4
  {
    if bs == [] then Some(st)
    else
      match ReadVarint32(bs)
      case None => None
      case Some((word, k)) =>
        if word == 0 then Some(st)
        else
          match ReadOne(fields, st, word, bs[k..])
          case None => None
          case Some((next, rest)) => ReadFields(fields, next, rest)
  }

  /** Decode into a message that has been set to its defaults. */
  function ReadMessage(fields: seq<Field>, m: seq<FieldValue>, bs: Bytes): (r: Option<seq<FieldValue>>)
    requires |m| == |fields|
    ensures r.Some? ==> |r.value| == |fields|
    decreases |bs|, 5
  {
    match ReadFields(fields, State(m, {}, None), bs)
    case None => None
    case Some(st) => if FixedDone(fields, st) && RequiredSeen(fields, st.seen) then Some(st.m) else None
  }
}
