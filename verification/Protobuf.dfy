/** Messages described by nested field descriptors, and the bytes they are encoded to in the Protocol
    Buffers wire format. */
module Protobuf {
  import opened InternalKeys
  import opened Coding

  // ----- Descriptors and messages -----

  /** Field types; `size` is the width of an integer in bytes, or what the array holds. */
  datatype LType =
    | TBool
    | TVarint(size: nat)
    | TUVarint(size: nat)
    | TSVarint(size: nat)
    | TFixed32
    | TFixed64
    | TBytes(size: nat)       // a byte array that holds up to size bytes
    | TString(size: nat)      // a char array of size bytes
    | TFixedBytes(size: nat)  // exactly size bytes
    | TMessage(fields: seq<Field>)

  /** Optional has a has-flag, Singular is present when it is not zero, Oneof shares its storage with
      the other fields of the union, FixedCount always holds all its items. */
  datatype Rule = Required | Optional | Singular | Repeated(max: nat) | FixedCount(max: nat) | Oneof(union: nat)

  datatype Field = Field(tag: nat, rule: Rule, ltype: LType, initial: Option<Value>)

  datatype Value = VInt(i: int) | VBytes(b: Bytes) | VMessage(m: seq<FieldValue>)

  datatype FieldValue = One(v: Value) | Maybe(has: bool, v: Value) | Many(items: seq<Value>)

  predicate IsArray(rule: Rule) {
    rule.Repeated? || rule.FixedCount?
  }

  predicate HasFlag(rule: Rule) {
    rule.Optional? || rule.Oneof?
  }

  predicate Packable(t: LType) {
    !t.TBytes? && !t.TString? && !t.TFixedBytes? && !t.TMessage?
  }

  function Tags(fields: seq<Field>): set<nat> {
    set i | 0 <= i < |fields| :: fields[i].tag
  }

  // ----- Well-formed descriptors, and messages of their type -----

  function Range(size: nat): nat {
    if size == 1 then 0x100 else if size == 2 then 0x1_0000 else if size == 4 then U32 else U64
  }

  predicate ValidWidth(size: nat) {
    size == 1 || size == 2 || size == 4 || size == 8
  }

  ghost predicate ValidType(t: LType) {
    match t
    case TVarint(n) => ValidWidth(n)
    case TUVarint(n) => ValidWidth(n)
    case TSVarint(n) => ValidWidth(n)
    case TMessage(fields) => ValidFields(fields)
    case _ => true
  }

  ghost predicate ValidField(f: Field) {
    && 0 < f.tag < 0x2000_0000 && ValidType(f.ltype)
    && (f.rule.Singular? ==> f.initial == None)
  }

  /** Tags are distinct and not zero. */
  ghost predicate ValidFields(fields: seq<Field>) {
    && (forall i :: 0 <= i < |fields| ==> ValidField(fields[i]))
    && (forall i, j :: 0 <= i < j < |fields| ==> fields[i].tag != fields[j].tag)
  }

  /** What the C type of a field can hold: integers within their width, strings without zero bytes,
      perhaps without room for the terminator. */
  ghost predicate TypedValue(t: LType, v: Value)
    decreases t
  {
    match t
    case TBool => v == VInt(0) || v == VInt(1)
    case TVarint(n) => v.VInt? && -(Range(n) / 2) <= v.i < Range(n) / 2
    case TUVarint(n) => v.VInt? && 0 <= v.i < Range(n)
    case TSVarint(n) => v.VInt? && -(Range(n) / 2) <= v.i < Range(n) / 2
    case TFixed32 => v.VInt? && 0 <= v.i < U32
    case TFixed64 => v.VInt? && 0 <= v.i < U64
    case TBytes(_) => v.VBytes?
    case TString(n) => v.VBytes? && |v.b| <= n && 0 !in v.b
    case TFixedBytes(n) => v.VBytes? && |v.b| == n
    case TMessage(fields) => v.VMessage? && TypedMessage(fields, v.m)
  }

  ghost predicate TypedField(f: Field, fv: FieldValue)
    decreases f
  {
    if IsArray(f.rule) then
      && fv.Many? && (forall k :: 0 <= k < |fv.items| ==> TypedValue(f.ltype, fv.items[k]))
      && (f.rule.FixedCount? ==> |fv.items| == f.rule.max)
    else if HasFlag(f.rule) then fv.Maybe? && TypedValue(f.ltype, fv.v)
    else fv.One? && TypedValue(f.ltype, fv.v)
  }

  ghost predicate TypedMessage(fields: seq<Field>, m: seq<FieldValue>)
    decreases fields
  {
    && |m| == |fields|
    && (forall i :: 0 <= i < |fields| ==> TypedField(fields[i], m[i]))
    && (forall i, j :: 0 <= i < j < |fields| && SameUnion(fields[i], fields[j]) ==>
          !(m[i].Maybe? && m[i].has && m[j].Maybe? && m[j].has))
  }

  predicate SameUnion(f: Field, g: Field) {
    f.rule.Oneof? && f.rule == g.rule
  }

  // ----- Fields that other writers may add -----

  /** A field with a tag of its own, by wire type. */
  datatype Unknown =
    | UnknownVarint(tag: nat, bytes: Bytes)
    | Unknown64(tag: nat, bytes: Bytes)
    | UnknownString(tag: nat, bytes: Bytes)
    | Unknown32(tag: nat, bytes: Bytes)

  predicate IsVarint(bs: Bytes) {
    bs != [] && bs[|bs| - 1] < 128 && forall i :: 0 <= i < |bs| - 1 ==> bs[i] >= 128
  }

  predicate ValidUnknown(tags: set<nat>, u: Unknown) {
    && u.tag !in tags && 0 < u.tag < 0x2000_0000
    && match u
       case UnknownVarint(_, bs) => IsVarint(bs)
       case Unknown64(_, bs) => |bs| == 8
       case UnknownString(_, bs) => |bs| < U32
       case Unknown32(_, bs) => |bs| == 4
  }

  function TagBytes(wireType: nat, tag: nat): Bytes {
    Varint(8 * tag + wireType)
  }

  function UnknownBytes(u: Unknown): Bytes {
    match u
    case UnknownVarint(tag, bs) => TagBytes(0, tag) + bs
    case Unknown64(tag, bs) => TagBytes(1, tag) + bs
    case UnknownString(tag, bs) => TagBytes(2, tag) + LengthPrefixed(bs)
    case Unknown32(tag, bs) => TagBytes(5, tag) + bs
  }

  /** The well-formed unknown fields among some, one after the other. */
  function NoiseBytes(tags: set<nat>, us: seq<Unknown>): Bytes {
    if us == [] then []
    else (if ValidUnknown(tags, us[0]) then UnknownBytes(us[0]) else []) + NoiseBytes(tags, us[1..])
  }

  /** Unknown fields for every place of a nested message where a field may start. */
  type Noise = seq<nat> -> seq<Unknown>

  const QUIET: Noise := path => []

  // ----- Encoding -----

  function ZigZag(i: int): int {
    if i < 0 then -2 * i - 1 else 2 * i
  }

  function WireType(t: LType): nat {
    match t
    case TFixed32 => 5
    case TFixed64 => 1
    case TBytes(_) => 2
    case TString(_) => 2
    case TFixedBytes(_) => 2
    case TMessage(_) => 2
    case _ => 0
  }

  /** Scalars; negative numbers of plain varint fields are sign-extended to 64 bits. */
  function ScalarBytes(t: LType, i: int): Bytes
    requires Packable(t)
  {
    match t
    case TBool => Varint(if i != 0 then 1 else 0)
    case TVarint(_) => Varint(i % U64)
    case TUVarint(_) => Varint(i % U64)
    case TSVarint(_) => Varint(ZigZag(i))
    case TFixed32 => Fixed32(i % U32)
    case TFixed64 => Fixed64(i % U64)
  }

  function PackedBytes(t: LType, items: seq<Value>): Bytes
    requires Packable(t)
  {
    if items == [] then []
    else (if items[0].VInt? then ScalarBytes(t, items[0].i) else []) + PackedBytes(t, items[1..])
  }

  /** A field of a message that is absent by being zero is not encoded. */
  predicate IsZero(f: Field, fv: FieldValue)
    decreases f
  {
    match f.rule
    case Required => false
    case Repeated(_) => fv.Many? && fv.items == []
    case FixedCount(_) => false
    case Optional => fv.Maybe? && !fv.has
    case Oneof(_) => fv.Maybe? && !fv.has
    case Singular =>
      fv.One? &&
      match f.ltype
      case TBytes(_) => fv.v.VBytes? && fv.v.b == []
      case TString(_) => fv.v.VBytes? && fv.v.b == []
      case TFixedBytes(n) => n == 0
      case TMessage(fields) => fv.v.VMessage? && AllZero(fields, fv.v.m)
      case _ => fv.v == VInt(0)
  }

  predicate AllZero(fields: seq<Field>, m: seq<FieldValue>)
    decreases fields
  {
    |m| == |fields| && forall i :: 0 <= i < |fields| ==> IsZero(fields[i], m[i])
  }

  function ValueBytes(t: LType, v: Value, path: seq<nat>, noise: Noise): Bytes
    decreases t, 0
  {
    if Packable(t) then if v.VInt? then ScalarBytes(t, v.i) else []
    else if t.TMessage? then
      if v.VMessage? && |v.m| == |t.fields| then LengthPrefixed(MessageBytes(t.fields, v.m, 0, path, noise)) else []
    else if v.VBytes? then LengthPrefixed(v.b)
    else []
  }

  function OccurrenceBytes(f: Field, v: Value, path: seq<nat>, noise: Noise): Bytes
    decreases f, 0
  {
    TagBytes(WireType(f.ltype), f.tag) + ValueBytes(f.ltype, v, path, noise)
  }

  /** The items of an array from item k on, each with its own tag. */
  function ItemsBytes(tags: set<nat>, f: Field, items: seq<Value>, k: nat, path: seq<nat>, noise: Noise): Bytes
    requires k <= |items|
    decreases f, 1, |items| - k
  {
    if k == |items| then []
    else
      NoiseBytes(tags, noise(path + [k])) + OccurrenceBytes(f, items[k], path + [k], noise)
      + ItemsBytes(tags, f, items, k + 1, path, noise)
  }

  function FieldBytes(tags: set<nat>, f: Field, fv: FieldValue, path: seq<nat>, noise: Noise): Bytes
    decreases f, 2
  {
    match f.rule
    case Required => if fv.One? then OccurrenceBytes(f, fv.v, path, noise) else []
    case Singular => if fv.One? && !IsZero(f, fv) then OccurrenceBytes(f, fv.v, path, noise) else []
    case Optional => if fv.Maybe? && fv.has then OccurrenceBytes(f, fv.v, path, noise) else []
    case Oneof(_) => if fv.Maybe? && fv.has then OccurrenceBytes(f, fv.v, path, noise) else []
    case _ =>
      if !fv.Many? || fv.items == [] then []
      else if Packable(f.ltype) then TagBytes(2, f.tag) + LengthPrefixed(PackedBytes(f.ltype, fv.items))
      else ItemsBytes(tags, f, fv.items, 0, path, noise)
  }

  /** The fields of a message from field i on, with unknown fields between them. */
  function MessageBytes(fields: seq<Field>, m: seq<FieldValue>, i: nat, path: seq<nat>, noise: Noise): Bytes
    requires i <= |fields| == |m|
    decreases fields, |fields| - i
  {
    NoiseBytes(Tags(fields), noise(path + [i])) +
    if i == |fields| then []
    else FieldBytes(Tags(fields), fields[i], m[i], path + [i], noise) + MessageBytes(fields, m, i + 1, path, noise)
  }

  /** What an encoder writes, with no unknown fields. */
  function Encoding(fields: seq<Field>, m: seq<FieldValue>): Bytes
    requires |fields| == |m|
  {
    MessageBytes(fields, m, 0, [], QUIET)
  }

  // ----- What can be encoded -----

  /** Nothing that is present is longer than its array. */
  ghost predicate ValueFits(t: LType, v: Value)
    decreases t
  {
    match t
    case TBytes(n) => v.VBytes? && |v.b| <= n
    case TMessage(fields) => v.VMessage? && MessageFits(fields, v.m)
    case _ => true
  }

  ghost predicate FieldFits(f: Field, fv: FieldValue)
    decreases f
  {
    match f.rule
    case Required => fv.One? && ValueFits(f.ltype, fv.v)
    case Singular => fv.One? && (IsZero(f, fv) || ValueFits(f.ltype, fv.v))
    case Optional => fv.Maybe? && (fv.has ==> ValueFits(f.ltype, fv.v))
    case Oneof(_) => fv.Maybe? && (fv.has ==> ValueFits(f.ltype, fv.v))
    case _ =>
      && fv.Many? && |fv.items| <= f.rule.max
      && forall k :: 0 <= k < |fv.items| ==> ValueFits(f.ltype, fv.items[k])
  }

  ghost predicate MessageFits(fields: seq<Field>, m: seq<FieldValue>)
    decreases fields
  {
    |m| == |fields| && forall i :: 0 <= i < |fields| ==> FieldFits(fields[i], m[i])
  }
}
