/** A reader that knows only some of the fields of a message: it skips the others, for every known field is
    written under the wire type by which it can be skipped. */
module ProtobufSubset {
  import opened InternalKeys
  import opened Coding
  import opened Protobuf
  import opened ProtobufDecoding
  import opened ProtobufTheorem

  // ----- A known field, seen by a reader that does not know it -----

  lemma {:induction false} VarintIsVarint(v: nat)
    ensures IsVarint(Varint(v))
  {
    if v >= 128 {
      VarintIsVarint(v / 128);
      assert Varint(v) == [v % 128 + 128] + Varint(v / 128);
    }
  }

  lemma ScalarIsVarint(t: LType, i: int)
    requires Packable(t) && !t.TFixed32? && !t.TFixed64? && (t.TSVarint? ==> ZigZag(i) >= 0)
    ensures IsVarint(ScalarBytes(t, i))
  {
    hide Varint, IsVarint, ZigZag;
    match t {
      case TBool => VarintIsVarint(if i != 0 then 1 else 0);
      case TVarint(_) => VarintIsVarint(i % U64);
      case TUVarint(_) => VarintIsVarint(i % U64);
      case TSVarint(_) => VarintIsVarint(ZigZag(i));
    }
  }

  /** A value with its tag, as a field of unknown tag. */
  function UnknownOf(f: Field, v: Value, path: seq<nat>, noise: Noise): Unknown {
    if f.ltype.TFixed32? then Unknown32(f.tag, ValueBytes(f.ltype, v, path, noise))
    else if f.ltype.TFixed64? then Unknown64(f.tag, ValueBytes(f.ltype, v, path, noise))
    else if Packable(f.ltype) then UnknownVarint(f.tag, ValueBytes(f.ltype, v, path, noise))
    else UnknownString(f.tag, Payload(f.ltype, v, path, noise))
  }

  function Payload(t: LType, v: Value, path: seq<nat>, noise: Noise): Bytes {
    if t.TMessage? && v.VMessage? && |v.m| == |t.fields| then MessageBytes(t.fields, v.m, 0, path, noise)
    else if v.VBytes? then v.b
    else []
  }

  lemma OccurrenceIsUnknown(tags: set<nat>, f: Field, v: Value, path: seq<nat>, noise: Noise)
    requires ValidField(f) && TypedValue(f.ltype, v) && f.tag !in tags && |OccurrenceBytes(f, v, path, noise)| < U32
    ensures ValidUnknown(tags, UnknownOf(f, v, path, noise))
    ensures UnknownBytes(UnknownOf(f, v, path, noise)) == OccurrenceBytes(f, v, path, noise)
  {
    hide TagBytes, MessageBytes, TypedMessage, Varint, IsVarint, Fixed32, ZigZag, ValidFields;
    var t := f.ltype;
    if Packable(t) {
      if !t.TFixed32? && !t.TFixed64? {
        ZigZagNatural(v.i);
        ScalarIsVarint(t, v.i);
      }
    } else {
      if t.TMessage? {
        TypedLength(t.fields, v.m);
      }
      PayloadIsShorter(Payload(t, v, path, noise));
    }
  }

  lemma ZigZagNatural(i: int)
    ensures ZigZag(i) >= 0
  {
  }

  lemma TypedLength(fields: seq<Field>, m: seq<FieldValue>)
    requires TypedMessage(fields, m)
    ensures |m| == |fields|
  {
  }

  /** What follows the tag of any value is skipped whole by the wire type in the tag; so is a packed array. */
  lemma KnownIsSkippable(f: Field, v: Value, path: seq<nat>, noise: Noise, rest: Bytes)
    requires ValidField(f) && TypedValue(f.ltype, v) && |OccurrenceBytes(f, v, path, noise)| < U32
    ensures var word := 8 * f.tag + WireType(f.ltype);
        && OccurrenceBytes(f, v, path, noise) == Varint(word) + ValueBytes(f.ltype, v, path, noise)
        && SkipField(word % 8, ValueBytes(f.ltype, v, path, noise) + rest) == Some(rest)
  {
    hide SkipField, ValueBytes, Varint, TypedValue, UnknownOf, Packable;
    OccurrenceIsUnknown({}, f, v, path, noise);
    var u := UnknownOf(f, v, path, noise);
    PayloadSkips({}, u, rest);
    UnknownParts(f, v, path, noise);
  }

  lemma UnknownParts(f: Field, v: Value, path: seq<nat>, noise: Noise)
    requires TypedValue(f.ltype, v)
    ensures var u := UnknownOf(f, v, path, noise);
        UnknownPayload(u) == ValueBytes(f.ltype, v, path, noise) && UnknownWire(u) == WireType(f.ltype) < 8
  {
    hide MessageBytes, TypedMessage, Varint, Fixed32;
    if f.ltype.TMessage? {
      TypedLength(f.ltype.fields, v.m);
    }
  }

  lemma PackedIsSkippable(t: LType, items: seq<Value>, rest: Bytes)
    requires Packable(t) && |PackedBytes(t, items)| < U32
    ensures SkipField(2, LengthPrefixed(PackedBytes(t, items)) + rest) == Some(rest)
  {
    hide PackedBytes;
    StringRoundTrip(PackedBytes(t, items), rest);
  }

  /** All that is written for a field. */
  function UnknownsOf(f: Field, fv: FieldValue, path: seq<nat>): seq<Unknown> {
    match f.rule
    case Required => if fv.One? then [UnknownOf(f, fv.v, path, QUIET)] else []
    case Singular => if fv.One? && !IsZero(f, fv) then [UnknownOf(f, fv.v, path, QUIET)] else []
    case Optional => if fv.Maybe? && fv.has then [UnknownOf(f, fv.v, path, QUIET)] else []
    case Oneof(_) => if fv.Maybe? && fv.has then [UnknownOf(f, fv.v, path, QUIET)] else []
    case _ =>
      if !fv.Many? || fv.items == [] then []
      else if Packable(f.ltype) then [UnknownString(f.tag, PackedBytes(f.ltype, fv.items))]
      else UnknownItems(f, fv.items, 0, path)
  }

  function UnknownItems(f: Field, items: seq<Value>, k: nat, path: seq<nat>): seq<Unknown>
    requires k <= |items|
    decreases |items| - k
  {
    if k == |items| then [] else [UnknownOf(f, items[k], path + [k], QUIET)] + UnknownItems(f, items, k + 1, path)
  }

  lemma OneNoise(tags: set<nat>, u: Unknown, us: seq<Unknown>)
    requires ValidUnknown(tags, u)
    ensures NoiseBytes(tags, [u] + us) == UnknownBytes(u) + NoiseBytes(tags, us)
    ensures NoiseBytes(tags, [u]) == UnknownBytes(u)
  {
    hide ValidUnknown, UnknownBytes;
    assert ([u] + us)[1..] == us;
    assert [u][1..] == [];
    assert UnknownBytes(u) + [] == UnknownBytes(u);
  }

  lemma {:induction false} NoiseAppends(tags: set<nat>, us: seq<Unknown>, vs: seq<Unknown>)
    ensures NoiseBytes(tags, us + vs) == NoiseBytes(tags, us) + NoiseBytes(tags, vs)
  {
    hide ValidUnknown, UnknownBytes;
    if us == [] {
      assert us + vs == vs;
    } else {
      assert (us + vs)[1..] == us[1..] + vs;
      NoiseAppends(tags, us[1..], vs);
    }
  }

  lemma {:induction false} ItemsAreUnknown(all: set<nat>, tags: set<nat>, f: Field, items: seq<Value>, k: nat, path: seq<nat>)
    requires ValidField(f) && f.tag !in tags && k <= |items| && forall j :: 0 <= j < |items| ==> TypedValue(f.ltype, items[j])
    requires |ItemsBytes(all, f, items, k, path, QUIET)| < U32
    ensures NoiseBytes(tags, UnknownItems(f, items, k, path)) == ItemsBytes(all, f, items, k, path, QUIET)
    decreases |items| - k
  {
    hide OccurrenceBytes, ValidUnknown, UnknownBytes, UnknownOf, TypedValue;
    if k < |items| {
      NoNoise(all);
      var occ := OccurrenceBytes(f, items[k], path + [k], QUIET);
      assert ItemsBytes(all, f, items, k, path, QUIET) == occ + ItemsBytes(all, f, items, k + 1, path, QUIET);
      ItemsAreUnknown(all, tags, f, items, k + 1, path);
      OccurrenceIsUnknown(tags, f, items[k], path + [k], QUIET);
      OneNoise(tags, UnknownOf(f, items[k], path + [k], QUIET), UnknownItems(f, items, k + 1, path));
    }
  }

  lemma NoNoise(tags: set<nat>)
    ensures NoiseBytes(tags, []) == []
    ensures forall path :: QUIET(path) == []
  {
  }

  lemma FieldIsUnknown(all: set<nat>, tags: set<nat>, f: Field, fv: FieldValue, path: seq<nat>)
    requires ValidField(f) && TypedField(f, fv) && f.tag !in tags && |FieldBytes(all, f, fv, path, QUIET)| < U32
    ensures NoiseBytes(tags, UnknownsOf(f, fv, path)) == FieldBytes(all, f, fv, path, QUIET)
  {
    hide OccurrenceBytes, ValidUnknown, UnknownBytes, UnknownOf, TypedValue, IsZero, ItemsBytes, UnknownItems, PackedBytes, QUIET;
    NoNoise(tags);
    if UnknownsOf(f, fv, path) == [] {
      NothingUnknown(all, f, fv, path);
    } else if !IsArray(f.rule) {
      OccurrenceIsUnknown(tags, f, fv.v, path, QUIET);
      OneNoise(tags, UnknownOf(f, fv.v, path, QUIET), []);
    } else if Packable(f.ltype) {
      PackedIsUnknown(tags, f, fv.items);
    } else {
      ItemsAreUnknown(all, tags, f, fv.items, 0, path);
    }
  }

  lemma NothingUnknown(all: set<nat>, f: Field, fv: FieldValue, path: seq<nat>)
    requires TypedField(f, fv) && UnknownsOf(f, fv, path) == []
    ensures FieldBytes(all, f, fv, path, QUIET) == []
  {
    hide OccurrenceBytes, UnknownOf, TypedValue, IsZero;
  }

  lemma PackedIsUnknown(tags: set<nat>, f: Field, items: seq<Value>)
    requires ValidField(f) && f.tag !in tags && Packable(f.ltype)
    requires |TagBytes(2, f.tag) + LengthPrefixed(PackedBytes(f.ltype, items))| < U32
    ensures NoiseBytes(tags, [UnknownString(f.tag, PackedBytes(f.ltype, items))]) ==
        TagBytes(2, f.tag) + LengthPrefixed(PackedBytes(f.ltype, items))
  {
    hide PackedBytes, TagBytes, LengthPrefixed;
    var u := UnknownString(f.tag, PackedBytes(f.ltype, items));
    PayloadIsShorter(u.bytes);
    OneNoise(tags, u, []);
  }

  // ----- Bytes below do not depend on the place, when nothing is added there -----

  ghost predicate QuietFrom(noise: Noise, depth: nat) {
    forall path: seq<nat> :: |path| >= depth ==> noise(path) == []
  }

  lemma {:induction false} SameValue(t: LType, v: Value, path: seq<nat>, noise: Noise, path': seq<nat>, noise': Noise)
    requires QuietFrom(noise, |path| + 1) && QuietFrom(noise', |path'| + 1)
    ensures ValueBytes(t, v, path, noise) == ValueBytes(t, v, path', noise')
    decreases t, 0
  {
    if t.TMessage? && v.VMessage? && |v.m| == |t.fields| {
      SameMessage(t.fields, v.m, 0, path, noise, path', noise');
    }
  }

  lemma {:induction false} SameItems(tags: set<nat>, tags': set<nat>, f: Field, items: seq<Value>, k: nat,
                                     path: seq<nat>, noise: Noise, path': seq<nat>, noise': Noise)
    requires QuietFrom(noise, |path| + 1) && QuietFrom(noise', |path'| + 1) && k <= |items|
    ensures ItemsBytes(tags, f, items, k, path, noise) == ItemsBytes(tags', f, items, k, path', noise')
    decreases f, 1, |items| - k
  {
    if k < |items| {
      NoNoise(tags);
      NoNoise(tags');
      SameValue(f.ltype, items[k], path + [k], noise, path' + [k], noise');
      SameItems(tags, tags', f, items, k + 1, path, noise, path', noise');
    }
  }

  lemma {:induction false} SameField(tags: set<nat>, tags': set<nat>, f: Field, fv: FieldValue,
                                     path: seq<nat>, noise: Noise, path': seq<nat>, noise': Noise)
    requires QuietFrom(noise, |path| + 1) && QuietFrom(noise', |path'| + 1)
    ensures FieldBytes(tags, f, fv, path, noise) == FieldBytes(tags', f, fv, path', noise')
    decreases f, 2
  {
    hide ValueBytes, ItemsBytes, QuietFrom, IsZero;
    if fv.Many? {
      SameItems(tags, tags', f, fv.items, 0, path, noise, path', noise');
    } else {
      SameValue(f.ltype, fv.v, path, noise, path', noise');
    }
  }

  lemma {:induction false} SameMessage(fields: seq<Field>, m: seq<FieldValue>, i: nat,
                                       path: seq<nat>, noise: Noise, path': seq<nat>, noise': Noise)
    requires QuietFrom(noise, |path| + 1) && QuietFrom(noise', |path'| + 1) && i <= |fields| == |m|
    ensures MessageBytes(fields, m, i, path, noise) == MessageBytes(fields, m, i, path', noise')
    decreases fields, |fields| - i
  {
    hide FieldBytes;
    assert noise(path + [i]) == [] == noise'(path' + [i]);
    if i < |fields| {
      SameField(Tags(fields), Tags(fields), fields[i], m[i], path + [i], noise, path' + [i], noise');
      SameMessage(fields, m, i + 1, path, noise, path', noise');
    }
  }

  // ----- Some of the fields -----

  /** Places in a sequence, in order. */
  ghost predicate InOrder(at: seq<nat>, n: nat) {
    && (forall j :: 0 <= j < |at| ==> at[j] < n)
    && forall i, j :: 0 <= i < j < |at| ==> at[i] < at[j]
  }

  function At<T>(xs: seq<T>, at: seq<nat>): (ys: seq<T>)
    requires forall j :: 0 <= j < |at| ==> at[j] < |xs|
    ensures |ys| == |at| && forall j :: 0 <= j < |at| ==> ys[j] == xs[at[j]]
  {
    seq(|at|, j requires 0 <= j < |at| => xs[at[j]])
  }

  /** The fields from one place up to another, as unknown fields. */
  function Between(fields: seq<Field>, m: seq<FieldValue>, from: nat, to: nat): seq<Unknown>
    requires |fields| == |m| && to <= |fields|
    decreases if from < to then to - from else 0
  {
    if from >= to then [] else UnknownsOf(fields[from], m[from], [from]) + Between(fields, m, from + 1, to)
  }

  function Start(at: seq<nat>, j: nat): nat
    requires j <= |at|
  {
    if j == 0 then 0 else at[j - 1] + 1
  }

  function End(at: seq<nat>, j: nat, n: nat): nat
    requires j <= |at|
  {
    if j == |at| then n else at[j]
  }

  /** The fields that are not chosen, where a reader of the chosen ones meets them. */
  function Others(fields: seq<Field>, m: seq<FieldValue>, at: seq<nat>): Noise
    requires |fields| == |m|
  {
    path =>
      if |path| == 1 && path[0] <= |at| && End(at, path[0], |fields|) <= |fields|
      then Between(fields, m, Start(at, path[0]), End(at, path[0], |fields|))
      else []
  }

  lemma {:induction false} GapBytes(fields: seq<Field>, m: seq<FieldValue>, tags: set<nat>, from: nat, to: nat)
    requires ValidFields(fields) && TypedMessage(fields, m) && from <= to <= |fields| == |m|
    requires forall i :: from <= i < to ==> fields[i].tag !in tags
    requires |MessageBytes(fields, m, from, [], QUIET)| < U32
    ensures MessageBytes(fields, m, from, [], QUIET) ==
        NoiseBytes(tags, Between(fields, m, from, to)) + MessageBytes(fields, m, to, [], QUIET)
    decreases |fields| - from
  {
    hide FieldBytes, TypedMessage, ValidFields, UnknownsOf, Tags, QUIET;
    NoNoise(tags);
    NoNoise(Tags(fields));
    if from < to {
      QuietStep(fields, m, from);
      var field := FieldBytes(Tags(fields), fields[from], m[from], [from], QUIET);
      FieldIs(fields, m, from);
      FieldIsUnknown(Tags(fields), tags, fields[from], m[from], [from]);
      GapBytes(fields, m, tags, from + 1, to);
      NoiseAppends(tags, UnknownsOf(fields[from], m[from], [from]), Between(fields, m, from + 1, to));
    }
  }

  lemma QuietStep(fields: seq<Field>, m: seq<FieldValue>, i: nat)
    requires i < |fields| == |m|
    ensures MessageBytes(fields, m, i, [], QUIET) ==
        FieldBytes(Tags(fields), fields[i], m[i], [i], QUIET) + MessageBytes(fields, m, i + 1, [], QUIET)
  {
    hide FieldBytes;
    assert [] + [i] == [i];
    assert MessageBytes(fields, m, i, [], QUIET) == [] +
        (FieldBytes(Tags(fields), fields[i], m[i], [i], QUIET) + MessageBytes(fields, m, i + 1, [], QUIET));
  }

  lemma QuietEnd(fields: seq<Field>, m: seq<FieldValue>)
    requires |fields| == |m|
    ensures MessageBytes(fields, m, |fields|, [], QUIET) == []
  {
  }

  lemma FieldIs(fields: seq<Field>, m: seq<FieldValue>, i: nat)
    requires ValidFields(fields) && TypedMessage(fields, m) && i < |fields| == |m|
    ensures ValidField(fields[i]) && TypedField(fields[i], m[i])
  {
  }

  /** A message is what a writer of the chosen fields writes, with the others between them. */
  lemma {:induction false} ChosenBytes(fields: seq<Field>, m: seq<FieldValue>, at: seq<nat>, j: nat)
    requires ValidFields(fields) && TypedMessage(fields, m) && |fields| == |m| && InOrder(at, |fields|) && j <= |at|
    requires |MessageBytes(fields, m, Start(at, j), [], QUIET)| < U32
    ensures MessageBytes(At(fields, at), At(m, at), j, [], Others(fields, m, at)) == MessageBytes(fields, m, Start(at, j), [], QUIET)
    decreases |at| - j
  {
    hide FieldBytes, MessageBytes, NoiseBytes, Others, TypedMessage, ValidFields, Between, Tags, QUIET;
    var sub, noise := At(fields, at), Others(fields, m, at);
    var from, to := Start(at, j), End(at, j, |fields|);
    NotChosen(fields, at, j);
    OthersAt(fields, m, at, j);
    NoisyStep(sub, At(m, at), j, noise);
    GapBytes(fields, m, Tags(sub), from, to);
    if j == |at| {
      QuietEnd(fields, m);
    } else {
      QuietStep(fields, m, to);
      ChosenBytes(fields, m, at, j + 1);
      OthersAreShallow(fields, m, at);
      SameField(Tags(sub), Tags(fields), sub[j], At(m, at)[j], [j], noise, [to], QUIET);
    }
  }

  lemma NoisyStep(fields: seq<Field>, m: seq<FieldValue>, j: nat, noise: Noise)
    requires j <= |fields| == |m|
    ensures MessageBytes(fields, m, j, [], noise) == NoiseBytes(Tags(fields), noise([j])) +
        if j == |fields| then []
        else FieldBytes(Tags(fields), fields[j], m[j], [j], noise) + MessageBytes(fields, m, j + 1, [], noise)
  {
    hide FieldBytes, NoiseBytes, Tags;
    assert [] + [j] == [j];
  }

  lemma OthersAt(fields: seq<Field>, m: seq<FieldValue>, at: seq<nat>, j: nat)
    requires |fields| == |m| && j <= |at| && End(at, j, |fields|) <= |fields|
    ensures Others(fields, m, at)([j]) == Between(fields, m, Start(at, j), End(at, j, |fields|))
  {
  }

  lemma OthersAreShallow(fields: seq<Field>, m: seq<FieldValue>, at: seq<nat>)
    requires |fields| == |m|
    ensures QuietFrom(Others(fields, m, at), 2) && QuietFrom(QUIET, 2)
  {
  }

  lemma NotChosen(fields: seq<Field>, at: seq<nat>, j: nat)
    requires ValidFields(fields) && InOrder(at, |fields|) && j <= |at|
    ensures Start(at, j) <= End(at, j, |fields|) <= |fields|
    ensures forall i :: Start(at, j) <= i < End(at, j, |fields|) ==> fields[i].tag !in Tags(At(fields, at))
  {
    forall i, k | Start(at, j) <= i < End(at, j, |fields|) && 0 <= k < |at|
      ensures At(fields, at)[k].tag != fields[i].tag
    {
      assert k < j ==> at[k] <= at[j - 1];
      assert k >= j ==> at[j] <= at[k];
      assert at[k] != i;
    }
  }

  lemma ChosenTyped(fields: seq<Field>, m: seq<FieldValue>, at: seq<nat>)
    requires ValidFields(fields) && TypedMessage(fields, m) && |fields| == |m| && InOrder(at, |fields|)
    ensures ValidFields(At(fields, at)) && TypedMessage(At(fields, at), At(m, at))
  {
  }

  /** A reader with any of the descriptors, decoding what a writer with all of them wrote, gets exactly the
      fields that it knows. */
  lemma SubsetRoundTrip(fields: seq<Field>, m: seq<FieldValue>, at: seq<nat>)
    requires ValidFields(fields) && |m| == |fields| && TypedMessage(fields, m) && InOrder(at, |fields|)
    requires MessageKept(At(fields, at), At(m, at)) && |Encoding(fields, m)| < U32
    ensures ReadMessage(At(fields, at), DefaultMessage(At(fields, at)), Encoding(fields, m)) ==
        Some(CleanMessage(At(fields, at), At(m, at)))
  {
    hide MessageBytes, ReadMessage, TypedMessage, ValidFields, MessageKept, CleanMessage, QUIET;
    ChosenTyped(fields, m, at);
    ChosenBytes(fields, m, at, 0);
    MessageRoundTrip(At(fields, at), At(m, at), [], Others(fields, m, at));
  }
}
