/** What decoding any bytes can end in: every required field was read, and what is stored fits its place. */
module ProtobufSafety {
  import opened InternalKeys
  import opened Coding
  import opened Protobuf
  import opened ProtobufDecoding
  import opened ProtobufTheorem
  import Decoder = ProtobufDecoder

  // ----- Required fields -----

  /** The required fields before field i. */
  function RequiredBefore(fields: seq<Field>, i: nat): set<nat> {
    set k | 0 <= k < i && k < |fields| && fields[k].rule.Required?
  }

  /** The tags of the fields that decoding meets in the bytes, in order. */
  ghost function TagsRead(fields: seq<Field>, st: State, bs: Bytes): seq<nat>
    requires |st.m| == |fields|
    decreases |bs|
  {
    if bs == [] then []
    else
      match ReadVarint32(bs)
      case None => []
      case Some((word, k)) =>
        if word == 0 then []
        else
          [word / 8] +
          match ReadOne(fields, st, word, bs[k..])
          case None => []
          case Some((next, rest)) => TagsRead(fields, next, rest)
  }

  lemma OneSeen(fields: seq<Field>, st: State, word: nat, bs: Bytes)
    requires |st.m| == |fields| && ReadOne(fields, st, word, bs).Some?
    ensures forall i :: i in ReadOne(fields, st, word, bs).value.0.seen ==> i in st.seen || (i < |fields| && fields[i].tag == word / 8)
  {
    hide ReadPrepared, FindTag, SkipField, FixedDone;
  }

  lemma TagsStep(fields: seq<Field>, st: State, bs: Bytes)
    requires |st.m| == |fields| && bs != []
    ensures var word := ReadVarint32(bs);
        word.Some? && word.value.0 != 0 ==>
          var one := ReadOne(fields, st, word.value.0, bs[word.value.1..]);
          TagsRead(fields, st, bs) == [word.value.0 / 8] + if one.None? then [] else TagsRead(fields, one.value.0, one.value.1)
  {
  }

  /** A required field counts as seen only when its tag was read. */
  lemma {:induction false} SeenWasRead(fields: seq<Field>, st: State, bs: Bytes)
    requires |st.m| == |fields|
    ensures var last := ReadFields(fields, st, bs);
        last.Some? ==> forall i :: i in last.value.seen ==> i in st.seen || (i < |fields| && fields[i].tag in TagsRead(fields, st, bs))
    decreases |bs|
  {
    hide ReadVarint32, ReadOne, ReadFields, TagsRead;
    if bs == [] {
      Decoder.FieldsEnd(fields, st);
    } else {
      Decoder.FieldsStep(fields, st, bs);
      TagsStep(fields, st, bs);
      if ReadVarint32(bs).Some? {
        var (word, k) := ReadVarint32(bs).value;
        if word != 0 && ReadOne(fields, st, word, bs[k..]).Some? {
          var (next, rest) := ReadOne(fields, st, word, bs[k..]).value;
          OneSeen(fields, st, word, bs[k..]);
          SeenWasRead(fields, next, rest);
        }
      }
    }
  }

  lemma {:induction false} OrdinalCounts(fields: seq<Field>, i: nat)
    requires i <= |fields|
    ensures Ordinal(fields, i) == |RequiredBefore(fields, i)|
  {
    if i > 0 {
      OrdinalCounts(fields, i - 1);
      assert RequiredBefore(fields, i) == RequiredBefore(fields, i - 1) + if fields[i - 1].rule.Required? then {i - 1} else {};
    } else {
      assert RequiredBefore(fields, 0) == {};
    }
  }

  /** Decoding any bytes succeeds only if the tag of each of the first 64 required fields was read among
      them; when there are no more than 64, that is the tag of every required field. */
  lemma RequiredWereRead(fields: seq<Field>, m: seq<FieldValue>, bs: Bytes, i: nat)
    requires |m| == |fields| && i < |fields| && fields[i].rule.Required? && |RequiredBefore(fields, i)| < 64
    requires ReadMessage(fields, m, bs).Some?
    ensures fields[i].tag in TagsRead(fields, State(m, {}, None), bs)
  {
    hide TagsRead, ReadFields;
    SeenWasRead(fields, State(m, {}, None), bs);
    OrdinalCounts(fields, i);
  }

  lemma FewRequired(fields: seq<Field>, i: nat)
    requires i < |fields| && fields[i].rule.Required? && |RequiredBefore(fields, |fields|)| <= 64
    ensures |RequiredBefore(fields, i)| < 64
  {
    var before, all := RequiredBefore(fields, i), RequiredBefore(fields, |fields|);
    assert before + {i} <= all && i !in before;
    SubsetIsSmaller(before + {i}, all);
  }

  lemma SubsetIsSmaller(a: set<nat>, b: set<nat>)
    requires a <= b
    ensures |a| <= |b|
  {
    assert b == a + (b - a);
  }

  /** A message without some of its required fields, with unknown fields anywhere, decodes if and only if all
      that are left out come after 64 others. */
  lemma LeftOut(fields: seq<Field>, m: seq<FieldValue>, out: set<nat>, path: seq<nat>, noise: Noise)
    requires ValidFields(fields) && |m| == |fields| && TypedMessage(fields, m) && MessageKept(fields, m) && AllRequired(fields, out)
    requires |BytesWithout(fields, m, out, 0, path, noise)| < U32
    ensures ReadMessage(fields, DefaultMessage(fields), BytesWithout(fields, m, out, 0, path, noise)).Some?
        <==> forall i :: i in out ==> |RequiredBefore(fields, i)| >= 64
  {
    hide BytesWithout, TypedMessage, MessageKept, ValidFields, ReadFields, CleanField, DefaultField;
    var st := State(DefaultMessage(fields), {}, None);
    assert Stage(fields, m, out, 0, st);
    var last := FieldsRoundTrip(fields, m, out, 0, st, path, noise);
    StageIsDone(fields, m, out, |fields|, last);
    forall i | 0 <= i < |fields| ensures Ordinal(fields, i) == |RequiredBefore(fields, i)| {
      OrdinalCounts(fields, i);
    }
  }

  /** The encoding of a message, without one required field, is refused. */
  lemma OneLeftOutFails(fields: seq<Field>, m: seq<FieldValue>, i: nat)
    requires ValidFields(fields) && |m| == |fields| && TypedMessage(fields, m) && MessageKept(fields, m)
    requires i < |fields| && fields[i].rule.Required? && |RequiredBefore(fields, |fields|)| <= 64
    requires |BytesWithout(fields, m, {i}, 0, [], QUIET)| < U32
    ensures ReadMessage(fields, DefaultMessage(fields), BytesWithout(fields, m, {i}, 0, [], QUIET)) == None
  {
    hide BytesWithout, TypedMessage, MessageKept, ValidFields, ReadMessage;
    FewRequired(fields, i);
    LeftOut(fields, m, {i}, [], QUIET);
  }

  // ----- What is stored fits its place -----

  /** A value that its C type can hold: numbers in range, strings with their terminator, byte arrays within
      their size. */
  ghost predicate Held(t: LType, v: Value)
    decreases t
  {
    match t
    case TBytes(n) => v.VBytes? && |v.b| <= n
    case TString(n) => v.VBytes? && (|v.b| < n || v.b == []) && 0 !in v.b
    case TMessage(fields) => v.VMessage? && HeldMessage(fields, v.m)
    case _ => TypedValue(t, v)
  }

  ghost predicate HeldField(f: Field, fv: FieldValue)
    decreases f
  {
    if IsArray(f.rule) then fv.Many? && |fv.items| <= f.rule.max && forall k :: 0 <= k < |fv.items| ==> Held(f.ltype, fv.items[k])
    else if HasFlag(f.rule) then fv.Maybe? && Held(f.ltype, fv.v)
    else fv.One? && Held(f.ltype, fv.v)
  }

  /** Of a union at most one member is there. */
  ghost predicate UnionsOk(fields: seq<Field>, m: seq<FieldValue>) {
    forall i, j :: 0 <= i < j < |fields| && j < |m| && SameUnion(fields[i], fields[j]) ==>
      !(m[i].Maybe? && m[i].has && m[j].Maybe? && m[j].has)
  }

  /** A fixed-count array is empty or full. */
  ghost predicate Complete(f: Field, fv: FieldValue) {
    f.rule.FixedCount? && fv.Many? ==> fv.items == [] || |fv.items| == f.rule.max
  }

  ghost predicate HeldMessage(fields: seq<Field>, m: seq<FieldValue>)
    decreases fields
  {
    && |m| == |fields| && UnionsOk(fields, m)
    && forall i :: 0 <= i < |fields| ==> HeldField(fields[i], m[i]) && Complete(fields[i], m[i])
  }

  /** The initial values in the descriptors fit, too. */
  ghost predicate InitialsFit(fields: seq<Field>)
    decreases fields
  {
    forall i :: 0 <= i < |fields| ==> InitialFits(fields[i])
  }

  ghost predicate InitialFits(f: Field)
    decreases f
  {
    if f.ltype.TMessage? then InitialsFit(f.ltype.fields) else f.initial.Some? ==> Held(f.ltype, f.initial.value)
  }

  ghost predicate TypeOk(t: LType) {
    ValidType(t) && (t.TMessage? ==> InitialsFit(t.fields))
  }

  lemma {:induction false} DefaultsHeld(fields: seq<Field>)
    requires ValidFields(fields) && InitialsFit(fields)
    ensures HeldMessage(fields, DefaultMessage(fields))
    decreases fields
  {
    forall i | 0 <= i < |fields|
      ensures HeldField(fields[i], DefaultField(fields[i])) && Complete(fields[i], DefaultField(fields[i]))
    {
      DefaultHeld(fields[i]);
    }
  }

  lemma {:induction false} DefaultHeld(f: Field)
    requires ValidField(f) && InitialFits(f)
    ensures HeldField(f, DefaultField(f)) && Complete(f, DefaultField(f)) && Held(f.ltype, ZeroValue(f.ltype)) && Held(f.ltype, DefaultValue(f))
    decreases f
  {
    ZeroHeld(f.ltype);
  }

  lemma {:induction false} ZeroHeld(t: LType)
    requires TypeOk(t)
    ensures Held(t, ZeroValue(t))
    decreases t
  {
    if t.TMessage? {
      DefaultsHeld(t.fields);
    }
  }

  lemma {:induction false} ScalarHeld(t: LType, bs: Bytes)
    requires Packable(t) && ValidType(t) && ReadScalar(t, bs).Some?
    ensures Held(t, VInt(ReadScalar(t, bs).value.0))
  {
    hide ReadVarint32, ReadWord;
    if IsInteger(t) {
    } else if t.TFixed64? {
      hide DecodeFixed32;
    }
  }

  lemma {:induction false} UpToZeroHeld(b: Bytes)
    ensures |UpToZero(b)| <= |b| && 0 !in UpToZero(b)
  {
    if b != [] {
      UpToZeroHeld(b[1..]);
    }
  }

  lemma {:induction false} PackedHeld(t: LType, items: seq<Value>, max: nat, bs: Bytes)
    requires Packable(t) && ValidType(t) && |items| <= max && forall k :: 0 <= k < |items| ==> Held(t, items[k])
    ensures var r := ReadPacked(t, items, max, bs);
        r.Some? ==> |r.value.0| <= max && forall k :: 0 <= k < |r.value.0| ==> Held(t, r.value.0[k])
    decreases |bs|
  {
    hide ReadScalar, Held;
    if bs != [] && |items| < max && ReadScalar(t, bs).Some? {
      var (i, rest) := ReadScalar(t, bs).value;
      ScalarHeld(t, bs);
      PackedHeld(t, items + [VInt(i)], max, rest);
    }
  }

  /** A decoded value fits, if a submessage starts from one that does. */
  lemma {:induction false} ValueHeld(t: LType, start: Value, bs: Bytes)
    requires TypeOk(t) && (t.TMessage? ==> Held(t, start)) && ReadValue(t, start, bs).Some?
    ensures Held(t, ReadValue(t, start, bs).value.0)
    decreases |bs|, 0
  {
    hide ReadScalar, ReadString, ReadMessage, HeldMessage, ValidFields, InitialsFit;
    if Packable(t) {
      ScalarHeld(t, bs);
    } else {
      var (b, rest) := ReadString(bs).value;
      if t.TString? {
        UpToZeroHeld(b);
      } else if t.TMessage? {
        MessageHeld(t.fields, start.m, b);
      }
    }
  }

  /** Decoding in progress: all fits, and only the array that is being filled may be incomplete. */
  ghost predicate HeldState(fields: seq<Field>, st: State) {
    && |st.m| == |fields| && UnionsOk(fields, st.m)
    && forall i :: 0 <= i < |fields| ==>
        HeldField(fields[i], st.m[i]) && (st.fixed != Some(i) ==> Complete(fields[i], st.m[i]))
  }

  lemma PrepareHeld(fields: seq<Field>, st: State, i: nat)
    requires HeldState(fields, st) && i < |fields| && Prepare(fields, st, i).Some?
    ensures HeldState(fields, Prepare(fields, st, i).value)
    ensures fields[i].rule.FixedCount? ==> Prepare(fields, st, i).value.fixed == Some(i)
  {
    hide Held;
    var p := Prepare(fields, st, i).value;
    forall j | 0 <= j < |fields| ensures HeldField(fields[j], p.m[j]) && (p.fixed != Some(j) ==> Complete(fields[j], p.m[j])) {
      if st.fixed == Some(j) && p.fixed != Some(j) {
        assert HeldField(fields[j], st.m[j]);
      }
    }
  }

  lemma StartHeld(fields: seq<Field>, st: State, i: nat)
    requires ValidFields(fields) && InitialsFit(fields) && HeldState(fields, st) && i < |fields|
    ensures Held(fields[i].ltype, StartValue(fields[i], st.m[i]))
  {
    hide Held, ZeroValue;
    assert HeldField(fields[i], st.m[i]);
    DefaultHeld(fields[i]);
  }

  lemma StoreHeld(fields: seq<Field>, st: State, i: nat, v: Value)
    requires ValidFields(fields) && InitialsFit(fields) && HeldState(fields, st) && i < |fields| && Held(fields[i].ltype, v)
    requires IsArray(fields[i].rule) ==> |Items(st.m[i])| < fields[i].rule.max
    requires fields[i].rule.FixedCount? ==> st.fixed == Some(i)
    ensures HeldState(fields, st.(m := Store(fields, st.m, i, v)))
  {
    hide Held, DefaultValue, InitialsFit, ValidFields;
    var f, m := fields[i], Store(fields, st.m, i, v);
    assert HeldField(f, st.m[i]);
    forall j | 0 <= j < |fields| ensures HeldField(fields[j], m[j]) && (st.fixed != Some(j) ==> Complete(fields[j], m[j])) {
      Initial(fields, j);
    }
    if f.rule.Oneof? {
      forall j, k | 0 <= j < k < |fields| && SameUnion(fields[j], fields[k])
        ensures !(m[j].Maybe? && m[j].has && m[k].Maybe? && m[k].has)
      {
        if j == i {
          assert SameUnion(fields[i], fields[k]);
        } else if k == i {
          assert SameUnion(fields[i], fields[j]);
        }
      }
    }
  }

  lemma Initial(fields: seq<Field>, j: nat)
    requires ValidFields(fields) && InitialsFit(fields) && j < |fields|
    ensures HeldField(fields[j], DefaultField(fields[j])) && Complete(fields[j], DefaultField(fields[j]))
  {
    hide Held;
    DefaultHeld(fields[j]);
  }

  /** A field keeps it, whatever its bytes. */
  lemma {:induction false} FieldHeld(fields: seq<Field>, st: State, i: nat, wireType: nat, bs: Bytes)
    requires ValidFields(fields) && InitialsFit(fields) && HeldState(fields, st) && i < |fields|
    requires ReadField(fields, st, i, wireType, bs).Some?
    ensures HeldState(fields, ReadField(fields, st, i, wireType, bs).value.0)
    decreases |bs|, 2
  {
    hide Held, Prepare, StartValue, Store, ReadValue, ReadString, ReadPacked, InitialsFit, UnionsOk;
    var p, f := Prepare(fields, st, i).value, fields[i];
    PrepareHeld(fields, st, i);
    FieldType(fields, i);
    assert HeldField(f, p.m[i]);
    if IsArray(f.rule) && wireType == 2 && Packable(f.ltype) {
      PackedHeld(f.ltype, Items(p.m[i]), f.rule.max, ReadString(bs).value.0);
      ItemsHeld(fields, p, i, ReadPacked(f.ltype, Items(p.m[i]), f.rule.max, ReadString(bs).value.0).value.0);
    } else {
      StartHeld(fields, p, i);
      ValueHeld(f.ltype, StartValue(f, p.m[i]), bs);
      StoreHeld(fields, p, i, ReadValue(f.ltype, StartValue(f, p.m[i]), bs).value.0);
    }
  }

  lemma FieldType(fields: seq<Field>, i: nat)
    requires ValidFields(fields) && InitialsFit(fields) && i < |fields|
    ensures TypeOk(fields[i].ltype)
  {
    assert ValidField(fields[i]) && InitialFits(fields[i]);
  }

  lemma ItemsHeld(fields: seq<Field>, st: State, i: nat, items: seq<Value>)
    requires HeldState(fields, st) && i < |fields| && IsArray(fields[i].rule) && |items| <= fields[i].rule.max
    requires forall k :: 0 <= k < |items| ==> Held(fields[i].ltype, items[k])
    requires fields[i].rule.FixedCount? ==> st.fixed == Some(i)
    ensures HeldState(fields, st.(m := st.m[i := Many(items)]))
  {
    hide Held;
  }

  lemma {:induction false} FieldsHeld(fields: seq<Field>, st: State, bs: Bytes)
    requires ValidFields(fields) && InitialsFit(fields) && HeldState(fields, st) && ReadFields(fields, st, bs).Some?
    ensures HeldState(fields, ReadFields(fields, st, bs).value)
    decreases |bs|, 4
  {
    hide Held, HeldState, ReadVarint32, ReadField, ReadFields, SkipField, InitialsFit, ValidFields;
    StateLength(fields, st);
    if bs == [] {
      Decoder.FieldsEnd(fields, st);
    } else {
      Decoder.FieldsStep(fields, st, bs);
      var (word, k) := ReadVarint32(bs).value;
      if word != 0 {
        var (next, rest) := ReadOne(fields, st, word, bs[k..]).value;
        if FindTag(fields, word / 8).Some? {
          FieldHeld(fields, st, FindTag(fields, word / 8).value, word % 8, bs[k..]);
        }
        FieldsHeld(fields, next, rest);
      }
    }
  }

  lemma StateLength(fields: seq<Field>, st: State)
    requires HeldState(fields, st)
    ensures |st.m| == |fields|
  {
  }

  /** Whatever the bytes, a message that is decoded fits its struct: no array or string is longer than its
      place, every number is in range, strings end, fixed-count arrays are empty or full, and of each union
      at most one member is there. */
  lemma {:induction false} MessageHeld(fields: seq<Field>, m: seq<FieldValue>, bs: Bytes)
    requires ValidFields(fields) && InitialsFit(fields) && HeldMessage(fields, m) && ReadMessage(fields, m, bs).Some?
    ensures HeldMessage(fields, ReadMessage(fields, m, bs).value)
    decreases |bs|, 5
  {
    hide Held, ReadFields, InitialsFit, ValidFields, RequiredSeen;
    var st := State(m, {}, None);
    FieldsHeld(fields, st, bs);
    var last := ReadFields(fields, st, bs).value;
    forall i | 0 <= i < |fields| ensures HeldField(fields[i], last.m[i]) && Complete(fields[i], last.m[i]) {
      assert HeldField(fields[i], last.m[i]);
    }
  }

  /** Decode any bytes into a new struct. */
  method DecodeAny(bytes: Bytes, fields: seq<Field>) returns (r: Option<seq<FieldValue>>)
    requires ValidFields(fields) && InitialsFit(fields)
    ensures r.Some? ==> HeldMessage(fields, r.value)
    ensures r.Some? ==> forall i :: 0 <= i < |fields| && fields[i].rule.Required? && |RequiredBefore(fields, i)| < 64 ==>
        fields[i].tag in TagsRead(fields, State(DefaultMessage(fields), {}, None), bytes)
  {
    hide ReadMessage, HeldMessage, InitialsFit, ValidFields;
    DefaultsHeld(fields);
    var stream := new Decoder.IStream(bytes);
    r := Decoder.DecodeNoinit(stream, fields, DefaultMessage(fields));
    if r.Some? {
      MessageHeld(fields, DefaultMessage(fields), bytes);
      forall i | 0 <= i < |fields| && fields[i].rule.Required? && |RequiredBefore(fields, i)| < 64
        ensures fields[i].tag in TagsRead(fields, State(DefaultMessage(fields), {}, None), bytes)
      {
        RequiredWereRead(fields, DefaultMessage(fields), bytes, i);
      }
    }
  }
}
