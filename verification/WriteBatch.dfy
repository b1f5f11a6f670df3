/** Write batches as bytes: a header of a sequence number and a count, and one record for each update. */
module WriteBatches {
  import opened InternalKeys
  import opened Coding
  import opened WriteQueues

  const HEADER := 12

  /** An update that a batch can hold: a deletion has no value. */
  predicate OpFits(op: Op) {
    |op.key| < U32 && |op.value| < U32 && (op.kind == Deletion ==> op.value == [])
  }

  ghost predicate OpsFit(ops: seq<Op>) {
    |ops| < U32 && forall i :: 0 <= i < |ops| ==> OpFits(ops[i])
  }

  function RecordBytes(op: Op): Bytes {
    if op.kind == Value then [1] + (LengthPrefixed(op.key) + LengthPrefixed(op.value)) else [0] + LengthPrefixed(op.key)
  }

  function Records(ops: seq<Op>): Bytes {
    if ops == [] then [] else Records(ops[..|ops| - 1]) + RecordBytes(ops[|ops| - 1])
  }

  function BatchBytes(sequence: nat, ops: seq<Op>): Bytes
    requires sequence < U64 && |ops| < U32
  {
    Fixed64(sequence) + Fixed32(|ops|) + Records(ops)
  }

  // ----- Reading -----

  /** One record; None for an unknown tag or a string that is cut short. */
  function ReadRecord(bs: Bytes): (r: Option<(Op, Bytes)>)
    requires bs != []
    ensures r.Some? ==> |r.value.1| < |bs|
  {
    hide ReadWord;
    if bs[0] == 1 then
      var key := ReadLengthPrefixed(bs[1..]);
      if key.None? then None
      else
        var value := ReadLengthPrefixed(key.value.1);
        if value.None? then None else Some((Op(Value, key.value.0, value.value.0), value.value.1))
    else if bs[0] == 0 then
      var key := ReadLengthPrefixed(bs[1..]);
      if key.None? then None else Some((Op(Deletion, key.value.0, []), key.value.1))
    else None
  }

  /** The records up to the first that is no good, and whether there was none such. */
  function ReadRecords(bs: Bytes): (seq<Op>, bool)
    decreases |bs|
  {
    if bs == [] then ([], true)
    else
      var first := ReadRecord(bs);
      if first.None? then ([], false)
      else
        var others := ReadRecords(first.value.1);
        ([first.value.0] + others.0, others.1)
  }

  lemma RecordRoundTrip(op: Op, rest: Bytes)
    requires OpFits(op)
    ensures ReadRecord(RecordBytes(op) + rest) == Some((op, rest))
  {
    hide LengthPrefixed, ReadLengthPrefixed;
    var bs := RecordBytes(op) + rest;
    if op.kind == Value {
      assert bs[1..] == LengthPrefixed(op.key) + (LengthPrefixed(op.value) + rest);
      LengthPrefixedRoundTrip(op.key, LengthPrefixed(op.value) + rest);
      LengthPrefixedRoundTrip(op.value, rest);
    } else {
      assert bs[1..] == LengthPrefixed(op.key) + rest;
      LengthPrefixedRoundTrip(op.key, rest);
    }
  }

  /** Reading written records, and what follows them, gives them back. */
  lemma {:induction false} RecordsRoundTrip(ops: seq<Op>, rest: Bytes)
    requires OpsFit(ops)
    ensures ReadRecords(Records(ops) + rest) == (ops + ReadRecords(rest).0, ReadRecords(rest).1)
    decreases |ops|
  {
    hide RecordBytes, ReadRecord, OpFits, ReadRecords;
    var after := ReadRecords(rest).0;
    if ops == [] {
      assert Records(ops) + rest == rest && ops + after == after;
    } else {
      var n := |ops| - 1;
      var before, last := ops[..n], ops[n];
      var bs := RecordBytes(last) + rest;
      assert Records(ops) + rest == Records(before) + bs;
      RecordsRoundTrip(before, bs);
      FirstRecord(last, rest);
      hide Records;
      assert before + ([last] + after) == ops + after;
    }
  }

  lemma FirstRecord(op: Op, rest: Bytes)
    requires OpFits(op)
    ensures ReadRecords(RecordBytes(op) + rest) == ([op] + ReadRecords(rest).0, ReadRecords(rest).1)
  {
    RecordRoundTrip(op, rest);
    hide ReadRecord;
    assert RecordBytes(op) != [];
  }

  lemma RecordsOneMore(ops: seq<Op>, op: Op)
    ensures Records(ops + [op]) == Records(ops) + RecordBytes(op)
  {
    assert (ops + [op])[..|ops|] == ops;
  }

  lemma {:induction false} RecordsAppend(a: seq<Op>, b: seq<Op>)
    ensures Records(a + b) == Records(a) + Records(b)
    decreases |b|
  {
    hide RecordBytes;
    if b == [] {
      assert a + b == a && Records(a) + [] == Records(a);
    } else {
      var n := |b| - 1;
      RecordsAppend(a, b[..n]);
      RecordsOneMore(a + b[..n], b[n]);
      assert a + b[..n] + [b[n]] == a + b;
      hide Records;
      assert Records(a) + Records(b[..n]) + RecordBytes(b[n]) == Records(a) + (Records(b[..n]) + RecordBytes(b[n]));
      RecordsOneMore(b[..n], b[n]);
      assert b[..n] + [b[n]] == b;
    }
  }

  // ----- The memtable side -----

  /** Puts the updates of a batch into a memtable, numbering them from the batch's sequence number on. */
  class MemTableInserter {
    var sequence: nat
    var mem: seq<MemEntry>

    constructor (first: nat, table: seq<MemEntry>)
      ensures sequence == first && mem == table
    {
      sequence, mem := first, table;
    }

    method Put(key: Bytes, value: Bytes)
      modifies this
      ensures mem == old(mem) + [MemEntry(old(sequence), Op(Value, key, value))] && sequence == old(sequence) + 1
    {
      mem := mem + [MemEntry(sequence, Op(Value, key, value))];
      sequence := sequence + 1;
    }

    method Delete(key: Bytes)
      modifies this
      ensures mem == old(mem) + [MemEntry(old(sequence), Op(Deletion, key, []))] && sequence == old(sequence) + 1
    {
      mem := mem + [MemEntry(sequence, Op(Deletion, key, []))];
      sequence := sequence + 1;
    }
  }

  // ----- The batch -----

  class WriteBatch {
    var rep: Bytes
    ghost var sequence: nat
    ghost var ops: seq<Op>

    ghost predicate Inv()
      reads this
    {
      sequence < U64 && OpsFit(ops) && rep == BatchBytes(sequence, ops)
    }

    constructor ()
      ensures Inv() && ops == [] && sequence == 0
    {
      rep := Fixed64(0) + Fixed32(0);
      sequence, ops := 0, [];
    }

    method Clear()
      modifies this
      ensures Inv() && ops == [] && sequence == 0
    {
      rep := Fixed64(0) + Fixed32(0);
      sequence, ops := 0, [];
    }

    function Count(): nat
      reads this
      requires |rep| >= HEADER
    {
      DecodeFixed32(rep[8..])
    }

    /** The count in the header is the number of updates. */
    lemma CountIs()
      requires Inv()
      ensures |rep| >= HEADER && Count() == |ops| && DecodeFixed64(rep) == sequence && rep[HEADER..] == Records(ops)
    {
      hide Fixed32, DecodeFixed32, Fixed64, DecodeFixed64, Records;
      var count, records := Fixed32(|ops|), Records(ops);
      assert rep == Fixed64(sequence) + (count + records);
      assert rep[8..] == count + records;
      Fixed32RoundTrip(|ops|, records);
      Fixed64RoundTrip(sequence, count + records);
      assert rep[HEADER..] == records;
    }

    method SetSequence(s: nat)
      requires Inv() && s < U64
      modifies this
      ensures Inv() && sequence == s && ops == old(ops)
    {
      hide Fixed32, Fixed64, Records, OpFits;
      var count := Fixed32(|ops|);
      assert rep[8..] == count + Records(ops);
      rep := Fixed64(s) + rep[8..];
      sequence := s;
      assert rep == Fixed64(s) + count + Records(ops);
    }

    method Put(key: Bytes, value: Bytes)
      requires Inv() && |key| < U32 && |value| < U32 && |ops| + 1 < U32
      modifies this
      ensures Inv() && ops == old(ops) + [Op(Value, key, value)] && sequence == old(sequence)
    {
      AddRecord([1] + (LengthPrefixed(key) + LengthPrefixed(value)), Op(Value, key, value));
    }

    method Delete(key: Bytes)
      requires Inv() && |key| < U32 && |ops| + 1 < U32
      modifies this
      ensures Inv() && ops == old(ops) + [Op(Deletion, key, [])] && sequence == old(sequence)
    {
      AddRecord([0] + LengthPrefixed(key), Op(Deletion, key, []));
    }

    method AddRecord(record: Bytes, ghost op: Op)
      requires Inv() && OpFits(op) && record == RecordBytes(op) && |ops| + 1 < U32
      modifies this
      ensures Inv() && ops == old(ops) + [op] && sequence == old(sequence)
    {
      hide Fixed32, Fixed64, RecordBytes, OpFits, DecodeFixed64, DecodeFixed32, Records;
      CountIs();
      var n := Count() + 1;
      RecordsOneMore(ops, op);
      SameHeader();
      rep := rep[..8] + Fixed32(n) + rep[HEADER..];
      ghost var records := Records(ops);
      assert rep == Fixed64(sequence) + Fixed32(n) + records;
      rep := rep + record;
      assert rep == Fixed64(sequence) + Fixed32(n) + (records + record);
      ops := ops + [op];
    }

    lemma SameHeader()
      requires Inv()
      ensures |rep| >= HEADER && rep[..8] == Fixed64(sequence)
    {
    }

    /** Add all updates of another batch. */
    method Append(source: WriteBatch)
      requires Inv() && source.Inv() && |ops| + |source.ops| < U32
      modifies this
      ensures Inv() && ops == old(ops) + old(source.ops) && sequence == old(sequence)
    {
      hide Fixed32, Fixed64, RecordBytes, OpFits, DecodeFixed64, DecodeFixed32, Records;
      CountIs();
      source.CountIs();
      SameHeader();
      var n := Count() + source.Count();
      var tail := source.rep[HEADER..];
      RecordsAppend(ops, source.ops);
      ghost var records, more := Records(ops), ops + source.ops;
      rep := rep[..8] + Fixed32(n) + rep[HEADER..];
      assert rep == Fixed64(sequence) + Fixed32(n) + records;
      rep := rep + tail;
      assert rep == Fixed64(sequence) + Fixed32(n) + (records + tail);
      ops := more;
    }

    /** Hand each update to an inserter; whether all records were good and as many as the header says. */
    method Iterate(handler: MemTableInserter) returns (ok: bool)
      modifies handler
      ensures |rep| < HEADER ==> !ok && handler.mem == old(handler.mem)
      ensures |rep| >= HEADER ==>
          var read := ReadRecords(rep[HEADER..]);
          && handler.mem == old(handler.mem) + Numbered(old(handler.sequence), read.0)
          && (ok <==> read.1 && |read.0| == Count())
    {
      hide ReadRecord, DecodeFixed32;
      if |rep| < HEADER {
        return false;  // too small
      }
      var input := rep[HEADER..];
      var found := 0;
      ghost var seen: seq<Op> := [];
      assert seen + ReadRecords(input).0 == ReadRecords(input).0;
      while input != []
        invariant found == |seen| && handler.sequence == old(handler.sequence) + |seen|
        invariant handler.mem == old(handler.mem) + Numbered(old(handler.sequence), seen)
        invariant ReadRecords(rep[HEADER..]) == (seen + ReadRecords(input).0, ReadRecords(input).1)
        decreases |input|
      {
        found := found + 1;
        ghost var next := ReadRecord(input);
        var rest := HandleRecord(handler, input);
        if rest.None? {
          return false;
        }
        ghost var op := next.value.0;
        assert Numbered(old(handler.sequence), seen + [op]) == Numbered(old(handler.sequence), seen) + [MemEntry(old(handler.sequence) + |seen|, op)];
        assert seen + ([op] + ReadRecords(rest.value).0) == seen + [op] + ReadRecords(rest.value).0;
        seen := seen + [op];
        input := rest.value;
      }
      ok := found == Count();
    }

    method HandleRecord(handler: MemTableInserter, input: Bytes) returns (rest: Option<Bytes>)
      requires input != []
      modifies handler
      ensures var next := ReadRecord(input);
          if next.None? then rest == None && handler.mem == old(handler.mem) && handler.sequence == old(handler.sequence)
          else
            && rest == Some(next.value.1) && handler.sequence == old(handler.sequence) + 1
            && handler.mem == old(handler.mem) + [MemEntry(old(handler.sequence), next.value.0)]
    {
      hide ReadLengthPrefixed;
      rest := None;
      var tag := input[0];
      if tag == 1 {
        var key := GetLengthPrefixedSlice(input[1..]);
        if key.Some? {
          var value := GetLengthPrefixedSlice(key.value.1);
          if value.Some? {
            handler.Put(key.value.0, value.value.0);
            rest := Some(value.value.1);
          }
        }
      } else if tag == 0 {
        var key := GetLengthPrefixedSlice(input[1..]);
        if key.Some? {
          handler.Delete(key.value.0);
          rest := Some(key.value.1);
        }
      }
    }

    /** Every update of the batch goes into the memtable, under consecutive sequence numbers. */
    method InsertInto(mem: seq<MemEntry>) returns (r: seq<MemEntry>, ok: bool)
      requires Inv()
      ensures ok && r == mem + Numbered(sequence, ops)
    {
      CountIs();
      hide Records, ReadRecords, DecodeFixed64, Count;
      RecordsRoundTrip(ops, []);
      NothingToRead();
      assert Records(ops) + [] == Records(ops) && ops + [] == ops;
      var inserter := new MemTableInserter(DecodeFixed64(rep), mem);
      ok := Iterate(inserter);
      r := inserter.mem;
    }
  }

  lemma NothingToRead()
    ensures ReadRecords([]) == ([], true)
  {
  }
}
