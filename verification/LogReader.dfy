/** Reading a log back: physical records out of blocks, logical records out of fragments, and what
    is left of a log whose file was cut short. */
module LogReading {
  import opened InternalKeys
  import opened Coding
  import opened Log
  import opened Slices

  const EOF := 5
  const BAD := 6

  /** The next fragment after p bytes of the log. */
  ghost predicate FragmentAt(crc: Checksum, log: Bytes, p: nat, kind: Byte, payload: Bytes) {
    var s := FragmentStart(p);
    && FULL <= kind <= LAST
    && s % BLOCK + HEADER + |payload| <= BLOCK
    && s + HEADER + |payload| <= |log|
    && log[s..s + HEADER + |payload|] == Physical(crc, kind, payload)
  }

  /** The length in a header. */
  function LengthIn(header: Bytes): nat
    requires |header| >= HEADER
  {
    var a: int, b: int := header[4], header[5];
    a + 256 * b
  }

  /** A fragment found in any file: where it starts, its type, and what it carries. */
  datatype Found = Found(start: nat, kind: int, payload: Bytes)

  /** The bytes there are a header with this type and length, and the stored checksum is that of type and
      payload. */
  ghost predicate Genuine(crc: Checksum, file: Bytes, f: Found) {
    && f.start + HEADER + |f.payload| <= |file|
    && |f.payload| == LengthIn(file[f.start..]) && f.kind == file[f.start + 6]
    && f.payload == file[f.start + HEADER..f.start + HEADER + |f.payload|]
    && Unmask(DecodeFixed32(file[f.start..])) == crc(file[f.start + 6..f.start + HEADER + |f.payload|])
  }

  function FoundEnd(f: Found): nat {
    f.start + HEADER + |f.payload|
  }

  ghost predicate Follows(f: Found, g: Found) {
    g.start == FragmentStart(FoundEnd(f))
  }

  /** Genuine fragments, each right after the one before. */
  ghost predicate InARow(crc: Checksum, file: Bytes, fs: seq<Found>) {
    && (forall i :: 0 <= i < |fs| ==> Genuine(crc, file, fs[i]))
    && (forall i, j :: 0 <= i && j == i + 1 < |fs| ==> Follows(fs[i], fs[j]))
  }

  /** The beginning of a record: a first fragment and middle ones. */
  ghost predicate Opens(fs: seq<Found>) {
    fs != [] && fs[0].kind == FIRST && forall i :: 0 < i < |fs| ==> fs[i].kind == MIDDLE
  }

  /** A whole record: one full fragment, or a first one, middle ones and a last one. */
  ghost predicate Whole(fs: seq<Found>) {
    fs != [] && if |fs| == 1 then fs[0].kind == FULL else Opens(fs[..|fs| - 1]) && fs[|fs| - 1].kind == LAST
  }

  function Payloads(fs: seq<Found>): Bytes {
    if fs == [] then [] else Payloads(fs[..|fs| - 1]) + fs[|fs| - 1].payload
  }

  lemma OneMoreInARow(crc: Checksum, file: Bytes, fs: seq<Found>, f: Found)
    requires InARow(crc, file, fs) && Genuine(crc, file, f)
    requires fs != [] ==> Follows(fs[|fs| - 1], f)
    ensures InARow(crc, file, fs + [f]) && Payloads(fs + [f]) == Payloads(fs) + f.payload
    ensures Opens(fs) && f.kind == MIDDLE ==> Opens(fs + [f])
    ensures Opens(fs) && f.kind == LAST ==> Whole(fs + [f])
  {
    hide Genuine, Follows, Payloads, Opens, Whole;
    PayloadsMore(fs, f);
    StillOpen(fs, f);
    var more := fs + [f];
    forall i | 0 <= i < |more| ensures Genuine(crc, file, more[i]) {
    }
    forall i, j | 0 <= i && j == i + 1 < |more| ensures Follows(more[i], more[j]) {
      if j < |fs| {
        assert more[i] == fs[i] && more[j] == fs[j];
      }
    }
  }

  lemma StillOpen(fs: seq<Found>, f: Found)
    ensures Opens(fs) && f.kind == MIDDLE ==> Opens(fs + [f])
    ensures Opens(fs) && f.kind == LAST ==> Whole(fs + [f])
  {
    var more := fs + [f];
    if Opens(fs) {
      assert more[0] == fs[0] && more[|more| - 1] == f;
      assert more[..|more| - 1] == fs;
    }
  }

  lemma PayloadsMore(fs: seq<Found>, f: Found)
    ensures Payloads(fs + [f]) == Payloads(fs) + f.payload
  {
    assert (fs + [f])[..|fs|] == fs;
  }

  lemma PayloadOfOne(f: Found)
    ensures Payloads([f]) == f.payload
  {
    assert [f][..0] == [];
  }

  lemma OneInARow(crc: Checksum, file: Bytes, f: Found)
    requires Genuine(crc, file, f)
    ensures InARow(crc, file, [f]) && Payloads([f]) == f.payload && (f.kind == FIRST ==> Opens([f])) && (f.kind == FULL ==> Whole([f]))
  {
    assert [f][..0] == [];
  }

  /** The log goes on after p bytes with a record, or with the rest of one. */
  ghost predicate RecordAt(crc: Checksum, log: Bytes, p: nat, record: Bytes, begin: bool) {
    var bs := RecordBytes(crc, p, record, begin);
    p + |bs| <= |log| && log[p..p + |bs|] == bs
  }

  function RecordEnd(crc: Checksum, p: nat, record: Bytes, begin: bool): nat {
    p + |RecordBytes(crc, p, record, begin)|
  }

  lemma RecordStartsWithFragment(crc: Checksum, log: Bytes, p: nat, record: Bytes, begin: bool)
    requires RecordAt(crc, log, p, record, begin)
    ensures var n := FragmentLength(p, |record|);
        var q := FragmentStart(p) + HEADER + n;
        var end := n == |record|;
        && FragmentAt(crc, log, p, FragmentType(begin, end), record[..n])
        && (end ==> RecordEnd(crc, p, record, begin) == q)
        && (!end ==>
              && RecordAt(crc, log, q, record[n..], false)
              && RecordEnd(crc, p, record, begin) == RecordEnd(crc, q, record[n..], false))
  {
    hide RecordBytes, Physical, Zeros;
    RecordStep(crc, p, record, begin);
    var n := FragmentLength(p, |record|);
    var s := FragmentStart(p);
    var q := s + HEADER + n;
    var end := n == |record|;
    var bs := RecordBytes(crc, p, record, begin);
    var fragment := Physical(crc, FragmentType(begin, end), record[..n]);
    var rest := if end then [] else RecordBytes(crc, q, record[n..], false);
    assert bs == Zeros(s - p) + fragment + rest;
    assert log[p..p + |bs|] == bs;
    SliceOfSlice(log, p, p + |bs|, s - p, q - p);
    SliceOfSlice(log, p, p + |bs|, q - p, |bs|);
    assert bs[s - p..q - p] == fragment;
    assert bs[q - p..|bs|] == rest;
  }

  lemma FirstFour(a: Bytes, b: Bytes)
    requires |a| >= 4 && |b| >= 4 && forall i :: 0 <= i < 4 ==> a[i] == b[i]
    ensures DecodeFixed32(a) == DecodeFixed32(b)
  {
  }

  /** A buffer begins with a whole fragment that is as it was written. */
  ghost predicate Sound(crc: Checksum, buffer: Bytes)
    requires |buffer| >= HEADER
  {
    && HEADER + LengthIn(buffer) <= |buffer| && !(buffer[6] == 0 && LengthIn(buffer) == 0)
    && crc(buffer[6..7 + LengthIn(buffer)]) == Unmask(DecodeFixed32(buffer))
  }

  /** It begins with what is no fragment, and is neither cut short by the end of the file nor blank. */
  ghost predicate Corrupt(crc: Checksum, buffer: Bytes, eof: bool)
    requires |buffer| >= HEADER
  {
    if HEADER + LengthIn(buffer) > |buffer| then !eof
    else !(buffer[6] == 0 && LengthIn(buffer) == 0) && !Sound(crc, buffer)
  }

  // ----- What there is to find in any file -----

  /** Where the block that holds s ends, or the file if that ends first. */
  function BlockEnd(file: Bytes, s: nat): nat {
    var e := (s / BLOCK + 1) * BLOCK; if e < |file| then e else |file|
  }

  /** The file ends before the block that holds s does. */
  predicate CutOff(file: Bytes, s: nat) {
    (s / BLOCK + 1) * BLOCK > |file|
  }

  lemma QuotientIs(s: nat, q: int)
    requires q * BLOCK <= s < (q + 1) * BLOCK
    ensures s / BLOCK == q
  {
  }

  lemma OneMorePlace(crc: Checksum, file: Bytes, n: nat)
    ensures Place(crc, file, n + 1) == NextPlace(crc, file, Place(crc, file, n))
    ensures Walk(crc, file, n + 1) == Walk(crc, file, n) + [NextFound(crc, file, Place(crc, file, n))]
  {
  }

  lemma RoomForHeader(file: Bytes, p: nat)
    requires FragmentStart(p) + HEADER <= |file|
    ensures FragmentStart(p) + HEADER <= BlockEnd(file, FragmentStart(p)) <= |file|
  {
    var s := FragmentStart(p);
    assert s % BLOCK + HEADER <= BLOCK && s == s / BLOCK * BLOCK + s % BLOCK;
  }

  /** What the header at s says, and whether that is right, up to the end of the block. */
  ghost function FoundIn(crc: Checksum, s: nat, block: Bytes, cut: bool): Found
    requires |block| >= HEADER
  {
    if Sound(crc, block) then Found(s, block[6], block[HEADER..HEADER + LengthIn(block)])
    else Found(s, if HEADER + LengthIn(block) > |block| && cut then EOF else BAD, [])
  }

  lemma SoundOrNot(crc: Checksum, s: nat, block: Bytes, cut: bool)
    requires |block| >= HEADER
    ensures if Sound(crc, block) then !Corrupt(crc, block, cut) else FoundIn(crc, s, block, cut).kind in {EOF, BAD}
  {
  }

  /** What comes next after p bytes of any file. */
  ghost function NextFound(crc: Checksum, file: Bytes, p: nat): Found {
    var s := FragmentStart(p);
    if s + HEADER > |file| then Found(s, EOF, [])
    else
      RoomForHeader(file, p);
      FoundIn(crc, s, file[s..BlockEnd(file, s)], CutOff(file, s))
  }

  /** Where reading goes on after that: behind a sound fragment, or at the next block. */
  ghost function NextPlace(crc: Checksum, file: Bytes, p: nat): nat {
    var s := FragmentStart(p);
    if s + HEADER > |file| then |file|
    else
      RoomForHeader(file, p);
      var block := file[s..BlockEnd(file, s)];
      if Sound(crc, block) then s + HEADER + LengthIn(block) else BlockEnd(file, s)
  }

  /** The bytes there are damaged, and neither blank nor cut off by the end of the file. */
  ghost predicate Damaged(crc: Checksum, file: Bytes, p: nat) {
    var s := FragmentStart(p);
    s + HEADER <= |file| && (RoomForHeader(file, p); Corrupt(crc, file[s..BlockEnd(file, s)], CutOff(file, s)))
  }

  /** Where reading a file gets to, step by step. */
  ghost function Place(crc: Checksum, file: Bytes, n: nat): nat {
    if n == 0 then 0 else NextPlace(crc, file, Place(crc, file, n - 1))
  }

  /** What the first n steps find. */
  ghost function Walk(crc: Checksum, file: Bytes, n: nat): (fs: seq<Found>)
    ensures |fs| == n
  {
    if n == 0 then [] else Walk(crc, file, n - 1) + [NextFound(crc, file, Place(crc, file, n - 1))]
  }

  /** A record has begun and not ended. */
  ghost predicate IsOpen(fs: seq<Found>) {
    exists k :: 0 <= k < |fs| && Opens(fs[k..])
  }

  /** A record ends with the last fragment. */
  ghost predicate Ends(fs: seq<Found>) {
    exists k :: 0 <= k < |fs| && Whole(fs[k..])
  }

  ghost function Ended(fs: seq<Found>): Bytes
    requires Ends(fs)
  {
    var k :| 0 <= k < |fs| && Whole(fs[k..]); Payloads(fs[k..])
  }

  /** All the whole records, in order. */
  ghost function Records(fs: seq<Found>): seq<Bytes> {
    if fs == [] then [] else Records(fs[..|fs| - 1]) + if Ends(fs) then [Ended(fs)] else []
  }

  /** Bytes of a record are given up, or a fragment is, when f comes after what was found before. */
  ghost predicate Loses(fs: seq<Found>, f: Found) {
    if f.kind == FULL || f.kind == FIRST then exists k :: 0 <= k < |fs| && Opens(fs[k..]) && Payloads(fs[k..]) != []
    else if f.kind == MIDDLE || f.kind == LAST then !IsOpen(fs)
    else if f.kind == BAD then IsOpen(fs)
    else f.kind != EOF
  }

  /** How often corruption is reported in the first n steps. */
  ghost function Reports(crc: Checksum, file: Bytes, n: nat): nat {
    if n == 0 then 0
    else
      var p, fs := Place(crc, file, n - 1), Walk(crc, file, n - 1);
      Reports(crc, file, n - 1)
      + (if Damaged(crc, file, p) then 1 else 0) + (if Loses(fs, NextFound(crc, file, p)) then 1 else 0)
  }

  /** Which records are open or end after one more fragment. */
  lemma OneMoreFound(fs: seq<Found>, f: Found, k: nat)
    requires k <= |fs|
    ensures Opens((fs + [f])[k..]) <==> if k == |fs| then f.kind == FIRST else f.kind == MIDDLE && Opens(fs[k..])
    ensures Whole((fs + [f])[k..]) <==> if k == |fs| then f.kind == FULL else f.kind == LAST && Opens(fs[k..])
  {
    assert (fs + [f])[k..] == fs[k..] + [f];
    OpensOneMore(fs[k..], f);
  }

  lemma OpensOneMore(fs: seq<Found>, f: Found)
    ensures Opens(fs + [f]) <==> if fs == [] then f.kind == FIRST else f.kind == MIDDLE && Opens(fs)
    ensures Whole(fs + [f]) <==> if fs == [] then f.kind == FULL else f.kind == LAST && Opens(fs)
  {
    var now := fs + [f];
    assert now[..|now| - 1] == fs && now[|now| - 1] == f;
    assert forall i :: 0 <= i < |fs| ==> now[i] == fs[i];
  }

  /** A record is open from one place only. */
  lemma OneOpening(fs: seq<Found>, j: nat, k: nat)
    requires j <= k < |fs| && Opens(fs[j..]) && Opens(fs[k..])
    ensures j == k
  {
    assert fs[k..][0] == fs[j..][k - j];
  }

  lemma OneEnding(fs: seq<Found>, j: nat, k: nat)
    requires j <= k < |fs| && Whole(fs[j..]) && Whole(fs[k..])
    ensures j == k
  {
    var n := |fs| - 1;
    assert fs == fs[..n] + [fs[n]];
    OneMoreFound(fs[..n], fs[n], j);
    OneMoreFound(fs[..n], fs[n], k);
    if j < k {
      OneOpening(fs[..n], j, k);
    }
  }

  /** The parts of the record that is open, when there is one. */
  ghost predicate Gathered(fs: seq<Found>, inRecord: bool, parts: seq<Found>) {
    if inRecord then Opens(parts) && |parts| <= |fs| && parts == fs[|fs| - |parts|..] else !IsOpen(fs)
  }

  /** One more fragment: which record it ends, whether one is open then, and whether something is lost. */
  lemma OneMoreStep(fs: seq<Found>, inRecord: bool, parts: seq<Found>, f: Found)
    requires Gathered(fs, inRecord, parts)
    ensures var now := fs + [f];
        && (Ends(now) <==> f.kind == FULL || (f.kind == LAST && inRecord))
        && (f.kind == FULL ==> Ended(now) == f.payload)
        && (f.kind == LAST && inRecord ==> Ended(now) == Payloads(parts) + f.payload)
        && (f.kind == FIRST ==> Gathered(now, true, [f]))
        && (f.kind == MIDDLE && inRecord ==> Gathered(now, true, parts + [f]))
        && (IsOpen(now) <==> f.kind == FIRST || (f.kind == MIDDLE && inRecord))
        && Records(now) == Records(fs) + if Ends(now) then [Ended(now)] else []
    ensures Loses(fs, f) <==>
        if f.kind == FULL || f.kind == FIRST then inRecord && Payloads(parts) != []
        else if f.kind == MIDDLE || f.kind == LAST then !inRecord
        else if f.kind == BAD then inRecord
        else f.kind != EOF
  {
    hide Payloads, Opens, Whole, Records;
    var now := fs + [f];
    assert now[..|fs|] == fs;
    forall k: nat | k <= |fs|
      ensures Opens(now[k..]) <==> if k == |fs| then f.kind == FIRST else f.kind == MIDDLE && Opens(fs[k..])
      ensures Whole(now[k..]) <==> if k == |fs| then f.kind == FULL else f.kind == LAST && Opens(fs[k..])
    {
      OneMoreFound(fs, f, k);
    }
    assert now[|fs|..] == [f];
    if inRecord {
      var k := |fs| - |parts|;
      OpenSince(fs, parts);
      assert now[k..] == parts + [f];
      PayloadsMore(parts, f);
    }
    PayloadOfOne(f);
    RecordsMore(now);
    forall j: nat, k: nat | j <= k < |now| && Whole(now[j..]) && Whole(now[k..]) ensures j == k {
      OneEnding(now, j, k);
    }
  }

  lemma NothingGathered(fs: seq<Found>)
    ensures Gathered(fs, false, []) <==> !IsOpen(fs)
    ensures forall parts :: Gathered(fs, false, parts) <==> !IsOpen(fs)
  {
  }

  lemma OneMoreReport(crc: Checksum, file: Bytes, n: nat)
    ensures Reports(crc, file, n + 1) == Reports(crc, file, n)
        + (if Damaged(crc, file, Place(crc, file, n)) then 1 else 0)
        + (if Loses(Walk(crc, file, n), NextFound(crc, file, Place(crc, file, n))) then 1 else 0)
  {
  }

  lemma RecordsMore(fs: seq<Found>)
    requires fs != []
    ensures Records(fs) == Records(fs[..|fs| - 1]) + if Ends(fs) then [Ended(fs)] else []
  {
  }

  lemma OpenSince(fs: seq<Found>, parts: seq<Found>)
    requires Opens(parts) && |parts| <= |fs| && parts == fs[|fs| - |parts|..]
    ensures |parts| > 0 && IsOpen(fs)
    ensures forall k: nat :: k < |fs| && Opens(fs[k..]) ==> k == |fs| - |parts|
  {
    hide Opens;
    assert |parts| > 0 by {
      NotEmpty(parts);
    }
    forall k: nat | k < |fs| && Opens(fs[k..]) ensures k == |fs| - |parts| {
      if k <= |fs| - |parts| {
        OneOpening(fs, k, |fs| - |parts|);
      } else {
        OneOpening(fs, |fs| - |parts|, k);
      }
    }
  }

  lemma NotEmpty(fs: seq<Found>)
    requires Opens(fs)
    ensures fs != []
  {
  }

  class Reader {
    const crc: Checksum
    const file: Bytes

    var filePos: nat          // how many bytes were read so far
    var buffer: Bytes         // what has been read and not consumed
    var eof: bool             // the last read came up short
    var corruptions: int      // how many times corruption was reported
    ghost var steps: nat      // how many physical records were asked for

    ghost predicate Inv()
      reads this
    {
      && |buffer| <= filePos <= |file| && |buffer| <= BLOCK
      && buffer == file[filePos - |buffer|..filePos]
      && (if eof then filePos == |file| && |buffer| <= |file| % BLOCK else filePos % BLOCK == 0)
    }

    ghost function Pos(): (p: nat)
      requires Inv()
      reads this
      ensures p <= |file|
    {
      filePos - |buffer|
    }

    /** The reader is where its steps lead. */
    ghost predicate OnWay()
      reads this
    {
      Inv() && Pos() == Place(crc, file, steps)
    }

    /** What it has found so far. */
    ghost function Seen(): seq<Found>
      reads this`steps
    {
      Walk(crc, file, steps)
    }

    constructor (sum: Checksum, bytes: Bytes)
      ensures OnWay() && Pos() == 0 && file == bytes && crc == sum && corruptions == 0 && steps == 0
    {
      crc, file := sum, bytes;
      filePos, buffer, eof, corruptions, steps := 0, [], false, 0, 0;
    }

    method ReportCorruption()
      requires Inv()
      modifies this`corruptions
      ensures Inv() && Pos() == old(Pos()) && (OnWay() <==> old(OnWay())) && corruptions == old(corruptions) + 1
    {
      corruptions := corruptions + 1;
    }

    /** Read up to one block into the buffer, dropping what was there. */
    method ReadBlock()
      requires Inv() && !eof
      modifies this`filePos, this`buffer, this`eof
      ensures Inv() && Pos() == old(filePos) && filePos >= old(filePos) && corruptions == old(corruptions)
      ensures eof || filePos > old(filePos)
    {
      var n := if |file| - filePos < BLOCK then |file| - filePos else BLOCK;
      buffer := file[filePos..filePos + n];
      filePos := filePos + n;
      if |buffer| < BLOCK {
        eof := true;
      }
    }

    /** Have at least a header in the buffer, unless the file ends first. */
    method FillBuffer() returns (ok: bool)
      requires Inv()
      modifies this`filePos, this`buffer, this`eof
      ensures Inv() && old(Pos()) <= Pos() && corruptions == old(corruptions)
      ensures ok ==> |buffer| >= HEADER && FragmentStart(old(Pos())) == Pos()
      ensures !ok ==> FragmentStart(old(Pos())) + HEADER > |file| && Pos() == |file|
    {
      hide FragmentStart;
      ghost var s := FragmentStart(Pos());
      while |buffer| < HEADER
        invariant Inv() && old(Pos()) <= Pos() && corruptions == old(corruptions)
        invariant FragmentStart(Pos()) == s
        decreases |file| - filePos, !eof
      {
        if !eof {
          // What is left of a full block is too short for a header
          TrailerSkipped();
          ReadBlock();
        } else {
          // A header cut off by the end: nothing was lost
          StartsLater(Pos());
          buffer := [];
          return false;
        }
      }
      HeaderHere();
      ok := true;
    }

    /** The next fragment of the file, EOF when there is no whole one left, BAD for corruption.
        If the file is a prefix of a log that goes on with a fragment, the fragment comes out when
        the file holds all of it, and EOF otherwise. */
    method ReadPhysicalRecord(ghost log: Bytes, ghost kind: Byte, ghost payload: Bytes)
      returns (result: int, fragment: Bytes)
      requires OnWay()
      modifies this
      ensures OnWay() && Pos() >= old(Pos()) && steps == old(steps) + 1
      ensures Found(FragmentStart(old(Pos())), result, fragment) == NextFound(crc, file, old(Pos()))
      ensures corruptions == old(corruptions) + if Damaged(crc, file, old(Pos())) then 1 else 0
      ensures result != EOF ==> Pos() > old(Pos())
      ensures old(Pos()) == |file| ==> result == EOF && corruptions == old(corruptions)
      ensures file <= log && FragmentAt(crc, log, old(Pos()), kind, payload) ==>
          && corruptions == old(corruptions)
          && var q := FragmentStart(old(Pos())) + HEADER + |payload|;
          if q <= |file| then result == kind && fragment == payload && Pos() == q else result == EOF
      ensures result != EOF && result != BAD ==>
          && corruptions == old(corruptions)
          && var f := Found(FragmentStart(old(Pos())), result, fragment); Genuine(crc, file, f) && Pos() == FoundEnd(f)
    {
      hide FragmentAt, Genuine, Place, FoundIn, Sound, Corrupt;
      StartsLater(Pos());
      ghost var p := Pos();
      OneMorePlace(crc, file, steps);
      var ok := FillBuffer();
      if ok {
        Relocate(log, p, kind, payload);
        RoomForHeader(file, p);
        BufferIsBlock();
        SoundOrNot(crc, Pos(), buffer, eof);
        result, fragment := ParseFragment(log, kind, payload);
      } else {
        result, fragment := EOF, [];
      }
      steps := steps + 1;
    }

    /** The buffer holds the file up to the end of the block. */
    lemma BufferIsBlock()
      requires Inv() && |buffer| >= HEADER
      ensures filePos == BlockEnd(file, Pos()) && buffer == file[Pos()..BlockEnd(file, Pos())]
      ensures eof <==> CutOff(file, Pos())
    {
      var s := Pos();
      assert s == s / BLOCK * BLOCK + s % BLOCK;
      if eof {
        assert |file| == |file| / BLOCK * BLOCK + |file| % BLOCK;
        assert s >= |file| / BLOCK * BLOCK;
        QuotientIs(s, |file| / BLOCK);
      } else {
        assert filePos == filePos / BLOCK * BLOCK;
        QuotientIs(s, filePos / BLOCK - 1);
      }
    }

    /** The buffer shows what is in the file. */
    lemma BufferInFile()
      requires Inv()
      ensures forall i :: 0 <= i < |buffer| ==> buffer[i] == file[Pos() + i]
      ensures forall i, j :: 0 <= i <= j <= |buffer| ==> buffer[i..j] == file[Pos() + i..Pos() + j]
      ensures |buffer| >= 4 ==> DecodeFixed32(buffer) == DecodeFixed32(file[Pos()..])
    {
      hide DecodeFixed32;
      forall i, j | 0 <= i <= j <= |buffer| ensures buffer[i..j] == file[Pos() + i..Pos() + j] {
        SliceOfSlice(file, filePos - |buffer|, filePos, i, j);
      }
      if |buffer| >= 4 {
        FirstFour(buffer, file[Pos()..]);
      }
    }

    lemma Relocate(log: Bytes, p: nat, kind: Byte, payload: Bytes)
      ensures FragmentStart(FragmentStart(p)) == FragmentStart(p)
      ensures FragmentAt(crc, log, p, kind, payload) ==> FragmentAt(crc, log, FragmentStart(p), kind, payload)
    {
    }

    method ParseFragment(ghost log: Bytes, ghost kind: Byte, ghost payload: Bytes)
      returns (result: int, fragment: Bytes)
      requires Inv() && |buffer| >= HEADER && FragmentStart(Pos()) == Pos()
      modifies this`buffer, this`corruptions
      ensures Inv()
      ensures Pos() > old(Pos()) && Found(old(Pos()), result, fragment) == FoundIn(crc, old(Pos()), old(buffer), eof)
      ensures Pos() == if Sound(crc, old(buffer)) then old(Pos()) + HEADER + LengthIn(old(buffer)) else filePos
      ensures file <= log && FragmentAt(crc, log, old(Pos()), kind, payload) ==>
          && corruptions == old(corruptions)
          && var q := old(Pos()) + HEADER + |payload|;
          if q <= |file| then result == kind && fragment == payload && Pos() == q else result == EOF
      ensures result != EOF && result != BAD ==>
          var f := Found(old(Pos()), result, fragment); Genuine(crc, file, f) && Pos() == FoundEnd(f)
      ensures corruptions == old(corruptions) + if Corrupt(crc, old(buffer), eof) then 1 else 0
      ensures if Sound(crc, old(buffer)) then result == old(buffer)[6] else Pos() == filePos && (result == EOF || result == BAD)
      ensures eof == old(eof) && filePos == old(filePos)
    {
      hide FragmentAt, Mask, Unmask, DecodeFixed32, FragmentStart, FoundIn;
      if file <= log && FragmentAt(crc, log, Pos(), kind, payload) {
        HeaderParses(log, Pos(), kind, payload);
      }
      BufferInFile();
      result, fragment := Parse();
    }

    /** Take the fragment off the buffer, or drop the buffer. */
    method Parse() returns (result: int, fragment: Bytes)
      requires Inv() && |buffer| >= HEADER
      modifies this`buffer, this`corruptions
      ensures Inv() && Pos() > old(Pos())
      ensures corruptions == old(corruptions) + if Corrupt(crc, old(buffer), eof) then 1 else 0
      ensures var was, n := old(buffer), LengthIn(old(buffer));
          if Sound(crc, was) then result == was[6] && fragment == was[HEADER..HEADER + n] && buffer == was[HEADER + n..]
          else buffer == [] && result == if HEADER + n > |was| && eof then EOF else BAD
      ensures Found(old(Pos()), result, fragment) == FoundIn(crc, old(Pos()), old(buffer), eof)
      ensures Pos() == if Sound(crc, old(buffer)) then old(Pos()) + HEADER + LengthIn(old(buffer)) else filePos
    {
      hide Unmask, DecodeFixed32;
      var a: int, b: int, kindByte: int := buffer[4], buffer[5], buffer[6];
      var length := a + 256 * b;
      if HEADER + length > |buffer| {
        buffer := [];
        if !eof {
          ReportCorruption();
          return BAD, [];
        }
        // A fragment cut off by the end of the file
        return EOF, [];
      }

      if kindByte == 0 && length == 0 {
        // Blank space from preallocation is no corruption
        buffer := [];
        return BAD, [];
      }

      var expected := Unmask(DecodeFixed32(buffer));
      var actual := crc(buffer[6..7 + length]);
      if actual != expected {
        buffer := [];
        ReportCorruption();
        return BAD, [];
      }
      fragment := buffer[HEADER..HEADER + length];
      buffer := buffer[HEADER + length..];
      result := kindByte;
    }

    /** Put a fragment to the record that is being gathered.  The record that it ends, if it ends one, is in
        the scratch then. */
    method Assemble(recordType: int, fragment: Bytes, inFragmentedRecord: bool, scratch: Bytes,
                    ghost seen: seq<Found>, ghost parts: seq<Found>, ghost f: Found)
      returns (done: bool, found: bool, inFragmentedRecord': bool, scratch': Bytes, ghost parts': seq<Found>)
      requires Inv() && f.kind == recordType && f.payload == fragment
      requires Gathered(seen, inFragmentedRecord, parts) && (inFragmentedRecord ==> scratch == Payloads(parts))
      modifies this`corruptions
      ensures Inv() && Pos() == old(Pos()) && corruptions == old(corruptions) + if Loses(seen, f) then 1 else 0
      ensures Records(seen + [f]) == Records(seen) + if found then [scratch'] else []
      ensures !done ==> !found && Gathered(seen + [f], inFragmentedRecord', parts') && (inFragmentedRecord' ==> scratch' == Payloads(parts'))
      ensures done ==> !IsOpen(seen + [f])
      ensures done <==> recordType == FULL || recordType == EOF || (recordType == LAST && inFragmentedRecord)
      ensures done ==> (found <==> recordType != EOF)
      ensures recordType == FULL || recordType == FIRST ==> scratch' == fragment && parts' == [f] && (!inFragmentedRecord ==> !Loses(seen, f))
      ensures inFragmentedRecord && (recordType == MIDDLE || recordType == LAST) ==>
          scratch' == scratch + fragment && parts' == parts + [f] && !Loses(seen, f)
      ensures recordType == EOF ==> !Loses(seen, f)
      ensures !done && inFragmentedRecord' ==> recordType == FIRST || (recordType == MIDDLE && inFragmentedRecord)
      ensures recordType == FIRST || (recordType == MIDDLE && inFragmentedRecord) ==> inFragmentedRecord'
    {
      hide Inv, Pos, Gathered, IsOpen, Ends, Ended, Records, Loses, Payloads, Opens;
      OneMoreStep(seen, inFragmentedRecord, parts, f);
      PayloadsMore(parts, f);
      PayloadOfOne(f);
      NothingGathered(seen + [f]);
      done, found, inFragmentedRecord', scratch', parts' := false, false, inFragmentedRecord, scratch, parts;
      match recordType {
        case 1 =>
          if inFragmentedRecord && scratch != [] {
            // partial record without end(1)
            ReportCorruption();
          }
          done, found, scratch', parts' := true, true, fragment, [f];
        case 2 =>
          if inFragmentedRecord && scratch != [] {
            // partial record without end(2)
            ReportCorruption();
          }
          inFragmentedRecord', scratch', parts' := true, fragment, [f];
        case 3 =>
          if !inFragmentedRecord {
            // missing start of fragmented record(1)
            ReportCorruption();
          } else {
            scratch', parts' := scratch + fragment, parts + [f];
          }
        case 4 =>
          if !inFragmentedRecord {
            // missing start of fragmented record(2)
            ReportCorruption();
          } else {
            done, found, scratch', parts' := true, true, scratch + fragment, parts + [f];
          }
        case 5 =>
          // The writer may have died before completing the record: not a corruption
          done := true;
        case 6 =>
          if inFragmentedRecord {
            // error in middle of record
            ReportCorruption();
            inFragmentedRecord', scratch' := false, [];
          }
        case _ =>
          // unknown record type
          ReportCorruption();
          inFragmentedRecord', scratch' := false, [];
      }
    }

    /** Read the next fragment and put it to the record that is being gathered. */
    method Gather(ghost log: Bytes, ghost kind: Byte, ghost payload: Bytes, inFragmentedRecord: bool, scratch: Bytes, ghost parts: seq<Found>)
      returns (done: bool, found: bool, inFragmentedRecord': bool, scratch': Bytes, ghost parts': seq<Found>, ghost f: Found)
      requires OnWay() && Gathered(Seen(), inFragmentedRecord, parts) && (inFragmentedRecord ==> scratch == Payloads(parts))
      modifies this
      ensures OnWay() && steps == old(steps) + 1 && Seen() == old(Seen()) + [f] && f.start == FragmentStart(old(Pos()))
      ensures Pos() >= old(Pos()) && (f.kind != EOF ==> Pos() > old(Pos()))
      ensures Records(Seen()) == Records(old(Seen())) + if found then [scratch'] else []
      ensures corruptions - old(corruptions) == Reports(crc, file, steps) - Reports(crc, file, old(steps))
      ensures if done then !IsOpen(Seen()) else Gathered(Seen(), inFragmentedRecord', parts') && (inFragmentedRecord' ==> scratch' == Payloads(parts'))
      ensures done <==> f.kind == FULL || f.kind == EOF || (f.kind == LAST && inFragmentedRecord)
      ensures found <==> done && f.kind != EOF
      ensures f.kind == FULL || f.kind == FIRST ==> scratch' == f.payload && parts' == [f]
      ensures inFragmentedRecord && (f.kind == MIDDLE || f.kind == LAST) ==> scratch' == scratch + f.payload && parts' == parts + [f]
      ensures !done ==> (inFragmentedRecord' <==> f.kind == FIRST || (f.kind == MIDDLE && inFragmentedRecord))
      ensures f.kind != EOF && f.kind != BAD ==> Genuine(crc, file, f) && Pos() == FoundEnd(f)
      ensures old(Pos()) == |file| ==> f.kind == EOF && corruptions == old(corruptions)
      ensures file <= log && FragmentAt(crc, log, old(Pos()), kind, payload) && kind in (if inFragmentedRecord then {MIDDLE, LAST} else {FULL, FIRST}) ==>
          && corruptions == old(corruptions)
          && var q := FragmentStart(old(Pos())) + HEADER + |payload|;
          if q <= |file| then f.kind == kind && f.payload == payload && Pos() == q else f.kind == EOF
    {
      hide Inv, Pos, FragmentAt, FragmentStart, Genuine, FoundEnd;
      hide Gathered, IsOpen, Ends, Ended, Records, Loses, Damaged, Reports, Place, NextFound, Opens, Payloads;
      f := NextFound(crc, file, Pos());
      ghost var n0, seen := steps, Seen();
      var recordType, fragment := ReadPhysicalRecord(log, kind, payload);
      OneMorePlace(crc, file, n0);
      OneMoreReport(crc, file, n0);
      done, found, inFragmentedRecord', scratch', parts' := Assemble(recordType, fragment, inFragmentedRecord, scratch, seen, parts, f);
    }

    /** The next record, put together from its fragments; none is found once they are used up.
        Of what there is to find in the file, all whole records come out and nothing else does, and
        corruption is reported as often as something is lost.
        If the file is a prefix of a log that goes on with a record, the record comes out when the file
        holds all of it; otherwise the file ends, and no corruption is reported. */
    method ReadRecord(ghost log: Bytes, ghost expected: Bytes) returns (found: bool, record: Bytes, ghost parts: seq<Found>)
      requires OnWay() && !IsOpen(Seen())
      modifies this
      ensures OnWay() && !IsOpen(Seen()) && Pos() >= old(Pos()) && (found ==> Pos() > old(Pos()))
      ensures old(steps) < steps && forall i :: old(steps) <= i < steps ==> (Seen()[i].kind == EOF <==> i == steps - 1 && !found)
      ensures Records(Seen()) == Records(old(Seen())) + if found then [record] else []
      ensures corruptions - old(corruptions) == Reports(crc, file, steps) - Reports(crc, file, old(steps))
      ensures old(Pos()) == |file| ==> !found && corruptions == old(corruptions)
      ensures file <= log && RecordAt(crc, log, old(Pos()), expected, true) ==>
          && corruptions == old(corruptions)
          && var end := RecordEnd(crc, old(Pos()), expected, true);
          if end <= |file| then found && record == expected && Pos() == end else !found
      ensures found ==>
          && Whole(parts) && InARow(crc, file, parts) && record == Payloads(parts)
          && parts[0].start >= old(Pos()) && Pos() == FoundEnd(parts[|parts| - 1])
    {
      hide Genuine, InARow, Opens, Whole, Payloads, FoundEnd;
      hide Inv, Pos, RecordAt, RecordEnd, FragmentAt, FragmentLength, FragmentStart;
      hide Gathered, IsOpen, Ends, Ended, Records, Loses, Damaged, Reports, Place, NextFound;
      ghost var good := file <= log && RecordAt(crc, log, Pos(), expected, true);
      ghost var end := RecordEnd(crc, Pos(), expected, true);
      ghost var left := expected;
      var scratch := [];
      var inFragmentedRecord := false;
      parts := [];
      NothingGathered(Seen());
      while true
        invariant OnWay() && Pos() >= old(Pos()) && steps >= old(steps)
        invariant Gathered(Seen(), inFragmentedRecord, parts) && Records(Seen()) == Records(old(Seen()))
        invariant corruptions - old(corruptions) == Reports(crc, file, steps) - Reports(crc, file, old(steps))
        invariant forall i :: old(steps) <= i < steps ==> Seen()[i].kind != EOF
        invariant old(Pos()) == |file| ==> Pos() == |file| && corruptions == old(corruptions)
        invariant good ==>
            && RecordAt(crc, log, Pos(), left, !inFragmentedRecord) && end == RecordEnd(crc, Pos(), left, !inFragmentedRecord)
            && scratch + left == expected && corruptions == old(corruptions)
            && (!inFragmentedRecord ==> scratch == [])
        invariant inFragmentedRecord ==>
            && InARow(crc, file, parts) && Opens(parts) && parts != [] && scratch == Payloads(parts)
            && parts[0].start >= old(Pos()) && Pos() == FoundEnd(parts[|parts| - 1])
        decreases |file| - Pos()
      {
        ghost var n := FragmentLength(Pos(), |left|);
        ghost var last := n == |left|;
        ghost var kind := FragmentType(!inFragmentedRecord, last);
        if good {
          RecordStartsWithFragment(crc, log, Pos(), left, !inFragmentedRecord);
          FragmentBeforeEnd(crc, Pos(), left, !inFragmentedRecord);
        }
        ghost var row := parts;
        ghost var f;
        var done;
        done, found, inFragmentedRecord, scratch, parts, f := Gather(log, kind, left[..n], inFragmentedRecord, scratch, parts);
        if f.kind != EOF && f.kind != BAD {
          OneInARow(crc, file, f);
          if row != [] && InARow(crc, file, row) && Follows(row[|row| - 1], f) {
            OneMoreInARow(crc, file, row, f);
          }
        }
        if done {
          return found, scratch, parts;
        }
        left := left[n..];
      }
    }

    lemma TrailerSkipped()
      requires Inv() && !eof && |buffer| < HEADER
      ensures FragmentStart(Pos()) == FragmentStart(filePos)
    {
    }

    lemma HeaderHere()
      requires Inv() && |buffer| >= HEADER
      ensures FragmentStart(Pos()) == Pos()
    {
    }

    /** A fragment of the log that starts where the buffer does: the buffer shows its header, and all
        of it if the file holds all of it. */
    lemma HeaderParses(log: Bytes, s: nat, kind: Byte, payload: Bytes)
      requires Inv() && |buffer| >= HEADER && Pos() == s && file <= log
      requires FragmentStart(s) == s && FragmentAt(crc, log, s, kind, payload)
      ensures var a: int, b: int := buffer[4], buffer[5]; a + 256 * b == |payload| && buffer[6] == kind >= FULL
      ensures s + HEADER + |payload| <= |file| <==> HEADER + |payload| <= |buffer|
      ensures !eof ==> HEADER + |payload| <= |buffer|
      ensures HEADER + |payload| <= |buffer| ==>
          && Unmask(DecodeFixed32(buffer)) == crc(buffer[6..7 + |payload|])
          && buffer[HEADER..HEADER + |payload|] == payload
    {
      hide RecordBytes;
      var q := s + HEADER + |payload|;
      var bs := Physical(crc, kind, payload);
      assert log[s..q] == bs;
      assert buffer == log[s..filePos];
      forall i | 0 <= i < |buffer| && i < |bs| ensures buffer[i] == bs[i] {
        assert buffer[i] == log[s + i] == log[s..q][i];
      }
      assert |payload| % 256 + 256 * (|payload| / 256) == |payload|;
      BlockHolds(s, |payload|);
      if HEADER + |payload| <= |buffer| {
        assert buffer[..|bs|] == bs;
        ChecksumHolds(crc, kind, payload, buffer[|bs|..]);
        assert buffer == bs + buffer[|bs|..];
      }
    }

    /** A full block holds whole fragments. */
    lemma BlockHolds(s: nat, n: nat)
      requires Inv() && Pos() == s && s % BLOCK + HEADER + n <= BLOCK && |buffer| > 0
      ensures !eof ==> HEADER + n <= |buffer|
    {
    }
  }

  /** The first fragment of a record ends where the record does, or before. */
  lemma FragmentBeforeEnd(crc: Checksum, p: nat, record: Bytes, begin: bool)
    ensures FragmentStart(p) + HEADER + FragmentLength(p, |record|) <= RecordEnd(crc, p, record, begin)
  {
    hide RecordBytes, FragmentStart, FragmentLength;
    RecordStep(crc, p, record, begin);
  }

  lemma StartsLater(p: nat)
    ensures FragmentStart(p) >= p
  {
  }

  lemma ChecksumHolds(crc: Checksum, kind: Byte, payload: Bytes, rest: Bytes)
    requires |payload| < BLOCK
    ensures var bs := Physical(crc, kind, payload) + rest;
        && Unmask(DecodeFixed32(bs)) == crc(bs[6..7 + |payload|])
        && bs[HEADER..HEADER + |payload|] == payload
  {
    hide DecodeFixed32, Fixed32, Mask, Unmask;
    var sum := Mask(crc([kind] + payload));
    var tail := [|payload| % 256, |payload| / 256, kind] + payload + rest;
    var bs := Physical(crc, kind, payload) + rest;
    assert bs == Fixed32(sum) + tail;
    Fixed32RoundTrip(sum, tail);
    UnmaskUndoesMask(crc([kind] + payload));
    assert bs[6..7 + |payload|] == [kind] + payload;
  }

  // ----- Whole logs -----

  lemma LogStep(crc: Checksum, records: seq<Bytes>, i: nat)
    requires i < |records|
    ensures LogBytes(crc, records[..i + 1]) ==
        LogBytes(crc, records[..i]) + RecordBytes(crc, |LogBytes(crc, records[..i])|, records[i], true)
  {
    assert records[..i + 1][..i] == records[..i];
  }

  lemma {:induction false} LogPrefix(crc: Checksum, records: seq<Bytes>, i: nat)
    requires i <= |records|
    ensures LogBytes(crc, records[..i]) <= LogBytes(crc, records)
    decreases |records| - i
  {
    hide LogBytes, RecordBytes;
    if i < |records| {
      LogStep(crc, records, i);
      LogPrefix(crc, records, i + 1);
    } else {
      assert records[..i] == records;
    }
  }

  /** Record i follows the i records before it in the log. */
  lemma RecordInLog(crc: Checksum, records: seq<Bytes>, i: nat)
    requires i < |records|
    ensures var p := |LogBytes(crc, records[..i])|;
        && RecordAt(crc, LogBytes(crc, records), p, records[i], true)
        && RecordEnd(crc, p, records[i], true) == |LogBytes(crc, records[..i + 1])|
  {
    hide LogBytes, RecordBytes;
    LogStep(crc, records, i);
    LogPrefix(crc, records, i + 1);
    var before, upTo, log := LogBytes(crc, records[..i]), LogBytes(crc, records[..i + 1]), LogBytes(crc, records);
    assert log[|before|..|upTo|] == upTo[|before|..];
  }

  /** `out` is the records whose bytes lie wholly within the first t bytes of the log. */
  ghost predicate WhollyWithin(crc: Checksum, records: seq<Bytes>, t: nat, out: seq<Bytes>) {
    && out <= records
    && |LogBytes(crc, out)| <= t
    && (|out| < |records| ==> t < |LogBytes(crc, records[..|out| + 1])|)
  }

  lemma LongerPrefix(crc: Checksum, records: seq<Bytes>, i: nat, out: seq<Bytes>)
    requires out <= records && i <= |out|
    ensures |LogBytes(crc, records[..i])| <= |LogBytes(crc, out)|
  {
    LogPrefix(crc, out, i);
    assert out[..i] == records[..i];
  }

  /** Nothing but the whole log holds all records, and the records wholly within are determined. */
  lemma WhollyWithinIsUnique(crc: Checksum, records: seq<Bytes>, t: nat, a: seq<Bytes>, b: seq<Bytes>)
    requires WhollyWithin(crc, records, t, a) && WhollyWithin(crc, records, t, b)
    ensures a == b
    ensures t >= |LogBytes(crc, records)| ==> a == records
  {
    hide LogBytes;
    if |a| < |b| {
      LongerPrefix(crc, records, |a| + 1, b);
    } else if |b| < |a| {
      LongerPrefix(crc, records, |b| + 1, a);
    }
    if |a| < |records| {
      LogPrefix(crc, records, |a| + 1);
    }
  }

  /** Add the records one by one to an empty file. */
  method WriteLog(crc: Checksum, records: seq<Bytes>) returns (file: Bytes)
    ensures file == LogBytes(crc, records)
  {
    hide RecordBytes;
    var writer := new Writer(crc, []);
    var i := 0;
    while i < |records|
      invariant i <= |records| && writer.Inv() && fresh(writer) && writer.crc == crc
      invariant writer.dest == LogBytes(crc, records[..i])
    {
      LogStep(crc, records, i);
      writer.AddRecord(records[i]);
      i := i + 1;
    }
    assert records[..i] == records;
    file := writer.dest;
  }

  /** A record is made of genuine fragments that lie between two places of the file. */
  ghost predicate MadeOf(crc: Checksum, file: Bytes, record: Bytes, parts: seq<Found>, from: nat, to: nat) {
    && Whole(parts) && InARow(crc, file, parts) && record == Payloads(parts)
    && from <= parts[0].start && FoundEnd(parts[|parts| - 1]) <= to
  }

  /** Each record is made of genuine fragments, and follows those of the record before it. */
  ghost predicate AllMadeOf(crc: Checksum, file: Bytes, out: seq<Bytes>, parts: seq<seq<Found>>, ends: seq<nat>) {
    && |parts| == |out| && |ends| == |out| + 1
    && forall i :: 0 <= i < |out| ==> MadeOf(crc, file, out[i], parts[i], ends[i], ends[i + 1])
  }

  /** The walk through a file ends with step n, the first that finds the end. */
  ghost predicate EndsAt(crc: Checksum, file: Bytes, n: nat) {
    n > 0 && forall i :: 0 <= i < n ==> (Walk(crc, file, n)[i].kind == EOF <==> i == n - 1)
  }

  lemma Endless(crc: Checksum, file: Bytes, m: nat, n: nat)
    requires m <= n && (forall i :: 0 <= i < m ==> Walk(crc, file, m)[i].kind != EOF)
    requires forall i :: m <= i < n ==> (Walk(crc, file, n)[i].kind == EOF <==> i == n - 1)
    ensures m < n ==> EndsAt(crc, file, n)
  {
    WalkPrefix(crc, file, m, n);
  }

  lemma {:induction false} WalkPrefix(crc: Checksum, file: Bytes, m: nat, n: nat)
    requires m <= n
    ensures Walk(crc, file, n)[..m] == Walk(crc, file, m)
  {
    if m < n {
      WalkPrefix(crc, file, m, n - 1);
      assert Walk(crc, file, n)[..m] == Walk(crc, file, n - 1)[..m];
    } else {
      assert Walk(crc, file, n)[..n] == Walk(crc, file, n);
    }
  }

  /** Recover the records of any file: all the whole records that there are to find in it up to its end.
      Corruption is reported as often as something is lost on the way.  Each record is made of fragments whose checksums match, in the order of the
      file; and from a log cut short at any byte the records it holds whole come back, and no corruption is
      reported. */
  method RecoverLogFile(crc: Checksum, file: Bytes, ghost records: seq<Bytes>)
    returns (out: seq<Bytes>, corruptions: int, ghost parts: seq<seq<Found>>, ghost ends: seq<nat>, ghost steps: nat)
    ensures EndsAt(crc, file, steps) && out == Records(Walk(crc, file, steps)) && corruptions == Reports(crc, file, steps)
    ensures file <= LogBytes(crc, records) ==> WhollyWithin(crc, records, |file|, out) && corruptions == 0
    ensures AllMadeOf(crc, file, out, parts, ends)
  {
    hide LogBytes, RecordAt, RecordEnd, WhollyWithin, MadeOf, Records, Reports, Place, NextFound, EndsAt, IsOpen, Walk, Reader.Inv, Reader.Pos;
    var reader := new Reader(crc, file);
    ghost var good := file <= LogBytes(crc, records);
    out, parts, ends := [], [], [0];
    EmptyLog(crc, records);
    NothingFound(crc, file);
    var more, record;
    ghost var p;
    more, record, p := ReadNext(reader, good, records, 0);
    while more
      invariant reader.OnWay() && !IsOpen(reader.Seen()) && fresh(reader) && reader.crc == crc && reader.file == file
      invariant Records(reader.Seen()) == out + (if more then [record] else [])
      invariant reader.corruptions == Reports(crc, file, reader.steps)
      invariant if more then forall i :: 0 <= i < reader.steps ==> reader.Seen()[i].kind != EOF else EndsAt(crc, file, reader.steps)
      invariant AllMadeOf(crc, file, out, parts, ends)
      invariant more ==> MadeOf(crc, file, record, p, ends[|out|], reader.Pos())
      invariant good ==>
          && reader.corruptions == 0 && |out| + (if more then 1 else 0) <= |records| && out == records[..|out|]
          && (more ==> record == records[|out|] && reader.Pos() == |LogBytes(crc, records[..|out| + 1])|)
          && (!more ==> WhollyWithin(crc, records, |file|, out))
      decreases |file| - reader.Pos(), more
    {
      out, parts, ends := out + [record], parts + [p], ends + [reader.Pos()];
      assert out + [] == out;
      more, record, p := ReadNext(reader, good, records, |out|);
    }
    corruptions, steps := reader.corruptions, reader.steps;
    assert out + [] == out;
  }

  lemma NothingFound(crc: Checksum, file: Bytes)
    ensures Records(Walk(crc, file, 0)) == [] && !IsOpen(Walk(crc, file, 0)) && Reports(crc, file, 0) == 0
  {
  }

  /** Read the next record; of a log, record i. */
  method ReadNext(reader: Reader, ghost good: bool, ghost records: seq<Bytes>, ghost i: nat)
    returns (more: bool, record: Bytes, ghost parts: seq<Found>)
    requires reader.OnWay() && !IsOpen(reader.Seen())
    requires forall i :: 0 <= i < reader.steps ==> reader.Seen()[i].kind != EOF
    requires good ==>
        && i <= |records| && reader.file <= LogBytes(reader.crc, records) && reader.Pos() == |LogBytes(reader.crc, records[..i])|
    modifies reader
    ensures reader.OnWay() && !IsOpen(reader.Seen())
    ensures reader.Pos() >= old(reader.Pos()) && (more ==> reader.Pos() > old(reader.Pos()))
    ensures Records(reader.Seen()) == Records(old(reader.Seen())) + if more then [record] else []
    ensures reader.corruptions - old(reader.corruptions) ==
        Reports(reader.crc, reader.file, reader.steps) - Reports(reader.crc, reader.file, old(reader.steps))
    ensures if more then forall i :: 0 <= i < reader.steps ==> reader.Seen()[i].kind != EOF
        else EndsAt(reader.crc, reader.file, reader.steps)
    ensures more ==> MadeOf(reader.crc, reader.file, record, parts, old(reader.Pos()), reader.Pos())
    ensures good ==> reader.corruptions == old(reader.corruptions)
    ensures good && more ==> i < |records| && record == records[i] && reader.Pos() == |LogBytes(reader.crc, records[..i + 1])|
    ensures good && !more ==> WhollyWithin(reader.crc, records, |reader.file|, records[..i])
  {
    hide LogBytes, RecordAt, RecordEnd, Whole, InARow, Payloads, Records, Reports, Place, NextFound;
    ghost var n0 := reader.steps;
    if good {
      if i < |records| {
        RecordInLog(reader.crc, records, i);
      } else {
        assert records[..i] == records;
      }
      assert records[..i][..|records[..i]|] == records[..i];
    }
    more, record, parts := reader.ReadRecord(LogBytes(reader.crc, records), if i < |records| then records[i] else []);
    WalkPrefix(reader.crc, reader.file, n0, reader.steps);
    if !more {
      Endless(reader.crc, reader.file, n0, reader.steps);
    }
  }

  lemma EmptyLog(crc: Checksum, records: seq<Bytes>)
    ensures LogBytes(crc, records[..0]) == [] && records[..0] == []
  {
  }

  /** What goes into a log comes out of it, whatever the lengths of the records. */
  method LogRoundTrip(crc: Checksum, records: seq<Bytes>) returns (out: seq<Bytes>, corruptions: int)
    ensures out == records && corruptions == 0
  {
    hide LogBytes;
    var file := WriteLog(crc, records);
    ghost var parts, ends, steps;
    out, corruptions, parts, ends, steps := RecoverLogFile(crc, file, records);
    WhollyWithinIsUnique(crc, records, |file|, out, out);
  }
}
