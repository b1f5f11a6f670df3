/** Logs with damaged blocks: what lies wholly in other blocks comes back all the same. */
module LogDamage {
  import opened InternalKeys
  import opened Coding
  import opened Log
  import opened LogReading
  import opened Slices

  /** From lo to hi, ends of blocks or hi the end of both, the file is as the log was written. */
  ghost predicate Intact(file: Bytes, log: Bytes, lo: nat, hi: nat) {
    && lo % BLOCK == 0 && lo <= hi <= |file| && hi <= |log|
    && (hi % BLOCK == 0 || hi == |file| == |log|)
    && file[lo..hi] == log[lo..hi]
  }

  /** Where step n looks for a fragment. */
  ghost function Start(crc: Checksum, file: Bytes, n: nat): nat {
    FragmentStart(Place(crc, file, n))
  }

  lemma BlockHolds(s: nat, hi: nat)
    requires s < hi && hi % BLOCK == 0
    ensures (s / BLOCK + 1) * BLOCK <= hi
  {
    assert s == s / BLOCK * BLOCK + s % BLOCK && hi == hi / BLOCK * BLOCK;
    assert s / BLOCK < hi / BLOCK;
  }

  lemma BlockOf(s: nat)
    ensures s / BLOCK * BLOCK <= s < (s / BLOCK + 1) * BLOCK && (s / BLOCK + 1) * BLOCK % BLOCK == 0
  {
  }

  /** In the intact part the same is found in file and log. */
  lemma SameFound(crc: Checksum, file: Bytes, log: Bytes, lo: nat, hi: nat, p: nat, q: nat)
    requires Intact(file, log, lo, hi) && FragmentStart(p) == FragmentStart(q) >= lo && FragmentStart(p) + HEADER <= hi
    ensures NextFound(crc, file, p) == NextFound(crc, log, q) && NextPlace(crc, file, p) == NextPlace(crc, log, q)
  {
    hide FoundIn, Sound, FragmentStart;
    var s := FragmentStart(p);
    BlockOf(s);
    RoomForHeader(file, p);
    RoomForHeader(log, q);
    if hi % BLOCK == 0 {
      BlockHolds(s, hi);
    }
    var e := BlockEnd(file, s);
    assert e == BlockEnd(log, s) <= hi;
    SliceOfSlice(file, lo, hi, s - lo, e - lo);
    SliceOfSlice(log, lo, hi, s - lo, e - lo);
    assert file[s..e] == log[s..e];
  }

  /** A step gets on, but not past the end of the block. */
  lemma StepForward(crc: Checksum, file: Bytes, n: nat)
    requires Start(crc, file, n) + HEADER <= |file|
    ensures Start(crc, file, n) < Place(crc, file, n + 1) <= BlockEnd(file, Start(crc, file, n))
  {
    hide FragmentStart, DecodeFixed32, Unmask;
    RoomForHeader(file, Place(crc, file, n));
  }

  lemma {:induction false} StartsAscend(crc: Checksum, file: Bytes, m: nat, n: nat)
    requires m < n && forall j :: m <= j < n ==> Start(crc, file, j) + HEADER <= |file|
    ensures Start(crc, file, m) < Start(crc, file, n)
  {
    hide FragmentStart, Place;
    if m < n - 1 {
      StartsAscend(crc, file, m, n - 1);
    }
    StepForward(crc, file, n - 1);
  }

  /** Reading comes to the beginning of every block. */
  lemma {:induction false} BlockReached(crc: Checksum, file: Bytes, n: nat, lo: nat) returns (m: nat)
    requires lo % BLOCK == 0 && lo <= |file| && Start(crc, file, n) <= lo
    ensures m >= n && Start(crc, file, m) == lo && forall j :: n <= j < m ==> Start(crc, file, j) < lo
    decreases lo - Start(crc, file, n)
  {
    var s := Start(crc, file, n);
    if s == lo {
      m := n;
    } else {
      BlockHolds(s, lo);
      HeaderFits(Place(crc, file, n), lo);
      StepForward(crc, file, n);
      StartWithin(Place(crc, file, n + 1), lo);
      m := BlockReached(crc, file, n + 1, lo);
    }
  }

  lemma HeaderFits(p: nat, lo: nat)
    requires FragmentStart(p) < lo && lo % BLOCK == 0
    ensures FragmentStart(p) + HEADER <= lo
  {
    var s := FragmentStart(p);
    BlockHolds(s, lo);
    assert s % BLOCK + HEADER <= BLOCK && s == s / BLOCK * BLOCK + s % BLOCK;
  }

  lemma StartWithin(p: nat, lo: nat)
    requires p <= lo && lo % BLOCK == 0
    ensures FragmentStart(p) <= lo
  {
    if p < lo {
      BlockHolds(p, lo);
      BlockOf(p);
    }
  }

  /** What steps m to n find. */
  ghost function Stretch(crc: Checksum, file: Bytes, m: nat, n: nat): (fs: seq<Found>)
    requires m <= n
    ensures |fs| == n - m
  {
    Walk(crc, file, n)[m..]
  }

  lemma StretchStep(crc: Checksum, file: Bytes, m: nat, n: nat)
    requires m <= n
    ensures Stretch(crc, file, m, n + 1) == Stretch(crc, file, m, n) + [NextFound(crc, file, Place(crc, file, n))]
    ensures Place(crc, file, n + 1) == NextPlace(crc, file, Place(crc, file, n))
  {
    OneMorePlace(crc, file, n);
  }

  /** Through the intact part, reading the file finds what reading the log does. */
  lemma {:induction false} SideBySide(crc: Checksum, file: Bytes, log: Bytes, lo: nat, hi: nat, m: nat, l: nat, k: nat)
    requires Intact(file, log, lo, hi) && Start(crc, file, m) == Start(crc, log, l) >= lo
    requires forall j :: l <= j < l + k ==> lo <= Start(crc, log, j) && Start(crc, log, j) + HEADER <= hi
    ensures Start(crc, file, m + k) == Start(crc, log, l + k)
    ensures Stretch(crc, file, m, m + k) == Stretch(crc, log, l, l + k)
  {
    hide FragmentStart, NextFound, NextPlace, Intact, Place, Stretch;
    if k > 0 {
      SideBySide(crc, file, log, lo, hi, m, l, k - 1);
      var n, i := m + k - 1, l + k - 1;
      assert lo <= Start(crc, log, i) && Start(crc, log, i) + HEADER <= hi;
      SameFound(crc, file, log, lo, hi, Place(crc, file, n), Place(crc, log, i));
      StretchStep(crc, file, m, n);
      StretchStep(crc, log, l, i);
    }
  }

  // ----- Reading a log as it was written -----

  /** A fragment that was written is found. */
  lemma FragmentIsFound(crc: Checksum, log: Bytes, p: nat, kind: Byte, payload: Bytes)
    requires FragmentAt(crc, log, p, kind, payload)
    ensures NextFound(crc, log, p) == Found(FragmentStart(p), kind, payload)
    ensures NextPlace(crc, log, p) == FragmentStart(p) + HEADER + |payload|
  {
    hide FragmentStart, Mask, Unmask, DecodeFixed32, Fixed32;
    var s := FragmentStart(p);
    RoomForHeader(log, p);
    var e := BlockEnd(log, s);
    var bs := Physical(crc, kind, payload);
    BlockOf(s);
    assert s + HEADER + |payload| <= e by {
      assert s == s / BLOCK * BLOCK + s % BLOCK;
    }
    var block := log[s..e];
    assert block == bs + block[|bs|..] by {
      assert block[..|bs|] == log[s..s + |bs|];
    }
    ChecksumHolds(crc, kind, payload, block[|bs|..]);
    HeaderSays(crc, kind, payload, block[|bs|..]);
  }

  lemma HeaderSays(crc: Checksum, kind: Byte, payload: Bytes, rest: Bytes)
    requires |payload| < BLOCK
    ensures var bs := Physical(crc, kind, payload) + rest; bs[6] == kind && LengthIn(bs) == |payload|
  {
    hide Mask, Fixed32;
    assert |payload| % 256 + 256 * (|payload| / 256) == |payload|;
  }

  /** The rest of a record: middle fragments and a last one. */
  ghost predicate Goes(fs: seq<Found>) {
    fs != [] && fs[|fs| - 1].kind == LAST && forall i :: 0 <= i < |fs| - 1 ==> fs[i].kind == MIDDLE
  }

  /** Fragments of the four types, which end by `to`. */
  ghost predicate Ordinary(fs: seq<Found>, to: nat) {
    forall i :: 0 <= i < |fs| ==> FULL <= fs[i].kind <= LAST && FoundEnd(fs[i]) <= to
  }

  lemma FirstAndRest(f: Found, rest: seq<Found>, to: nat)
    requires f.kind == FIRST || f.kind == MIDDLE
    requires Goes(rest) && Ordinary(rest, to) && FoundEnd(f) <= to
    ensures var fs := [f] + rest; Ordinary(fs, to) && if f.kind == FIRST then Whole(fs) else Goes(fs)
  {
    var fs := [f] + rest;
    assert forall i :: 0 < i < |fs| ==> fs[i] == rest[i - 1];
    assert fs[..|fs| - 1] == [f] + rest[..|rest| - 1];
  }

  lemma {:induction false} PayloadsFrom(f: Found, rest: seq<Found>)
    ensures Payloads([f] + rest) == f.payload + Payloads(rest)
  {
    var fs := [f] + rest;
    if rest == [] {
      assert fs == [f];
      PayloadOfOne(f);
    } else {
      PayloadsFrom(f, rest[..|rest| - 1]);
      assert fs[..|fs| - 1] == [f] + rest[..|rest| - 1];
    }
  }

  lemma StretchFrom(crc: Checksum, file: Bytes, m: nat, n: nat)
    requires m < n
    ensures Stretch(crc, file, m, n) == [NextFound(crc, file, Place(crc, file, m))] + Stretch(crc, file, m + 1, n)
  {
    hide Walk, Place, NextFound;
    WalkPrefix(crc, file, m + 1, n);
    OneMorePlace(crc, file, m);
    assert Walk(crc, file, n)[m] == Walk(crc, file, n)[..m + 1][m];
  }

  lemma OnlyFragment(f: Found)
    ensures Payloads([f]) == f.payload && (f.kind == FULL ==> Whole([f])) && (f.kind == LAST ==> Goes([f]))
  {
    PayloadOfOne(f);
  }

  lemma FragmentWithin(crc: Checksum, log: Bytes, p: nat, f: Found)
    requires FULL <= f.kind <= LAST && FragmentAt(crc, log, p, f.kind, f.payload) && f.start == FragmentStart(p)
    ensures p < FoundEnd(f) <= |log|
  {
  }

  lemma EndsLater(crc: Checksum, p: nat, record: Bytes, begin: bool)
    ensures RecordEnd(crc, p, record, begin) > p
  {
  }

  /** Reading a record, or the rest of one, of a log. */
  lemma {:induction false} RecordWalk(crc: Checksum, log: Bytes, n: nat, left: Bytes, begin: bool) returns (b: nat)
    requires RecordAt(crc, log, Place(crc, log, n), left, begin)
    ensures n < b && Place(crc, log, b) == RecordEnd(crc, Place(crc, log, n), left, begin)
    ensures var fs := Stretch(crc, log, n, b);
        Payloads(fs) == left && Ordinary(fs, Place(crc, log, b)) && if begin then Whole(fs) else Goes(fs)
    decreases |log| - Place(crc, log, n)
  {
    hide RecordAt, RecordEnd, FragmentAt, Place, NextFound, NextPlace, Payloads, Whole, Stretch, FragmentStart, FragmentLength;
    var p := Place(crc, log, n);
    var m := FragmentLength(p, |left|);
    var end := m == |left|;
    var f := Found(FragmentStart(p), FragmentType(begin, end), left[..m]);
    RecordStartsWithFragment(crc, log, p, left, begin);
    FragmentWithin(crc, log, p, f);
    FragmentIsFound(crc, log, p, f.kind, f.payload);
    StretchStep(crc, log, n, n);
    if end {
      b := n + 1;
      assert left[..m] == left;
      OnlyFragment(f);
      assert Stretch(crc, log, n, b) == [f];
    } else {
      StartsLater(p);
      b := RecordWalk(crc, log, n + 1, left[m..], false);
      StretchFrom(crc, log, n, b);
      var rest := Stretch(crc, log, n + 1, b);
      PayloadsFrom(f, rest);
      EndsLater(crc, FoundEnd(f), left[m..], false);
      assert left[..m] + left[m..] == left;
      FirstAndRest(f, rest, Place(crc, log, b));
    }
  }

  /** Reading a log comes to the end of each of its records, and finds nothing but fragments. */
  lemma {:induction false} LogWalk(crc: Checksum, records: seq<Bytes>, i: nat) returns (b: nat)
    requires i <= |records|
    ensures var log := LogBytes(crc, records);
        Place(crc, log, b) == |LogBytes(crc, records[..i])| && Ordinary(Walk(crc, log, b), Place(crc, log, b))
  {
    hide LogBytes, RecordAt, RecordEnd, Place, NextFound;
    var log := LogBytes(crc, records);
    if i == 0 {
      EmptyLog(crc, records);
      b := 0;
      AtStart(crc, log);
    } else {
      var a := LogWalk(crc, records, i - 1);
      RecordInLog(crc, records, i - 1);
      b := RecordWalk(crc, log, a, records[i - 1], true);
      EndsLater(crc, Place(crc, log, a), records[i - 1], true);
      WalkPrefix(crc, log, a, b);
      assert Walk(crc, log, b) == Walk(crc, log, a) + Stretch(crc, log, a, b);
    }
  }

  lemma AtStart(crc: Checksum, log: Bytes)
    ensures Place(crc, log, 0) == 0
  {
  }

  // ----- The theorem -----

  /** What a longer walk gathers includes what a shorter one does. */
  lemma {:induction false} RecordsStay(crc: Checksum, file: Bytes, m: nat, n: nat)
    requires m <= n
    ensures forall r :: r in Records(Walk(crc, file, m)) ==> r in Records(Walk(crc, file, n))
  {
    hide Place, NextFound;
    if m < n {
      RecordsStay(crc, file, m, n - 1);
      OneMorePlace(crc, file, n - 1);
      var fs := Walk(crc, file, n);
      assert fs[..n - 1] == Walk(crc, file, n - 1);
      RecordsMore(fs);
    }
  }

  /** A record that the last fragments make up is among the records. */
  lemma EndedIsFound(fs: seq<Found>, k: nat)
    requires k < |fs| && Whole(fs[k..])
    ensures Payloads(fs[k..]) in Records(fs)
  {
    hide Whole, Payloads;
    RecordsMore(fs);
    var j: nat :| j < |fs| && Whole(fs[j..]) && Ended(fs) == Payloads(fs[j..]);
    if j <= k {
      OneEnding(fs, j, k);
    } else {
      OneEnding(fs, k, j);
    }
  }

  /** In reading a log, where the steps from l to b look lies from the place of the first on and before to. */
  lemma {:induction false} WithinLog(crc: Checksum, log: Bytes, l: nat, b: nat, lo: nat)
    requires l <= b && Start(crc, log, l) >= lo && Ordinary(Walk(crc, log, b), Place(crc, log, b)) && Place(crc, log, b) <= |log|
    ensures forall j :: l <= j < b ==> lo <= Start(crc, log, j) && Start(crc, log, j) + HEADER <= Place(crc, log, b)
  {
    hide Place, NextFound, FragmentStart;
    forall j | l <= j < b ensures lo <= Start(crc, log, j) && Start(crc, log, j) + HEADER <= Place(crc, log, b) {
      StartsFound(crc, log, j, b);
      if l < j {
        forall i | l <= i < j ensures Start(crc, log, i) + HEADER <= |log| {
          StartsFound(crc, log, i, b);
        }
        StartsAscend(crc, log, l, j);
      }
    }
  }

  lemma StartsFound(crc: Checksum, file: Bytes, j: nat, b: nat)
    requires j < b
    ensures Walk(crc, file, b)[j].start == Start(crc, file, j)
  {
    hide Place;
    WalkPrefix(crc, file, j + 1, b);
    OneMorePlace(crc, file, j);
    assert Walk(crc, file, b)[j] == Walk(crc, file, b)[..j + 1][j];
  }

  /** The steps that read record i of the log, and where in the log the intact part begins. */
  lemma StepsInLog(crc: Checksum, records: seq<Bytes>, i: nat, lo: nat) returns (l: nat, a: nat, b: nat)
    requires i < |records| && lo % BLOCK == 0 && lo <= FragmentStart(|LogBytes(crc, records[..i])|)
    requires lo <= |LogBytes(crc, records)|
    ensures var log := LogBytes(crc, records);
        && l <= a < b && Start(crc, log, l) == lo && Place(crc, log, b) == |LogBytes(crc, records[..i + 1])| <= |log|
        && Ordinary(Walk(crc, log, b), Place(crc, log, b))
        && Whole(Walk(crc, log, b)[a..]) && Payloads(Walk(crc, log, b)[a..]) == records[i]
  {
    hide LogBytes, RecordAt, RecordEnd, Place, NextFound, FragmentStart, Whole, Payloads, Walk;
    var log := LogBytes(crc, records);
    AtStart(crc, log);
    FromStart();
    a := LogWalk(crc, records, i);
    RecordInLog(crc, records, i);
    LogPrefix(crc, records, i + 1);
    b := RecordWalk(crc, log, a, records[i], true);
    EndsLater(crc, Place(crc, log, a), records[i], true);
    WalkPrefix(crc, log, a, b);
    assert Walk(crc, log, b) == Walk(crc, log, a) + Stretch(crc, log, a, b);
    l := BlockReached(crc, log, 0, lo);
    assert Start(crc, log, a) >= lo;
  }

  lemma FromStart()
    ensures FragmentStart(0) == 0
  {
  }

  /** The walk goes on for longer than the steps that look in front of the intact part or find a fragment. */
  lemma NotOverYet(crc: Checksum, file: Bytes, n: nat, m: nat, e: nat, lo: nat, to: nat)
    requires EndsAt(crc, file, n) && Walk(crc, file, n)[n - 1].start >= lo && m <= e
    requires (forall j :: 0 <= j < m ==> Start(crc, file, j) < lo) && Ordinary(Stretch(crc, file, m, e), to)
    ensures e <= n
  {
    hide Place, NextFound, Walk;
    StartsFound(crc, file, n - 1, n);
    if m < n < e {
      WalkPrefix(crc, file, n, e);
    }
  }

  /** Whatever has become of the rest of a log, a record comes back if the blocks that hold its fragments are as
      they were written and reading gets as far as to these blocks. */
  lemma DamageIsContained(crc: Checksum, records: seq<Bytes>, file: Bytes, lo: nat, hi: nat, i: nat, n: nat)
    requires i < |records| && Intact(file, LogBytes(crc, records), lo, hi)
    requires lo <= FragmentStart(|LogBytes(crc, records[..i])|) && |LogBytes(crc, records[..i + 1])| <= hi
    requires EndsAt(crc, file, n) && Walk(crc, file, n)[n - 1].start >= lo
    ensures records[i] in Records(Walk(crc, file, n))
  {
    hide LogBytes, Place, NextFound, Walk, FragmentStart, Whole, Payloads, Records, Intact, EndsAt;
    var log := LogBytes(crc, records);
    IntactWithin(file, log, lo, hi);
    var l, a, b := StepsInLog(crc, records, i, lo);
    WithinLog(crc, log, l, b, lo);
    AtStart(crc, file);
    FromStart();
    var m := BlockReached(crc, file, 0, lo);
    SideBySide(crc, file, log, lo, hi, m, l, b - l);
    var e, c := m + (b - l), m + (a - l);
    var there, written := Walk(crc, file, e), Walk(crc, log, b);
    assert there[c..] == Stretch(crc, file, m, e)[a - l..] == Stretch(crc, log, l, b)[a - l..] == written[a..];
    EndedIsFound(there, c);
    assert forall j :: 0 <= j < b - l ==> Stretch(crc, log, l, b)[j] == written[l + j];
    NotOverYet(crc, file, n, m, e, lo, Place(crc, log, b));
    RecordsStay(crc, file, e, n);
  }

  lemma IntactWithin(file: Bytes, log: Bytes, lo: nat, hi: nat)
    requires Intact(file, log, lo, hi)
    ensures lo % BLOCK == 0 && lo <= hi <= |file| && hi <= |log|
  {
  }

  /** Nothing but a fragment of type 5 whose checksum is right ends the reading of a file before the block where
      the file ends. */
  lemma WhatStopsReading(crc: Checksum, file: Bytes, lo: nat, n: nat)
    requires EndsAt(crc, file, n) && lo % BLOCK == 0 && lo <= |file|
    ensures var s := Walk(crc, file, n)[n - 1].start;
        s < lo ==> s + HEADER <= BlockEnd(file, s) <= |file| && Sound(crc, file[s..BlockEnd(file, s)]) && file[s + 6] == 5
  {
    hide Sound, Place, FragmentStart;
    StartsFound(crc, file, n - 1, n);
    var s := Start(crc, file, n - 1);
    if s < lo {
      HeaderFits(Place(crc, file, n - 1), lo);
      RoomForHeader(file, Place(crc, file, n - 1));
      BlockHolds(s, lo);
    }
  }
}
