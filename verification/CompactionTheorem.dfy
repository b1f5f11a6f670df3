/** What installing a compaction does to a version: it stays well-formed, and every read at a live
    snapshot returns what it returned before, unless the inputs expose a deleted value. */
module CompactionTheorem {
  import opened InternalKeys
  import opened Reads
  import opened Versions
  import opened CompactionInputs
  import opened CompactionWork

  /** The files of the lower level that are not inputs. */
  ghost predicate LeftOut(lower: seq<File>, inputs1: seq<File>, f: File) {
    f in lower && f !in inputs1
  }

  /** A level after files are taken out of it and others put in. */
  ghost predicate LevelBecomes(before: seq<File>, after: seq<File>, removed: seq<File>, added: seq<File>) {
    forall f :: f in after <==> LeftOut(before, removed, f) || f in added
  }

  /** The version after the compaction: the inputs are gone, the outputs are at level + 1, in order. */
  ghost predicate Installed(v: Version, w: Version, level: nat, inputs0: seq<File>, inputs1: seq<File>,
                            outputs: seq<File>)
    requires |v| == NUM_LEVELS && level + 1 < NUM_LEVELS
  {
    && |w| == NUM_LEVELS
    && (forall l :: 0 <= l < NUM_LEVELS && l != level && l != level + 1 ==> w[l] == v[l])
    && LevelBecomes(v[level], w[level], inputs0, [])
    && LevelBecomes(v[level + 1], w[level + 1], inputs1, outputs)
    && Ordered(w[level]) && Ordered(w[level + 1])
  }

  /** The output files carry numbers of their own. */
  ghost predicate FreshNumbers(v: Version, outputs: seq<File>) {
    && (forall f, g :: f in outputs && g in outputs && f.number == g.number ==> f == g)
    && (forall l, f, g :: 0 <= l < |v| && f in v[l] && g in outputs ==> f.number != g.number)
  }

  ghost predicate InFiles(fs: seq<File>, e: Entry) {
    exists f :: f in fs && e in f.entries
  }

  ghost predicate InInputs(inputs0: seq<File>, inputs1: seq<File>, e: Entry) {
    InFiles(inputs0, e) || InFiles(inputs1, e)
  }

  /** Entry e is one of the merged inputs and is kept. */
  ghost predicate KeptInput(v: Version, level: nat, all: seq<Entry>, s: SequenceNumber, e: Entry) {
    exists i :: 0 <= i < |all| && all[i] == e && !Dropped(v, level, all, s, i)
  }

  /** The merged inputs, in key order. */
  ghost predicate MergedInputs(all: seq<Entry>, inputs0: seq<File>, inputs1: seq<File>) {
    && Sorted(all)
    && forall e :: e in all <==> InInputs(inputs0, inputs1, e)
  }

  /** The output files: well-formed, and together exactly the kept inputs in order. */
  ghost predicate Outputs(v: Version, level: nat, all: seq<Entry>, s: SequenceNumber, outputs: seq<File>) {
    && (forall f :: f in outputs ==> FileOk(f))
    && FilesContents(outputs) == Kept(v, level, all, s, |all|)
  }

  /** An old deletion about to be dropped while the next entry of its user key, in a file of
      level + 1 that is not an input, is a value. */
  ghost predicate Exposes(v: Version, level: nat, inputs0: seq<File>, inputs1: seq<File>, s: SequenceNumber)
    requires |v| == NUM_LEVELS && level + 1 < NUM_LEVELS
  {
    exists t, e, f :: ExposedBy(v, level, inputs0, inputs1, s, t, e, f)
  }

  /** Deletion t hides value e of the left-out file f, and goes. */
  ghost predicate ExposedBy(v: Version, level: nat, inputs0: seq<File>, inputs1: seq<File>, s: SequenceNumber,
                            t: Entry, e: Entry, f: File)
    requires |v| == NUM_LEVELS && level + 1 < NUM_LEVELS
  {
    && InInputs(inputs0, inputs1, t)
    && t.key.kind == Deletion && IsNewest(Contents(v), t.key.user, s, t)
    && BaseLevel(v, level, t.key.user)
    && LeftOut(v[level + 1], inputs1, f) && e in f.entries && e.key.kind == Value
    && NewestLeftOut(v[level + 1], inputs1, t.key.user, s, e)
  }

  ghost predicate NewestLeftOut(lower: seq<File>, inputs1: seq<File>, user: UserKey, s: SequenceNumber, e: Entry) {
    && VisibleTo(e, user, s)
    && forall f, d :: LeftOut(lower, inputs1, f) && d in f.entries && VisibleTo(d, user, s) ==>
         d.key.sequence <= e.key.sequence
  }

  // ----- Files of the upper level that stay behind hold only newer entries -----

  lemma UpperStaysNewer(v: Version, level: nat, inputs0: seq<File>, r: File, i: File)
    requires VersionOk(v) && level < NUM_LEVELS && UpperInputsOk(v[level], level, inputs0)
    requires LeftOut(v[level], inputs0, r) && i in inputs0
    ensures Newer(r, i)
  {
    hide FileOk, Layered, LevelSorted, VersionNumbersUnique, Newer, NoBoundary;
    if level == 0 {
      NothingShared0(v[level], inputs0, r, i);
    } else {
      SliceStaysNewer(v, level, inputs0, r, i);
    }
  }

  lemma SliceStaysNewer(v: Version, level: nat, inputs0: seq<File>, r: File, i: File)
    requires VersionOk(v) && 0 < level < NUM_LEVELS
    requires IsSlice(v[level], inputs0) && NoBoundary(v[level], inputs0)
    requires LeftOut(v[level], inputs0, r) && i in inputs0
    ensures Newer(r, i)
  {
    hide FileOk, Layered, LevelSorted, VersionNumbersUnique, Newer, NoBoundary;
    var files := v[level];
    var lo, hi :| 0 <= lo < hi <= |files| && inputs0 == files[lo..hi];
    var a :| 0 <= a < |files| && files[a] == r;
    var b :| 0 <= b < |inputs0| && inputs0[b] == i;
    SliceIndex(files, lo, hi, b);
    if lo <= a < hi {
      SliceMember(files, lo, hi, a);
    }
    if a < lo {
      EarlierIsNewer(v, level, a, lo + b);
    } else {
      assert forall f :: f in files ==> FileOk(f);
      NothingSharedAfter(files, lo, hi, inputs0, a, lo + b);
    }
  }

  lemma SliceIndex(files: seq<File>, lo: nat, hi: nat, b: nat)
    requires lo <= hi <= |files| && b < hi - lo
    ensures files[lo..hi][b] == files[lo + b]
  {
  }

  lemma SliceMember(files: seq<File>, lo: nat, hi: nat, a: nat)
    requires lo <= a < hi <= |files|
    ensures files[a] in files[lo..hi]
  {
    assert files[lo..hi][a - lo] == files[a];
  }

  /** In a sorted level, an earlier file holds the newer entries of a shared user key. */
  lemma EarlierIsNewer(v: Version, level: nat, a: nat, b: nat)
    requires VersionOk(v) && 0 < level < NUM_LEVELS && a < b < |v[level]|
    ensures Newer(v[level][a], v[level][b])
  {
    hide FileOk, Layered;
    var f, g := v[level][a], v[level][b];
    forall d, e | d in f.entries && e in g.entries && d.key.user == e.key.user
      ensures d.key.sequence > e.key.sequence
    {
      InRange(f, d);
      InRange(g, e);
      assert Less(f.largest, g.smallest);
      assert d in Contents(v) && e in Contents(v);
    }
  }

  lemma NothingShared0(files: seq<File>, inputs0: seq<File>, r: File, i: File)
    requires (forall f :: f in files ==> FileOk(f)) && Level0Closed(files, inputs0)
    requires LeftOut(files, inputs0, r) && i in inputs0
    ensures Newer(r, i)
  {
    hide FileOk;
    var b, e :| inputs0 == Overlapping(files, b, e) && ClosedRange(files, b, e);
    assert !Overlaps(r, b, e) && Within(i, b, e);
    forall c, d | c in r.entries && d in i.entries
      ensures c.key.user != d.key.user
    {
      InRange(r, c);
      InRange(i, d);
    }
  }

  lemma NothingSharedAfter(files: seq<File>, lo: nat, hi: nat, inputs0: seq<File>, a: nat, b: nat)
    requires LevelSorted(files) && (forall f :: f in files ==> FileOk(f)) && lo <= b < hi <= a < |files|
    requires inputs0 == files[lo..hi] && NoBoundary(files, inputs0)
    ensures Newer(files[a], files[b])
  {
    hide FileOk, LevelSorted;
    SliceLargest(files, lo, hi);
    UsersAscend(files, a);
    UsersAscend(files, hi - 1);
    UsersAscend(files, hi);
    assert !IsBoundary(files[hi], files[hi - 1].largest);
    NextStartsAfter(files, hi);
    RangeOk(files[hi]);
    forall c, d | c in files[a].entries && d in files[b].entries
      ensures c.key.user != d.key.user
    {
      InRange(files[a], c);
      InRange(files[b], d);
      RangeOk(files[hi - 1]);
    }
  }

  lemma NextStartsAfter(files: seq<File>, hi: nat)
    requires LevelSorted(files) && 0 < hi < |files|
    ensures Less(files[hi - 1].largest, files[hi].smallest)
  {
  }

  lemma SliceLargest(files: seq<File>, lo: nat, hi: nat)
    requires LevelSorted(files) && (forall f :: f in files ==> FileOk(f)) && lo < hi <= |files|
    ensures IsLargest(files[lo..hi], files[hi - 1].largest)
  {
    hide FileOk, LevelSorted;
    LargestAscend(files, hi - 1);
    assert files[hi - 1] == files[lo..hi][hi - 1 - lo];
  }

  // ----- Files of the lower level that stay behind lie on one side of all inputs -----

  /** A file of level + 1 left out of the compaction is before every input or after every input, in
      internal key order, and shares no user key with the upper inputs. */
  lemma LowerOnOneSide(v: Version, level: nat, inputs0: seq<File>, inputs1: seq<File>, r: File)
    requires VersionOk(v) && InputsOk(v, level, inputs0, inputs1) && LeftOut(v[level + 1], inputs1, r)
    ensures (forall f :: f in inputs0 || f in inputs1 ==> Less(r.largest, f.smallest))
        || (forall f :: f in inputs0 || f in inputs1 ==> Less(f.largest, r.smallest))
    ensures forall f :: f in inputs0 ==> r.largest.user < f.smallest.user || f.largest.user < r.smallest.user
  {
    hide FileOk, Layered, LevelSorted, VersionNumbersUnique, UpperInputsOk;
    LowerFacts(v, level, inputs0, inputs1);
    var s, l :| IsSmallest(inputs0, s) && IsLargest(inputs0, l)
        && inputs1 == Overlapping(v[level + 1], Some(s.user), Some(l.user));
    assert !Overlaps(r, Some(s.user), Some(l.user));
    RangeOk(r);
    forall f | f in inputs1
      ensures if r.largest.user < s.user then Less(r.largest, f.smallest) else Less(f.largest, r.smallest)
    {
      assert Overlaps(f, Some(s.user), Some(l.user));
      OneSideOf(v[level + 1], f, r);
      RangeOk(f);
    }
    assert forall f :: f in inputs0 ==> FileOk(f);
    forall f | f in inputs0
      ensures if r.largest.user < s.user then r.largest.user < f.smallest.user else f.largest.user < r.smallest.user
    {
      RangeOk(f);
    }
  }

  lemma LowerFacts(v: Version, level: nat, inputs0: seq<File>, inputs1: seq<File>)
    requires VersionOk(v) && InputsOk(v, level, inputs0, inputs1)
    ensures forall f :: f in inputs0 ==> f in v[level] && FileOk(f)
    ensures forall f :: f in inputs1 ==> f in v[level + 1]
    ensures LevelSorted(v[level + 1]) && forall f :: f in v[level + 1] ==> FileOk(f)
  {
  }

  /** Two different files of a sorted level do not interleave. */
  lemma OneSideOf(files: seq<File>, f: File, g: File)
    requires LevelSorted(files) && f in files && g in files && f != g
    ensures Less(f.largest, g.smallest) || Less(g.largest, f.smallest)
  {
    var i :| 0 <= i < |files| && files[i] == f;
    var j :| 0 <= j < |files| && files[j] == g;
  }

  // ----- The outputs -----

  lemma {:induction false} FilesContentsMembers(fs: seq<File>)
    ensures forall e :: e in FilesContents(fs) <==> InFiles(fs, e)
  {
    if fs != [] {
      var init, last := fs[..|fs| - 1], fs[|fs| - 1];
      FilesContentsMembers(init);
      assert fs == init + [last];
      forall e
        ensures InFiles(fs, e) <==> InFiles(init, e) || e in last.entries
      {
        assert last in fs && forall f :: f in init ==> f in fs;
      }
    }
  }

  /** Files whose concatenation is sorted form a sorted level. */
  lemma {:induction false} SortedContentsSortedLevel(fs: seq<File>)
    requires (forall f :: f in fs ==> FileOk(f)) && Sorted(FilesContents(fs))
    ensures LevelSorted(fs)
  {
    hide FileOk;
    if fs != [] {
      var n := |fs| - 1;
      var init := FilesContents(fs[..n]);
      PrefixStaysSorted(init, fs[n].entries);
      SortedContentsSortedLevel(fs[..n]);
      FilesContentsMembers(fs[..n]);
      forall i | 0 <= i < n
        ensures Less(fs[i].largest, fs[n].smallest)
      {
        Ends(fs[i]);
        Ends(fs[n]);
        assert fs[i] in fs[..n];
        BeforeAfter(init, fs[n].entries, fs[i].entries[|fs[i].entries| - 1], fs[n].entries[0]);
      }
      AppendSortedLevel(fs, n);
    }
  }

  lemma Ends(f: File)
    requires FileOk(f)
    ensures f.entries != [] && f.smallest == f.entries[0].key && f.largest == f.entries[|f.entries| - 1].key
  {
  }

  lemma PrefixStaysSorted(a: seq<Entry>, b: seq<Entry>)
    requires Sorted(a + b)
    ensures Sorted(a)
  {
    assert forall i :: 0 <= i < |a| ==> (a + b)[i] == a[i];
  }

  lemma BeforeAfter(a: seq<Entry>, b: seq<Entry>, d: Entry, e: Entry)
    requires Sorted(a + b) && d in a && e in b
    ensures Less(d.key, e.key)
  {
    var i :| 0 <= i < |a| && a[i] == d;
    var j :| 0 <= j < |b| && b[j] == e;
    assert (a + b)[i] == d && (a + b)[|a| + j] == e;
  }

  lemma AppendSortedLevel(fs: seq<File>, n: nat)
    requires n + 1 == |fs| && LevelSorted(fs[..n]) && forall i :: 0 <= i < n ==> Less(fs[i].largest, fs[n].smallest)
    ensures LevelSorted(fs)
  {
    forall i, j | 0 <= i < j < |fs|
      ensures Less(fs[i].largest, fs[j].smallest)
    {
      if j < n {
        assert fs[..n][i] == fs[i] && fs[..n][j] == fs[j];
      }
    }
  }

  /** Every entry of an output is a kept input. */
  lemma OutputEntries(v: Version, level: nat, all: seq<Entry>, s: SequenceNumber, inputs0: seq<File>,
                      inputs1: seq<File>, outputs: seq<File>)
    requires MergedInputs(all, inputs0, inputs1) && Outputs(v, level, all, s, outputs)
    ensures LevelSorted(outputs)
    ensures forall e :: InFiles(outputs, e) <==> KeptInput(v, level, all, s, e)
    ensures forall o, e :: o in outputs && e in o.entries ==> InInputs(inputs0, inputs1, e)
  {
    hide FileOk, Dropped, LevelSorted;
    KeptIsFilter(v, level, all, s, |all|);
    FilesContentsMembers(outputs);
    SortedContentsSortedLevel(outputs);
    forall o, e | o in outputs && e in o.entries
      ensures InInputs(inputs0, inputs1, e)
    {
      assert InFiles(outputs, e);
      assert e in all;
    }
  }

  // ----- Exactly what is written -----

  /** Some live snapshot sees the entry as the newest of its user among the inputs; and if it is a deletion
      that all of them see, some file two or more levels below may still hold what it deletes. */
  ghost predicate StillNeeded(v: Version, level: nat, inputs0: seq<File>, inputs1: seq<File>, s: SequenceNumber, e: Entry) {
    && (exists s': SequenceNumber :: s <= s' && IsNewest(LevelContents(inputs0 + inputs1), e.key.user, s', e))
    && (e.key.kind == Deletion && e.key.sequence <= s ==>
          exists l, f :: level + 2 <= l < |v| && f in v[l] && f.smallest.user <= e.key.user <= f.largest.user)
  }

  lemma InputContents(inputs0: seq<File>, inputs1: seq<File>)
    ensures forall e :: e in LevelContents(inputs0 + inputs1) <==> InInputs(inputs0, inputs1, e)
  {
    forall e ensures e in LevelContents(inputs0 + inputs1) <==> InInputs(inputs0, inputs1, e) {
      assert forall f :: f in inputs0 + inputs1 <==> f in inputs0 || f in inputs1;
    }
  }

  lemma InputsUnique(v: Version, level: nat, inputs0: seq<File>, inputs1: seq<File>)
    requires VersionOk(v) && InputsOk(v, level, inputs0, inputs1)
    ensures UniqueSequences(LevelContents(inputs0 + inputs1))
  {
    hide FileOk, LevelSorted, Layered, VersionNumbersUnique, InputsOk;
    InputContents(inputs0, inputs1);
    forall e | InInputs(inputs0, inputs1, e) ensures e in Contents(v) {
      InputInContents(v, level, inputs0, inputs1, e);
    }
  }

  /** The newest input of a user at some live snapshot is the one before which all of its user are too new for
      the oldest. */
  lemma NewestAtSome(all: seq<Entry>, db: set<Entry>, s: SequenceNumber, i: nat)
    requires Sorted(all) && UniqueSequences(db) && (forall e :: e in db <==> e in all) && i < |all|
    ensures (exists s': SequenceNumber :: s <= s' && IsNewest(db, all[i].key.user, s', all[i]))
        <==> !exists j :: 0 <= j < i && all[j].key.user == all[i].key.user && all[j].key.sequence <= s
  {
    var e := all[i];
    if j :| 0 <= j < i && all[j].key.user == e.key.user && all[j].key.sequence <= s {
      assert all[j] in db && e in db && Less(all[j].key, e.key);
      assert all[j].key.sequence > e.key.sequence;
    } else {
      var s' := if e.key.sequence > s then e.key.sequence else s;
      forall d | d in db && d.key.user == e.key.user && d.key.sequence <= s' ensures d.key.sequence <= e.key.sequence {
        var j :| 0 <= j < |all| && all[j] == d;
        assert j > i ==> Less(e.key, d.key);
      }
      assert IsNewest(db, e.key.user, s', e);
    }
  }

  /** The outputs hold exactly the inputs that are still needed: nothing that a live snapshot reads is
      missing, and nothing superseded is kept. */
  lemma OutputsAreNeeded(v: Version, w: Version, level: nat, inputs0: seq<File>, inputs1: seq<File>,
                         all: seq<Entry>, s: SequenceNumber, outputs: seq<File>, e: Entry)
    requires Compacts(v, w, level, inputs0, inputs1, all, s, outputs)
    ensures InFiles(outputs, e) <==> InInputs(inputs0, inputs1, e) && StillNeeded(v, level, inputs0, inputs1, s, e)
  {
    hide FileOk, InputsOk, VersionOk, Installed, FreshNumbers, IsNewest, Sorted;
    OutputEntries(v, level, all, s, inputs0, inputs1, outputs);
    InputContents(inputs0, inputs1);
    InputsUnique(v, level, inputs0, inputs1);
    if e in all {
      forall i | 0 <= i < |all| && all[i] == e
        ensures Dropped(v, level, all, s, i) <==> !StillNeeded(v, level, inputs0, inputs1, s, e)
      {
        NewestAtSome(all, LevelContents(inputs0 + inputs1), s, i);
      }
    }
  }

  // ----- The version after the compaction is well-formed -----

  /** The premises of a compaction: well-formed version, well-chosen inputs, kept outputs with file
      numbers of their own, and their installation. */
  ghost predicate Compacts(v: Version, w: Version, level: nat, inputs0: seq<File>, inputs1: seq<File>,
                           all: seq<Entry>, s: SequenceNumber, outputs: seq<File>)
  {
    && VersionOk(v) && InputsOk(v, level, inputs0, inputs1)
    && MergedInputs(all, inputs0, inputs1)
    && Outputs(v, level, all, s, outputs) && FreshNumbers(v, outputs)
    && Installed(v, w, level, inputs0, inputs1, outputs)
  }

  /** An output against a file left out of level + 1: their ranges do not meet. */
  lemma OutputApart(v: Version, level: nat, inputs0: seq<File>, inputs1: seq<File>, r: File, o: File)
    requires VersionOk(v) && InputsOk(v, level, inputs0, inputs1) && LeftOut(v[level + 1], inputs1, r)
    requires FileOk(o) && forall e :: e in o.entries ==> InInputs(inputs0, inputs1, e)
    ensures Less(r.largest, o.smallest) || Less(o.largest, r.smallest)
  {
    hide FileOk, InputsOk, VersionOk;
    LowerOnOneSide(v, level, inputs0, inputs1, r);
    InputsFileOk(v, level, inputs0, inputs1);
    Ends(o);
    var d, e := o.entries[0], o.entries[|o.entries| - 1];
    assert InInputs(inputs0, inputs1, d) && InInputs(inputs0, inputs1, e);
    var f :| (f in inputs0 || f in inputs1) && d in f.entries;
    var g :| (g in inputs0 || g in inputs1) && e in g.entries;
    InRange(f, d);
    InRange(g, e);
  }

  lemma InputsFileOk(v: Version, level: nat, inputs0: seq<File>, inputs1: seq<File>)
    requires VersionOk(v) && InputsOk(v, level, inputs0, inputs1)
    ensures |v| == NUM_LEVELS && level + 1 < NUM_LEVELS
    ensures forall f :: f in inputs0 ==> f in v[level] && FileOk(f)
    ensures forall f :: f in inputs1 ==> f in v[level + 1] && FileOk(f)
  {
  }

  /** Files that are in order and pairwise apart form a sorted level. */
  lemma ApartInOrder(fs: seq<File>)
    requires Ordered(fs) && forall f :: f in fs ==> FileOk(f)
    requires forall f, g :: f in fs && g in fs && f != g ==> Less(f.largest, g.smallest) || Less(g.largest, f.smallest)
    ensures LevelSorted(fs)
  {
    hide FileOk;
    forall i, j | 0 <= i < j < |fs|
      ensures Less(fs[i].largest, fs[j].smallest)
    {
      RangeOk(fs[i]);
      RangeOk(fs[j]);
    }
  }

  lemma LowerLevelSorted(v: Version, w: Version, level: nat, inputs0: seq<File>, inputs1: seq<File>,
                         all: seq<Entry>, s: SequenceNumber, outputs: seq<File>)
    requires Compacts(v, w, level, inputs0, inputs1, all, s, outputs)
    ensures (forall f :: f in w[level + 1] ==> FileOk(f)) && LevelSorted(w[level + 1])
  {
    hide FileOk, InputsOk, LevelSorted, Layered, VersionNumbersUnique;
    InputsFileOk(v, level, inputs0, inputs1);
    OutputEntries(v, level, all, s, inputs0, inputs1, outputs);
    forall f, g | f in w[level + 1] && g in w[level + 1] && f != g
      ensures Less(f.largest, g.smallest) || Less(g.largest, f.smallest)
    {
      if f in outputs && g in outputs {
        OneSideOf(outputs, f, g);
      } else if f in outputs {
        OutputApart(v, level, inputs0, inputs1, g, f);
      } else if g in outputs {
        OutputApart(v, level, inputs0, inputs1, f, g);
      } else {
        OneSideOf(v[level + 1], f, g);
      }
    }
    ApartInOrder(w[level + 1]);
  }

  /** A file of a shallower level, or one of the upper level that is not an input, holds only newer
      entries than an output. */
  lemma NewerThanOutput(v: Version, level: nat, inputs0: seq<File>, inputs1: seq<File>, l: nat, g: File, o: File)
    requires VersionOk(v) && InputsOk(v, level, inputs0, inputs1) && l <= level && g in v[l]
    requires l == level ==> g !in inputs0
    requires forall e :: e in o.entries ==> InInputs(inputs0, inputs1, e)
    ensures Newer(g, o)
  {
    hide FileOk, LevelSorted, VersionNumbersUnique, UpperInputsOk, LowerInputsOk;
    InputsFileOk(v, level, inputs0, inputs1);
    forall d, e | d in g.entries && e in o.entries && d.key.user == e.key.user
      ensures d.key.sequence > e.key.sequence
    {
      assert InInputs(inputs0, inputs1, e);
      if InFiles(inputs1, e) {
        var i :| i in inputs1 && e in i.entries;
        assert Newer(g, i);
      } else {
        var i :| i in inputs0 && e in i.entries;
        if l < level {
          assert Newer(g, i);
        } else {
          UpperStaysNewer(v, level, inputs0, g, i);
        }
      }
    }
  }

  /** An output holds only newer entries than a file of a deeper level. */
  lemma OutputNewerThanDeeper(v: Version, level: nat, inputs0: seq<File>, inputs1: seq<File>, m: nat, g: File, o: File)
    requires VersionOk(v) && InputsOk(v, level, inputs0, inputs1) && level + 1 < m < NUM_LEVELS && g in v[m]
    requires forall e :: e in o.entries ==> InInputs(inputs0, inputs1, e)
    ensures Newer(o, g)
  {
    hide FileOk, LevelSorted, VersionNumbersUnique, UpperInputsOk, LowerInputsOk;
    InputsFileOk(v, level, inputs0, inputs1);
    forall d, e | d in o.entries && e in g.entries && d.key.user == e.key.user
      ensures d.key.sequence > e.key.sequence
    {
      assert InInputs(inputs0, inputs1, d);
      if InFiles(inputs1, d) {
        var i :| i in inputs1 && d in i.entries;
        assert Newer(i, g);
      } else {
        var i :| i in inputs0 && d in i.entries;
        assert Newer(i, g);
      }
    }
  }

  lemma LayeredAfter(v: Version, w: Version, level: nat, inputs0: seq<File>, inputs1: seq<File>,
                     all: seq<Entry>, s: SequenceNumber, outputs: seq<File>)
    requires Compacts(v, w, level, inputs0, inputs1, all, s, outputs)
    ensures Layered(w)
  {
    hide FileOk, InputsOk, LevelSorted, VersionNumbersUnique, Ordered, MergedInputs, Outputs, Newer;
    OutputEntries(v, level, all, s, inputs0, inputs1, outputs);
    InputsFileOk(v, level, inputs0, inputs1);
    forall l, m, f, g | 0 <= l < m < |w| && f in w[l] && g in w[m]
      ensures Newer(f, g)
    {
      if m == level + 1 && g in outputs {
        NewerThanOutput(v, level, inputs0, inputs1, l, f, g);
      } else if l == level + 1 && f in outputs {
        OutputNewerThanDeeper(v, level, inputs0, inputs1, m, g, f);
      } else {
        assert f in v[l] && g in v[m];
      }
    }
    assert forall f :: f in w[0] ==> f in v[0];
  }

  lemma ContentsShrink(v: Version, w: Version, level: nat, inputs0: seq<File>, inputs1: seq<File>,
                       all: seq<Entry>, s: SequenceNumber, outputs: seq<File>)
    requires Compacts(v, w, level, inputs0, inputs1, all, s, outputs)
    ensures Contents(w) <= Contents(v)
  {
    hide FileOk, InputsOk, LevelSorted, VersionNumbersUnique, Layered, Ordered, MergedInputs, Outputs;
    OutputEntries(v, level, all, s, inputs0, inputs1, outputs);
    InputsFileOk(v, level, inputs0, inputs1);
    forall e | e in Contents(w)
      ensures e in Contents(v)
    {
      var l, f :| 0 <= l < |w| && f in w[l] && e in f.entries;
      if l == level + 1 && f in outputs {
        InputInContents(v, level, inputs0, inputs1, e);
      } else {
        assert f in v[l];
      }
    }
  }

  lemma InputInContents(v: Version, level: nat, inputs0: seq<File>, inputs1: seq<File>, e: Entry)
    requires VersionOk(v) && InputsOk(v, level, inputs0, inputs1) && InInputs(inputs0, inputs1, e)
    ensures e in Contents(v)
  {
    hide FileOk, LevelSorted, VersionNumbersUnique, Layered, InputsOk;
    InputsFileOk(v, level, inputs0, inputs1);
    var f :| (f in inputs0 || f in inputs1) && e in f.entries;
  }

  /** A compaction leaves the version well-formed: levels sorted and disjoint, shallower levels newer. */
  lemma CompactionKeepsVersionOk(v: Version, w: Version, level: nat, inputs0: seq<File>, inputs1: seq<File>,
                                 all: seq<Entry>, s: SequenceNumber, outputs: seq<File>)
    requires Compacts(v, w, level, inputs0, inputs1, all, s, outputs)
    ensures VersionOk(w)
  {
    hide FileOk, InputsOk, LevelSorted, Layered, Ordered, MergedInputs, Outputs, VersionNumbersUnique;
    InputsFileOk(v, level, inputs0, inputs1);
    LowerLevelSorted(v, w, level, inputs0, inputs1, all, s, outputs);
    UpperLevelSorted(v, w, level, inputs0, inputs1, outputs);
    LayeredAfter(v, w, level, inputs0, inputs1, all, s, outputs);
    ContentsShrink(v, w, level, inputs0, inputs1, all, s, outputs);
    NumbersStayUnique(v, w, level, inputs0, inputs1, outputs);
    forall l, f | 0 <= l < |w| && f in w[l]
      ensures FileOk(f)
    {
      if l != level + 1 {
        assert f in v[l];
      }
    }
    forall l | 0 < l < |w|
      ensures LevelSorted(w[l])
    {
      if l != level && l != level + 1 {
        assert w[l] == v[l];
      }
    }
  }

  lemma UpperLevelSorted(v: Version, w: Version, level: nat, inputs0: seq<File>, inputs1: seq<File>, outputs: seq<File>)
    requires VersionOk(v) && level + 1 < NUM_LEVELS && Installed(v, w, level, inputs0, inputs1, outputs)
    ensures level > 0 ==> LevelSorted(w[level])
  {
    hide FileOk, LevelSorted, Layered, Ordered, VersionNumbersUnique;
    if level > 0 {
      forall f, g | f in w[level] && g in w[level] && f != g
        ensures Less(f.largest, g.smallest) || Less(g.largest, f.smallest)
      {
        OneSideOf(v[level], f, g);
      }
      ApartInOrder(w[level]);
    }
  }

  lemma NumbersStayUnique(v: Version, w: Version, level: nat, inputs0: seq<File>, inputs1: seq<File>, outputs: seq<File>)
    requires VersionOk(v) && level + 1 < NUM_LEVELS && Installed(v, w, level, inputs0, inputs1, outputs)
    requires FreshNumbers(v, outputs)
    ensures VersionNumbersUnique(w)
  {
    hide FileOk, LevelSorted, Layered, Ordered;
    forall l, f | 0 <= l < |w| && f in w[l]
      ensures f in v[l] || (l == level + 1 && f in outputs)
    {
    }
  }

  // ----- Reads -----

  /** The newest entry a snapshot at or above s sees, if the compaction loses it, is an old deletion
      in the inputs with nothing deeper. */
  lemma LostNewest(v: Version, w: Version, level: nat, inputs0: seq<File>, inputs1: seq<File>,
                   all: seq<Entry>, s: SequenceNumber, outputs: seq<File>, s': SequenceNumber, e: Entry)
    requires Compacts(v, w, level, inputs0, inputs1, all, s, outputs) && s <= s'
    requires IsNewest(Contents(v), e.key.user, s', e) && e !in Contents(w)
    ensures InInputs(inputs0, inputs1, e) && e.key.kind == Deletion && e.key.sequence <= s
    ensures BaseLevel(v, level, e.key.user)
  {
    hide FileOk, InputsOk, LevelSorted, VersionNumbersUnique, Layered, Ordered, BaseLevel;
    OutputEntries(v, level, all, s, inputs0, inputs1, outputs);
    InputsFileOk(v, level, inputs0, inputs1);
    var l, f :| 0 <= l < |v| && f in v[l] && e in f.entries;
    assert f !in w[l];
    assert InInputs(inputs0, inputs1, e);
    var i :| 0 <= i < |all| && all[i] == e;
    assert forall o :: o in outputs ==> o in w[level + 1];
    assert !InFiles(outputs, e);
    assert Dropped(v, level, all, s, i);
    forall j | 0 <= j < i && all[j].key.user == e.key.user
      ensures all[j].key.sequence > s
    {
      assert Less(all[j].key, all[i].key);
      assert all[j] in all;
      InputInContents(v, level, inputs0, inputs1, all[j]);
    }
  }

  /** Once such a deletion is lost, whatever the snapshot still sees of its user key lies in files
      left out of the compaction at level + 1. */
  lemma RemainsLeftOut(v: Version, w: Version, level: nat, inputs0: seq<File>, inputs1: seq<File>,
                       all: seq<Entry>, s: SequenceNumber, outputs: seq<File>, s': SequenceNumber, t: Entry, e: Entry)
    requires Compacts(v, w, level, inputs0, inputs1, all, s, outputs) && s <= s'
    requires IsNewest(Contents(v), t.key.user, s', t)
    requires InInputs(inputs0, inputs1, t) && t.key.kind == Deletion && t.key.sequence <= s
    requires BaseLevel(v, level, t.key.user)
    requires e in Contents(w) && VisibleTo(e, t.key.user, s')
    ensures exists f :: LeftOut(v[level + 1], inputs1, f) && e in f.entries
  {
    hide FileOk, InputsOk, LevelSorted, VersionNumbersUnique, Layered, Ordered;
    OutputEntries(v, level, all, s, inputs0, inputs1, outputs);
    ContentsShrink(v, w, level, inputs0, inputs1, all, s, outputs);
    InputsFileOk(v, level, inputs0, inputs1);
    var l, f :| 0 <= l < |w| && f in w[l] && e in f.entries;
    if l <= level {
      NewerThanOutput(v, level, inputs0, inputs1, l, f, File(0, 0, t.key, t.key, [t]));
    } else if l > level + 1 {
      assert f in v[l] && FileOk(f);
      InRange(f, e);
    } else if f in outputs {
      assert InFiles(outputs, e);
      KeptIsNotOlder(v, level, all, s, t, e);
    }
  }

  /** A kept input is not older than an input of its user that is old enough for every snapshot. */
  lemma KeptIsNotOlder(v: Version, level: nat, all: seq<Entry>, s: SequenceNumber, t: Entry, e: Entry)
    requires Sorted(all) && t in all && KeptInput(v, level, all, s, e)
    requires t.key.user == e.key.user && t.key.sequence <= s
    requires t.key.kind == Deletion && BaseLevel(v, level, t.key.user)
    ensures e.key.sequence > t.key.sequence || (e.key.sequence == t.key.sequence && e != t)
  {
    var i :| 0 <= i < |all| && all[i] == t;
    var j :| 0 <= j < |all| && all[j] == e && !Dropped(v, level, all, s, j);
    assert j < i;
    assert Less(all[j].key, all[i].key);
  }

  /** A deletion that hid a left-out value is gone: the read at the oldest snapshot returns the value. */
  lemma ExposedIsRead(v: Version, w: Version, level: nat, inputs0: seq<File>, inputs1: seq<File>,
                      all: seq<Entry>, s: SequenceNumber, outputs: seq<File>, t: Entry, e: Entry, f: File)
    requires Compacts(v, w, level, inputs0, inputs1, all, s, outputs) && ExposedBy(v, level, inputs0, inputs1, s, t, e, f)
    ensures Read(Contents(v), t.key.user, s) == None
    ensures Read(Contents(w), t.key.user, s) == Some(e.value)
  {
    hide FileOk, LevelSorted, VersionNumbersUnique, Layered, Ordered, BaseLevel, MergedInputs, Outputs, UpperInputsOk, LowerInputsOk;
    ReadOfNewest(Contents(v), t.key.user, s, t);
    ContentsShrink(v, w, level, inputs0, inputs1, all, s, outputs);
    LeftOutInContents(v, w, level, inputs0, inputs1, outputs);
    forall d | d in Contents(w) && VisibleTo(d, t.key.user, s)
      ensures d.key.sequence <= e.key.sequence
    {
      RemainsLeftOut(v, w, level, inputs0, inputs1, all, s, outputs, s, t, d);
    }
    ReadOfNewest(Contents(w), t.key.user, s, e);
  }

  /** When no value of the user is exposed, a read at a live snapshot returns what it returned before. */
  lemma ReadPreserved(v: Version, w: Version, level: nat, inputs0: seq<File>, inputs1: seq<File>,
                      all: seq<Entry>, s: SequenceNumber, outputs: seq<File>, user: UserKey, s': SequenceNumber)
    requires Compacts(v, w, level, inputs0, inputs1, all, s, outputs) && s <= s'
    requires forall t, e, f :: ExposedBy(v, level, inputs0, inputs1, s, t, e, f) ==> t.key.user != user
    ensures Read(Contents(w), user, s') == Read(Contents(v), user, s')
  {
    hide FileOk, VersionOk, Ordered, BaseLevel, MergedInputs, Outputs, Installed, InputsOk, Read, ExposedBy;
    ContentsShrink(v, w, level, inputs0, inputs1, all, s, outputs);
    UniqueBoth(v, w, level, inputs0, inputs1, all, s, outputs);
    if e :| IsNewest(Contents(v), user, s', e) {
      ReadOfNewest(Contents(v), user, s', e);
      if e in Contents(w) {
        ReadOfNewest(Contents(w), user, s', e);
      } else {
        LostNewest(v, w, level, inputs0, inputs1, all, s, outputs, s', e);
        if d :| IsNewest(Contents(w), user, s', d) {
          if d.key.kind == Value {
            StillReadIsExposed(v, w, level, inputs0, inputs1, all, s, outputs, s', e, d);
          }
          ReadOfNewest(Contents(w), user, s', d);
        } else {
          ReadOfNothing(Contents(w), user, s');
        }
      }
    } else {
      forall d | IsNewest(Contents(w), user, s', d)
        ensures false
      {
        var n := VisibleHasNewest(Contents(v), user, s', d);
      }
      ReadOfNothing(Contents(v), user, s');
      ReadOfNothing(Contents(w), user, s');
    }
  }

  lemma ReadOfNothing(db: set<Entry>, user: UserKey, s: SequenceNumber)
    requires forall e :: !IsNewest(db, user, s, e)
    ensures Read(db, user, s) == None
  {
  }

  lemma UniqueBoth(v: Version, w: Version, level: nat, inputs0: seq<File>, inputs1: seq<File>,
                   all: seq<Entry>, s: SequenceNumber, outputs: seq<File>)
    requires Compacts(v, w, level, inputs0, inputs1, all, s, outputs)
    ensures UniqueSequences(Contents(v)) && UniqueSequences(Contents(w))
  {
    hide FileOk, Ordered, MergedInputs, Outputs, Installed, InputsOk, Layered;
    ContentsShrink(v, w, level, inputs0, inputs1, all, s, outputs);
  }

  /** A value still visible after the newest entry of its user was lost was exposed. */
  lemma StillReadIsExposed(v: Version, w: Version, level: nat, inputs0: seq<File>, inputs1: seq<File>,
                           all: seq<Entry>, s: SequenceNumber, outputs: seq<File>, s': SequenceNumber,
                           t: Entry, d: Entry)
    requires Compacts(v, w, level, inputs0, inputs1, all, s, outputs) && s <= s'
    requires IsNewest(Contents(v), t.key.user, s', t) && t !in Contents(w)
    requires IsNewest(Contents(w), t.key.user, s', d) && d.key.kind == Value
    ensures exists f :: ExposedBy(v, level, inputs0, inputs1, s, t, d, f)
  {
    hide FileOk, Ordered, BaseLevel, MergedInputs, Outputs, VersionOk, UpperInputsOk, LowerInputsOk, FreshNumbers;
    hide LevelBecomes;
    LostNewest(v, w, level, inputs0, inputs1, all, s, outputs, s', t);
    ContentsShrink(v, w, level, inputs0, inputs1, all, s, outputs);
    RemainsLeftOut(v, w, level, inputs0, inputs1, all, s, outputs, s', t, d);
    var f :| LeftOut(v[level + 1], inputs1, f) && d in f.entries;
    LeftOutInContents(v, w, level, inputs0, inputs1, outputs);
    assert NewestLeftOut(v[level + 1], inputs1, t.key.user, s, d);
    assert ExposedBy(v, level, inputs0, inputs1, s, t, d, f);
  }

  lemma LeftOutInContents(v: Version, w: Version, level: nat, inputs0: seq<File>, inputs1: seq<File>, outputs: seq<File>)
    requires |v| == NUM_LEVELS && level + 1 < NUM_LEVELS && Installed(v, w, level, inputs0, inputs1, outputs)
    ensures forall f, e :: LeftOut(v[level + 1], inputs1, f) && e in f.entries ==> e in Contents(w)
  {
    forall f, e | LeftOut(v[level + 1], inputs1, f) && e in f.entries
      ensures e in Contents(w)
    {
      assert f in w[level + 1];
    }
  }

  /** The main result: an installed compaction preserves every read at every live snapshot exactly
      when its inputs expose no deleted value. */
  lemma CompactionPreservesReads(v: Version, w: Version, level: nat, inputs0: seq<File>, inputs1: seq<File>,
                                 all: seq<Entry>, s: SequenceNumber, outputs: seq<File>)
    requires Compacts(v, w, level, inputs0, inputs1, all, s, outputs)
    ensures (forall user, s' :: s <= s' ==> Read(Contents(w), user, s') == Read(Contents(v), user, s'))
        <==> !Exposes(v, level, inputs0, inputs1, s)
  {
    hide FileOk, InputsOk, LevelSorted, VersionNumbersUnique, Layered, Ordered, BaseLevel, MergedInputs, Outputs, Compacts;
    hide Read, IsNewest, ExposedBy;
    InputsShape(v, w, level, inputs0, inputs1, all, s, outputs);
    if Exposes(v, level, inputs0, inputs1, s) {
      var t, e, f :| ExposedBy(v, level, inputs0, inputs1, s, t, e, f);
      ExposedIsRead(v, w, level, inputs0, inputs1, all, s, outputs, t, e, f);
    } else {
      forall user, s' | s <= s'
        ensures Read(Contents(w), user, s') == Read(Contents(v), user, s')
      {
        ReadPreserved(v, w, level, inputs0, inputs1, all, s, outputs, user, s');
      }
    }
  }

  lemma InputsShape(v: Version, w: Version, level: nat, inputs0: seq<File>, inputs1: seq<File>,
                    all: seq<Entry>, s: SequenceNumber, outputs: seq<File>)
    requires Compacts(v, w, level, inputs0, inputs1, all, s, outputs)
    ensures |v| == NUM_LEVELS && level + 1 < NUM_LEVELS
  {
  }

  /** The lower inputs end where their last user key ends. */
  ghost predicate LowerClosed(lower: seq<File>, inputs1: seq<File>) {
    forall f, g :: f in inputs1 && LeftOut(lower, inputs1, g) && Less(f.largest, g.smallest) ==>
      f.largest.user != g.smallest.user
  }

  /** Inputs closed over boundary keys at level + 1 too expose nothing. */
  lemma ClosedInputsExposeNothing(v: Version, level: nat, inputs0: seq<File>, inputs1: seq<File>, s: SequenceNumber)
    requires VersionOk(v) && InputsOk(v, level, inputs0, inputs1) && LowerClosed(v[level + 1], inputs1)
    ensures !Exposes(v, level, inputs0, inputs1, s)
  {
    hide FileOk, VersionNumbersUnique, Layered, UpperInputsOk, LowerInputsOk, BaseLevel, LevelSorted;
    forall t, e, f | InInputs(inputs0, inputs1, t) && IsNewest(Contents(v), t.key.user, s, t)
        && LeftOut(v[level + 1], inputs1, f) && e in f.entries && VisibleTo(e, t.key.user, s)
      ensures false
    {
      InputsFileOk(v, level, inputs0, inputs1);
      LowerFacts(v, level, inputs0, inputs1);
      InRange(f, e);
      var g :| (g in inputs0 || g in inputs1) && t in g.entries;
      InRange(g, t);
      if g in inputs0 {
        LowerOnOneSide(v, level, inputs0, inputs1, f);
      } else {
        OneSideOf(v[level + 1], f, g);
      }
    }
  }
}
