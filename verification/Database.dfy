/** Whole operations on the current version: look up, flush, compact.  Every change goes through a
    version edit, and every version reached is well-formed. */
module Database {
  import opened InternalKeys
  import opened Reads
  import opened Cursors
  import opened Versions
  import opened VersionEdits
  import opened CompactionInputs
  import opened CompactionWork
  import opened CompactionTheorem
  import opened LevelMoves

  /** Build the version an edit leads to. */
  method LogAndApply(v: Version, edit: VersionEdit) returns (w: Version)
    requires |v| == NUM_LEVELS && forall l :: 0 <= l < NUM_LEVELS ==> Ordered(v[l])
    requires AddsFresh(v, [edit])
    requires forall p :: p in edit.deletedFiles ==> p.0 < NUM_LEVELS
    requires forall i :: 0 <= i < |edit.newFiles| ==> edit.newFiles[i].0 < NUM_LEVELS
    ensures |w| == NUM_LEVELS
    ensures forall l :: 0 <= l < NUM_LEVELS ==> Ordered(w[l])
    ensures forall l :: 0 <= l < NUM_LEVELS ==> FileSet(w[l]) == ApplyOne(FileSet(v[l]), edit, l)
  {
    w := ApplyEdits(v, [edit]);
    forall l | 0 <= l < NUM_LEVELS
      ensures FileSet(w[l]) == ApplyOne(FileSet(v[l]), edit, l)
    {
      ApplySingle(FileSet(v[l]), edit, l);
    }
  }

  lemma ApplySingle(files: iset<File>, edit: VersionEdit, level: nat)
    ensures ApplyInTurn(files, [edit], level) == ApplyOne(files, edit, level)
  {
    assert [edit][..0] == [];
  }

  /** Level by level, a well-formed version is what the builder expects. */
  lemma VersionOrdered(v: Version)
    requires VersionOk(v)
    ensures |v| == NUM_LEVELS && forall l :: 0 <= l < NUM_LEVELS ==> Ordered(v[l])
  {
    hide Layered, VersionNumbersUnique;
    forall l | 0 < l < NUM_LEVELS
      ensures Ordered(v[l])
    {
      LevelOrdered(v[l]);
    }
  }

  lemma LevelOrdered(fs: seq<File>)
    requires LevelSorted(fs) && forall f :: f in fs ==> FileOk(f)
    ensures Ordered(fs)
  {
    hide FileOk;
    forall i, j | 0 <= i < j < |fs|
      ensures BySmallestKey(fs[i], fs[j])
    {
      RangeOk(fs[i]);
    }
  }

  ghost predicate SameFiles(before: seq<File>, after: seq<File>) {
    FileSet(before) == FileSet(after)
  }

  /** Ordered levels with the same files are the same sequence. */
  lemma {:induction false} OrderedUnique(fs: seq<File>, gs: seq<File>)
    requires Ordered(fs) && Ordered(gs) && SameFiles(fs, gs)
    ensures fs == gs
    decreases |fs|
  {
    hide BySmallestKey;
    if fs == [] {
      FirstInSet(gs);
    } else {
      assert fs[0] in FileSet(gs) && gs != [];
      assert gs[0] in FileSet(fs);
      var i :| 0 <= i < |gs| && gs[i] == fs[0];
      var j :| 0 <= j < |fs| && fs[j] == gs[0];
      if i > 0 {
        NotBothBefore(fs[0], gs[0]);
      }
      forall f
        ensures f in fs[1..] <==> f in gs[1..]
      {
        HeadNotInTail(fs);
        HeadNotInTail(gs);
        assert f in fs <==> f in FileSet(fs);
        assert f in gs <==> f in FileSet(gs);
      }
      OrderedUnique(fs[1..], gs[1..]);
    }
  }

  lemma FirstInSet(fs: seq<File>)
    ensures fs != [] ==> fs[0] in FileSet(fs)
  {
  }

  lemma NotBothBefore(f: File, g: File)
    ensures !(BySmallestKey(f, g) && BySmallestKey(g, f)) && !BySmallestKey(f, f)
  {
  }

  lemma HeadNotInTail(fs: seq<File>)
    requires fs != [] && Ordered(fs)
    ensures forall f :: f in fs <==> f == fs[0] || f in fs[1..]
    ensures fs[0] !in fs[1..]
  {
    NotBothBefore(fs[0], fs[0]);
  }

  // ----- Flush -----

  /** Flush a memtable: write it as one file and put it as deep as nothing overlaps it. */
  method CompactMemTable(v: Version, mem: seq<Entry>, number: nat, size: nat, maxGrandparentBytes: nat)
    returns (w: Version, ghost level: nat, ghost f: File)
    requires VersionOk(v) && mem != [] && Sorted(mem) && UniqueSequences(set e | e in mem)
    requires forall l, g :: 0 <= l < |v| && g in v[l] ==> g.number < number
    requires forall e, d :: e in mem && d in Contents(v) && e.key.user == d.key.user ==> e.key.sequence > d.key.sequence
    ensures VersionOk(w)
    ensures Contents(w) == Contents(v) + set e | e in mem
    ensures f.entries == mem && f.number == number && FlushedOk(v, f) && FileAdded(v, w, level, f) && Placed(v, level, f)
  {
    hide VersionOk, Ordered, Layered, Sorted;
    var file := File(number, size, mem[0].key, mem[|mem| - 1].key, mem);
    var l := PickLevelForMemTableOutput(v, file.smallest.user, file.largest.user, maxGrandparentBytes);
    var edit := VersionEdit({}, [(l, file)]);
    level, f := l, file;
    VersionOrdered(v);
    FlushEditFresh(v, level, f);
    w := LogAndApply(v, edit);
    FlushEditInstalls(v, w, level, f);
    FlushedIsOk(v, f);
    FlushKeepsVersionOk(v, w, level, f);
  }

  lemma FlushedIsOk(v: Version, f: File)
    requires FileOk(f) && UniqueSequences(set e | e in f.entries)
    requires forall l, g :: 0 <= l < |v| && g in v[l] ==> g.number < f.number
    requires forall e, d :: e in f.entries && d in Contents(v) && e.key.user == d.key.user ==> e.key.sequence > d.key.sequence
    ensures FlushedOk(v, f)
  {
    forall l, g | 0 <= l < |v| && g in v[l]
      ensures Newer(f, g)
    {
      assert forall d :: d in g.entries ==> d in Contents(v);
    }
  }

  lemma FlushEditFresh(v: Version, level: nat, f: File)
    requires |v| == NUM_LEVELS && forall l, g :: 0 <= l < |v| && g in v[l] ==> g.number < f.number
    ensures AddsFresh(v, [VersionEdit({}, [(level, f)])])
  {
  }

  lemma FlushEditInstalls(v: Version, w: Version, level: nat, f: File)
    requires |v| == |w| == NUM_LEVELS && level < NUM_LEVELS
    requires forall l :: 0 <= l < NUM_LEVELS ==> Ordered(v[l]) && Ordered(w[l])
    requires forall l :: 0 <= l < NUM_LEVELS ==> FileSet(w[l]) == ApplyOne(FileSet(v[l]), VersionEdit({}, [(level, f)]), l)
    ensures FileAdded(v, w, level, f)
  {
    hide Ordered;
    var edit := VersionEdit({}, [(level, f)]);
    forall l | 0 <= l < NUM_LEVELS && l != level
      ensures w[l] == v[l]
    {
      assert FileSet(w[l]) == FileSet(v[l]);
      OrderedUnique(w[l], v[l]);
    }
    forall g
      ensures g in w[level] <==> LeftOut(v[level], [], g) || g in [f]
    {
      assert g in w[level] <==> g in FileSet(w[level]);
      assert g in v[level] <==> g in FileSet(v[level]);
      assert (level, g) in edit.newFiles <==> g == f;
    }
  }

  // ----- Compaction -----

  /** The entries of the files of a sorted level, one file after the other, are sorted. */
  lemma {:induction false} LevelContentsSorted(fs: seq<File>)
    requires LevelSorted(fs) && forall f :: f in fs ==> FileOk(f)
    ensures Sorted(FilesContents(fs))
  {
    hide FileOk;
    if fs != [] {
      var n := |fs| - 1;
      PrefixSorted(fs, n);
      LevelContentsSorted(fs[..n]);
      FilesContentsMembers(fs[..n]);
      var init, last := FilesContents(fs[..n]), fs[n];
      Ends(last);
      forall d, e | d in init && e in last.entries
        ensures Less(d.key, e.key)
      {
        var f :| f in fs[..n] && d in f.entries;
        var i :| 0 <= i < n && fs[i] == f;
        InRange(f, d);
        InRange(last, e);
      }
      FileEntriesSorted(last);
      ConcatSorted(init, last.entries);
    }
  }

  lemma ConcatSorted(a: seq<Entry>, b: seq<Entry>)
    requires Sorted(a) && Sorted(b) && forall d, e :: d in a && e in b ==> Less(d.key, e.key)
    ensures Sorted(a + b)
  {
    forall i, j | 0 <= i < j < |a + b|
      ensures Less((a + b)[i].key, (a + b)[j].key)
    {
      if i < |a| <= j {
        assert a[i] in a && b[j - |a|] in b;
      }
    }
  }

  lemma FileEntriesSorted(f: File)
    requires FileOk(f)
    ensures Sorted(f.entries)
  {
  }

  /** The files that overlap a range are files of the level, and keep their order. */
  lemma {:induction false} OverlappingIndices(files: seq<File>, begin: Bound, end: Bound) returns (at: seq<nat>)
    ensures |at| == |Overlapping(files, begin, end)|
    ensures forall i :: 0 <= i < |at| ==> at[i] < |files| && Overlapping(files, begin, end)[i] == files[at[i]]
    ensures forall i, j :: 0 <= i < j < |at| ==> at[i] < at[j]
  {
    hide Overlaps;
    at := [];
    if files != [] {
      var n := |files| - 1;
      at := OverlappingIndices(files[..n], begin, end);
      if Overlaps(files[n], begin, end) {
        at := at + [n];
      }
    }
  }

  lemma OverlappingKeepsOrder(files: seq<File>, begin: Bound, end: Bound)
    ensures Ordered(files) ==> Ordered(Overlapping(files, begin, end))
    ensures LevelSorted(files) ==> LevelSorted(Overlapping(files, begin, end))
  {
    hide Overlapping, BySmallestKey;
    var at := OverlappingIndices(files, begin, end);
  }

  /** Files whose shared user keys differ in age share no internal key. */
  lemma NewerApart(f: File, g: File)
    requires Newer(f, g) || Newer(g, f)
    ensures KeysApart(f.entries, g.entries)
  {
  }

  /** The runs an input iterator merges: the upper inputs one by one at level 0, as one run deeper,
      and the lower inputs as one run. */
  ghost function InputRuns(level: nat, inputs0: seq<File>, inputs1: seq<File>): seq<seq<Entry>> {
    (if level == 0 then seq(|inputs0|, i requires 0 <= i < |inputs0| => inputs0[i].entries)
     else [FilesContents(inputs0)])
    + [FilesContents(inputs1)]
  }

  lemma RunsSorted(v: Version, level: nat, inputs0: seq<File>, inputs1: seq<File>)
    requires VersionOk(v) && InputsOk(v, level, inputs0, inputs1)
    ensures forall i :: 0 <= i < |InputRuns(level, inputs0, inputs1)| ==> Sorted(InputRuns(level, inputs0, inputs1)[i])
  {
    hide FileOk, LevelSorted, Layered, VersionNumbersUnique, Sorted, Ordered, NoBoundary, FilesContents;
    InputsFileOk(v, level, inputs0, inputs1);
    LowerInputsSorted(v[level + 1], inputs0, inputs1);
    LevelContentsSorted(inputs1);
    if level == 0 {
      forall i | 0 <= i < |inputs0|
        ensures Sorted(inputs0[i].entries)
      {
        FileEntriesSorted(inputs0[i]);
      }
    } else {
      SliceSorted(v[level], inputs0);
      LevelContentsSorted(inputs0);
    }
  }

  lemma SliceSorted(files: seq<File>, inputs: seq<File>)
    requires LevelSorted(files) && IsSlice(files, inputs)
    ensures LevelSorted(inputs)
  {
  }

  lemma LowerInputsSorted(lower: seq<File>, inputs0: seq<File>, inputs1: seq<File>)
    requires LevelSorted(lower) && LowerInputsOk(lower, inputs0, inputs1)
    ensures LevelSorted(inputs1)
  {
    hide LevelSorted;
    var s, l :| IsSmallest(inputs0, s) && IsLargest(inputs0, l)
        && inputs1 == Overlapping(lower, Some(s.user), Some(l.user));
    OverlappingKeepsOrder(lower, Some(s.user), Some(l.user));
  }

  /** At level 0 the inputs are different files, so one of any two is newer. */
  lemma UpperInputsApart(v: Version, inputs0: seq<File>, i: nat, j: nat)
    requires VersionOk(v) && UpperInputsOk(v[0], 0, inputs0) && i < j < |inputs0|
    ensures KeysApart(inputs0[i].entries, inputs0[j].entries)
  {
    hide FileOk, LevelSorted, Newer, ClosedRange, BySmallestKey;
    var b, e :| inputs0 == Overlapping(v[0], b, e) && ClosedRange(v[0], b, e);
    OverlappingKeepsOrder(v[0], b, e);
    NotBothBefore(inputs0[i], inputs0[j]);
    assert inputs0[i] != inputs0[j];
    assert inputs0[i] in v[0] && inputs0[j] in v[0];
    NewerApart(inputs0[i], inputs0[j]);
  }

  /** Upper and lower inputs share no internal key. */
  lemma AcrossLevelsApart(v: Version, level: nat, inputs0: seq<File>, inputs1: seq<File>)
    requires VersionOk(v) && InputsOk(v, level, inputs0, inputs1)
    ensures KeysApart(FilesContents(inputs0), FilesContents(inputs1))
    ensures forall f :: f in inputs0 ==> KeysApart(f.entries, FilesContents(inputs1))
  {
    hide FileOk, LevelSorted, VersionNumbersUnique, Ordered, UpperInputsOk, LowerInputsOk, Newer, FilesContents;
    InputsFileOk(v, level, inputs0, inputs1);
    FilesContentsMembers(inputs0);
    FilesContentsMembers(inputs1);
    forall f, d, e | f in inputs0 && d in f.entries && e in FilesContents(inputs1)
      ensures Less(d.key, e.key) || Less(e.key, d.key)
    {
      var g :| g in inputs1 && e in g.entries;
      assert Newer(f, g);
      NewerApart(f, g);
    }
  }

  lemma RunsApart(v: Version, level: nat, inputs0: seq<File>, inputs1: seq<File>, i: nat, j: nat)
    requires VersionOk(v) && InputsOk(v, level, inputs0, inputs1)
    requires i < j < |InputRuns(level, inputs0, inputs1)|
    ensures KeysApart(InputRuns(level, inputs0, inputs1)[i], InputRuns(level, inputs0, inputs1)[j])
  {
    hide VersionOk, UpperInputsOk, LowerInputsOk, KeysApart, FilesContents;
    AcrossLevelsApart(v, level, inputs0, inputs1);
    if level == 0 && j < |inputs0| {
      UpperInputsApart(v, inputs0, i, j);
    } else if level == 0 {
      assert inputs0[i] in inputs0;
    }
  }

  lemma RunsAreInputs(level: nat, inputs0: seq<File>, inputs1: seq<File>, e: Entry)
    ensures InInputs(inputs0, inputs1, e) <==>
        exists i :: 0 <= i < |InputRuns(level, inputs0, inputs1)| && e in InputRuns(level, inputs0, inputs1)[i]
  {
    var runs := InputRuns(level, inputs0, inputs1);
    FilesContentsMembers(inputs0);
    FilesContentsMembers(inputs1);
    var n := |runs| - 1;
    assert runs[n] == FilesContents(inputs1);
    if InInputs(inputs0, inputs1, e) {
      if InFiles(inputs1, e) {
        assert e in runs[n];
      } else if level == 0 {
        var f :| f in inputs0 && e in f.entries;
        var i :| 0 <= i < |inputs0| && inputs0[i] == f;
        assert e in runs[i];
      } else {
        assert e in runs[0];
      }
    }
    if i :| 0 <= i < |runs| && e in runs[i] {
      if i < n && level == 0 {
        assert inputs0[i] in inputs0;
      }
    }
  }

  /** The iterator over the merged inputs of a compaction. */
  method MakeInputIterator(v: Version, level: nat, inputs0: seq<File>, inputs1: seq<File>)
    returns (input: MergingIterator)
    requires VersionOk(v) && InputsOk(v, level, inputs0, inputs1)
    ensures fresh(input) && fresh(input.children) && input.Inv()
    ensures MergedInputs(input.all, inputs0, inputs1)
  {
    hide VersionOk, InputsOk, MergingIterator.Inv;
    ghost var runs := InputRuns(level, inputs0, inputs1);
    RunsSorted(v, level, inputs0, inputs1);
    var list: seq<SortedCursor> := [];
    if level == 0 {
      for i := 0 to |inputs0|
        invariant |list| == i && fresh(list)
        invariant forall k :: 0 <= k < i ==> list[k].Inv() && list[k].entries == runs[k]
        invariant forall k, m :: 0 <= k < m < i ==> list[k] != list[m]
      {
        assert runs[i] == inputs0[i].entries;
        var child := new SortedCursor(inputs0[i].entries);
        list := list + [child];
      }
    } else {
      var entries := ReadFiles(inputs0);
      assert runs[0] == entries;
      var child := new SortedCursor(entries);
      list := [child];
    }
    var entries := ReadFiles(inputs1);
    assert runs[|runs| - 1] == entries;
    var child := new SortedCursor(entries);
    list := list + [child];
    forall i, j | 0 <= i < j < |runs|
      ensures KeysApart(runs[i], runs[j])
    {
      RunsApart(v, level, inputs0, inputs1, i, j);
    }
    UnionExists(runs);
    input := new MergingIterator(list, runs, MergeAll(runs));
    UnionIsInputs(MergeAll(runs), level, inputs0, inputs1);
  }

  lemma UnionIsInputs(all: seq<Entry>, level: nat, inputs0: seq<File>, inputs1: seq<File>)
    requires IsUnion(all, InputRuns(level, inputs0, inputs1))
    ensures MergedInputs(all, inputs0, inputs1)
  {
    forall e
      ensures e in all <==> InInputs(inputs0, inputs1, e)
    {
      RunsAreInputs(level, inputs0, inputs1, e);
    }
  }

  /** The entries of the files, one file after the other. */
  method ReadFiles(fs: seq<File>) returns (entries: seq<Entry>)
    ensures entries == FilesContents(fs)
  {
    entries := [];
    for i := 0 to |fs|
      invariant entries == FilesContents(fs[..i])
    {
      assert fs[..i + 1][..i] == fs[..i];
      entries := entries + fs[i].entries;
    }
    assert fs[..|fs|] == fs;
  }

  /** The edit of a compaction: delete the inputs, add the outputs to the next level. */
  function CompactionEdit(level: nat, inputs0: seq<File>, inputs1: seq<File>, outputs: seq<File>): VersionEdit {
    VersionEdit((set f | f in inputs0 :: (level, f.number)) + (set f | f in inputs1 :: (level + 1, f.number)),
                seq(|outputs|, i requires 0 <= i < |outputs| => (level + 1, outputs[i])))
  }

  lemma CompactionEditAdds(level: nat, inputs0: seq<File>, inputs1: seq<File>, outputs: seq<File>)
    ensures forall l, f :: (l, f) in CompactionEdit(level, inputs0, inputs1, outputs).newFiles <==>
        l == level + 1 && f in outputs
  {
    var adds := CompactionEdit(level, inputs0, inputs1, outputs).newFiles;
    forall f | f in outputs
      ensures (level + 1, f) in adds
    {
      var i :| 0 <= i < |outputs| && outputs[i] == f;
      assert adds[i] == (level + 1, f);
    }
  }

  /** No two files of a level carry the same number, whatever the level. */
  lemma LevelNumbersUnique(v: Version, level: nat)
    requires VersionNumbersUnique(v) && level < |v|
    ensures NumbersUnique(v[level])
  {
  }

  /** The numbers are those of the given files. */
  ghost predicate NumbersAre(numbers: set<nat>, files: seq<File>) {
    forall n :: n in numbers <==> exists g :: g in files && g.number == n
  }

  /** Taking files out of a level by number takes out just those files. */
  lemma DeleteByNumber(files: seq<File>, inputs: seq<File>, numbers: set<nat>, f: File)
    requires NumbersUnique(files) && (forall g :: g in inputs ==> g in files) && f in files
    requires NumbersAre(numbers, inputs)
    ensures f.number in numbers <==> f in inputs
  {
  }

  lemma EditDeletes(level: nat, inputs0: seq<File>, inputs1: seq<File>, outputs: seq<File>)
    ensures NumbersAre(DeletedAt(CompactionEdit(level, inputs0, inputs1, outputs), level), inputs0)
    ensures NumbersAre(DeletedAt(CompactionEdit(level, inputs0, inputs1, outputs), level + 1), inputs1)
    ensures forall l :: l != level && l != level + 1 ==>
        DeletedAt(CompactionEdit(level, inputs0, inputs1, outputs), l) == {}
  {
    var edit := CompactionEdit(level, inputs0, inputs1, outputs);
    forall g | g in inputs0
      ensures g.number in DeletedAt(edit, level)
    {
      assert (level, g.number) in edit.deletedFiles;
    }
    forall g | g in inputs1
      ensures g.number in DeletedAt(edit, level + 1)
    {
      assert (level + 1, g.number) in edit.deletedFiles;
    }
  }

  /** Applying the edit installs the compaction. */
  lemma CompactionEditInstalls(v: Version, w: Version, level: nat, inputs0: seq<File>, inputs1: seq<File>, outputs: seq<File>)
    requires VersionOk(v) && InputsOk(v, level, inputs0, inputs1) && |w| == NUM_LEVELS
    requires forall l :: 0 <= l < NUM_LEVELS ==> Ordered(w[l])
    requires forall l :: 0 <= l < NUM_LEVELS ==>
        FileSet(w[l]) == ApplyOne(FileSet(v[l]), CompactionEdit(level, inputs0, inputs1, outputs), l)
    ensures Installed(v, w, level, inputs0, inputs1, outputs)
  {
    hide Ordered, Layered, FileOk, LevelSorted, InputsOk, NumbersUnique;
    var edit := CompactionEdit(level, inputs0, inputs1, outputs);
    InputsFileOk(v, level, inputs0, inputs1);
    VersionOrdered(v);
    CompactionEditAdds(level, inputs0, inputs1, outputs);
    EditDeletes(level, inputs0, inputs1, outputs);
    LevelNumbersUnique(v, level);
    LevelNumbersUnique(v, level + 1);
    forall l | 0 <= l < NUM_LEVELS && l != level && l != level + 1
      ensures w[l] == v[l]
    {
      assert FileSet(w[l]) == FileSet(v[l]);
      OrderedUnique(w[l], v[l]);
    }
    BecomesByEdit(v[level], w[level], inputs0, [], edit, level);
    BecomesByEdit(v[level + 1], w[level + 1], inputs1, outputs, edit, level + 1);
  }

  lemma BecomesByEdit(before: seq<File>, after: seq<File>, inputs: seq<File>, outputs: seq<File>,
                      edit: VersionEdit, level: nat)
    requires NumbersUnique(before) && forall g :: g in inputs ==> g in before
    requires NumbersAre(DeletedAt(edit, level), inputs)
    requires forall f :: (level, f) in edit.newFiles <==> f in outputs
    requires FileSet(after) == ApplyOne(FileSet(before), edit, level)
    ensures LevelBecomes(before, after, inputs, outputs)
  {
    forall f
      ensures f in after <==> LeftOut(before, inputs, f) || f in outputs
    {
      assert f in after <==> f in FileSet(after);
      if f in before {
        DeleteByNumber(before, inputs, DeletedAt(edit, level), f);
      }
    }
  }

  /** File numbers handed out from `next` on are used by no file of the version. */
  ghost predicate NumbersBelow(v: Version, next: nat) {
    forall l, f :: 0 <= l < |v| && f in v[l] ==> f.number < next
  }

  lemma CompactionEditFresh(v: Version, level: nat, inputs0: seq<File>, inputs1: seq<File>, outputs: seq<File>,
                            first: nat, next: nat)
    requires |v| == NUM_LEVELS && NumbersBelow(v, first) && OutputsOk(outputs, first, next)
    ensures AddsFresh(v, [CompactionEdit(level, inputs0, inputs1, outputs)])
    ensures FreshNumbers(v, outputs) && forall f :: f in outputs ==> FileOk(f)
  {
    hide FileOk;
    CompactionEditAdds(level, inputs0, inputs1, outputs);
  }

  /** One compaction, from picked inputs to the new version: a trivial move when there is one input
      file and nothing below it, a merge otherwise. */
  method BackgroundCompaction(v: Version, level: nat, inputs0: seq<File>, inputs1: seq<File>,
                              smallestSnapshot: SequenceNumber, nextNumber: nat, isManual: bool)
    returns (w: Version, next: nat, ghost trivial: bool, ghost all: seq<Entry>, ghost outputs: seq<File>)
    requires VersionOk(v) && InputsOk(v, level, inputs0, inputs1)
    requires smallestSnapshot < MAX_SEQUENCE && NumbersBelow(v, nextNumber)
    ensures VersionOk(w) && next >= nextNumber
    ensures trivial ==> !isManual && |inputs0| == 1 && inputs1 == [] && FileMoved(v, w, level, inputs0[0])
    ensures trivial ==> Contents(w) == Contents(v)
    ensures !trivial ==> Compacts(v, w, level, inputs0, inputs1, all, smallestSnapshot, outputs)
    ensures !trivial ==> OnlyNeeded(v, level, inputs0, inputs1, smallestSnapshot, outputs)
    ensures (forall user, s :: smallestSnapshot <= s ==> Read(Contents(w), user, s) == Read(Contents(v), user, s))
        <==> !Exposes(v, level, inputs0, inputs1, smallestSnapshot)
  {
    all, outputs := [], [];
    hide VersionOk, InputsOk, MergingIterator.Inv, Compacts, FreshNumbers, Exposes, OutputsOk, Kept, FileOk, Installed, OnlyNeeded;
    InputsFileOk(v, level, inputs0, inputs1);
    VersionOrdered(v);
    var fewGrandparents: bool := *;
    if !isManual && |inputs0| == 1 && |inputs1| == 0 && fewGrandparents {
      trivial := true;
      w := MoveDown(v, level, inputs0[0], inputs0, inputs1);
      MoveExposesNothing(v, level, inputs0, smallestSnapshot);
      next := nextNumber;
    } else {
      trivial := false;
      var input := MakeInputIterator(v, level, inputs0, inputs1);
      var c := new Compaction(v, level);
      all := input.all;
      var files;
      files, next := DoCompactionWork(c, input, smallestSnapshot, nextNumber);
      outputs := files;
      CompactionEditFresh(v, level, inputs0, inputs1, outputs, nextNumber, next);
      w := LogAndApply(v, CompactionEdit(level, inputs0, inputs1, files));
      CompactionEditInstalls(v, w, level, inputs0, inputs1, outputs);
      NumbersAdvance(outputs, nextNumber, next);
      CompactsFrom(v, w, level, inputs0, inputs1, all, smallestSnapshot, outputs);
      AllNeeded(v, w, level, inputs0, inputs1, all, smallestSnapshot, outputs);
      CompactionKeepsVersionOk(v, w, level, inputs0, inputs1, all, smallestSnapshot, outputs);
      CompactionPreservesReads(v, w, level, inputs0, inputs1, all, smallestSnapshot, outputs);
    }
  }

  /** The outputs hold the entries that are still needed, and no others. */
  ghost predicate OnlyNeeded(v: Version, level: nat, inputs0: seq<File>, inputs1: seq<File>, s: SequenceNumber, outputs: seq<File>) {
    forall e :: InFiles(outputs, e) <==> InInputs(inputs0, inputs1, e) && StillNeeded(v, level, inputs0, inputs1, s, e)
  }

  lemma AllNeeded(v: Version, w: Version, level: nat, inputs0: seq<File>, inputs1: seq<File>,
                  all: seq<Entry>, s: SequenceNumber, outputs: seq<File>)
    requires Compacts(v, w, level, inputs0, inputs1, all, s, outputs)
    ensures OnlyNeeded(v, level, inputs0, inputs1, s, outputs)
  {
    hide Compacts, InFiles, InInputs, StillNeeded;
    forall e ensures InFiles(outputs, e) <==> InInputs(inputs0, inputs1, e) && StillNeeded(v, level, inputs0, inputs1, s, e) {
      OutputsAreNeeded(v, w, level, inputs0, inputs1, all, s, outputs, e);
    }
  }

  /** Inputs that overlap nothing below leave no value behind that a deletion among them could hide. */
  lemma MoveExposesNothing(v: Version, level: nat, inputs0: seq<File>, s: SequenceNumber)
    requires VersionOk(v) && InputsOk(v, level, inputs0, [])
    ensures !Exposes(v, level, inputs0, [], s)
  {
    hide VersionOk, InputsOk, FileOk, BaseLevel;
    InputsFileOk(v, level, inputs0, []);
    forall t, e, r | InFiles(inputs0, t) && LeftOut(v[level + 1], [], r) && e in r.entries
      ensures t.key.user != e.key.user
    {
      var f :| f in inputs0 && t in f.entries;
      LowerOnOneSide(v, level, inputs0, [], r);
      LowerFacts(v, level, inputs0, []);
      InRange(f, t);
      InRange(r, e);
    }
  }

  lemma NumbersAdvance(outputs: seq<File>, first: nat, next: nat)
    requires OutputsOk(outputs, first, next)
    ensures first <= next
  {
  }

  lemma CompactsFrom(v: Version, w: Version, level: nat, inputs0: seq<File>, inputs1: seq<File>,
                     all: seq<Entry>, s: SequenceNumber, outputs: seq<File>)
    requires VersionOk(v) && InputsOk(v, level, inputs0, inputs1) && MergedInputs(all, inputs0, inputs1)
    requires (forall f :: f in outputs ==> FileOk(f)) && FilesContents(outputs) == Kept(v, level, all, s, |all|)
    requires FreshNumbers(v, outputs) && Installed(v, w, level, inputs0, inputs1, outputs)
    ensures Compacts(v, w, level, inputs0, inputs1, all, s, outputs)
  {
  }

  /** Move the only input file down one level. */
  method MoveDown(v: Version, level: nat, f: File, ghost inputs0: seq<File>, ghost inputs1: seq<File>)
    returns (w: Version)
    requires VersionOk(v) && InputsOk(v, level, inputs0, inputs1) && inputs0 == [f] && inputs1 == []
    ensures VersionOk(w) && Contents(w) == Contents(v) && FileMoved(v, w, level, f)
  {
    hide VersionOk, InputsOk, FileOk, Installed;
    InputsFileOk(v, level, inputs0, inputs1);
    VersionOrdered(v);
    assert f in inputs0;
    MoveEditFresh(v, level, f);
    w := LogAndApply(v, CompactionEdit(level, [f], [], [f]));
    CompactionEditInstalls(v, w, level, [f], [], [f]);
    TrivialMoveKeepsVersionOk(v, w, level, f);
  }

  lemma MoveEditFresh(v: Version, level: nat, f: File)
    requires VersionOk(v) && level + 1 < NUM_LEVELS && f in v[level]
    ensures AddsFresh(v, [CompactionEdit(level, [f], [], [f])])
  {
    hide FileOk, LevelSorted, Layered, Ordered;
    CompactionEditAdds(level, [f], [], [f]);
    assert forall l, g :: (l, g) in CompactionEdit(level, [f], [], [f]).newFiles ==> l == level + 1 && g == f;
  }

  // ----- Reading through the memtables -----

  /** Look a user key up in a memtable: seek to the lookup key, and take the entry if it is one of
      the user. */
  method MemTableGet(mem: seq<Entry>, user: UserKey, s: SequenceNumber) returns (r: GetResult)
    requires Sorted(mem)
    ensures r == NotFound ==> forall e :: e in mem ==> !VisibleTo(e, user, s)
    ensures r != NotFound ==> exists e :: IsNewest(EntriesOf(mem), user, s, e) && r == ResultOf(e)
  {
    var i := LowerBound(mem, LookupKey(user, s));
    forall j | 0 <= j < |mem|
      ensures VisibleTo(mem[j], user, s) ==> j >= i
      ensures i < j && i < |mem| ==> Less(mem[i].key, mem[j].key)
    {
      LookupKeySplits(user, s, mem[j].key);
    }
    if i < |mem| && mem[i].key.user == user {
      LookupKeySplits(user, s, mem[i].key);
      r := ResultOf(mem[i]);
    } else {
      r := NotFound;
    }
  }

  /** Everything in `newer` is newer than what `older` holds of the same user key. */
  ghost predicate AllNewer(newer: set<Entry>, older: set<Entry>) {
    forall d, e :: d in newer && e in older && d.key.user == e.key.user ==> d.key.sequence > e.key.sequence
  }

  ghost function EntriesOf(mem: seq<Entry>): set<Entry> {
    set e | e in mem
  }

  /** A read of the database: the memtable, then the one being flushed, then the tables. */
  method Get(mem: seq<Entry>, imm: Option<seq<Entry>>, v: Version, user: UserKey, s: SequenceNumber)
    returns (r: GetResult)
    requires Sorted(mem) && VersionOk(v) && (imm.Some? ==> Sorted(imm.value))
    requires AllNewer(EntriesOf(mem), Contents(v))
    requires imm.Some? ==> AllNewer(EntriesOf(mem), EntriesOf(imm.value)) && AllNewer(EntriesOf(imm.value), Contents(v))
    ensures IsLookup(EntriesOf(mem) + (if imm.Some? then EntriesOf(imm.value) else {}) + Contents(v), user, s, r)
  {
    hide VersionOk, Sorted;
    r := MemTableGet(mem, user, s);
    if r == NotFound {
      if imm.Some? {
        r := MemTableGet(imm.value, user, s);
      }
      if r == NotFound {
        r := Versions.Get(v, user, s);
      }
    }
  }
}
