/** The compaction loop: merge the inputs in key order, drop the entries no live snapshot can see,
    and write the rest into new files of the next level. */
module CompactionWork {
  import opened InternalKeys
  import opened Reads
  import opened Cursors
  import opened Versions
  import opened CompactionInputs

  /** No file two or more levels below holds the user key in its range. */
  ghost predicate BaseLevel(v: Version, level: nat, user: UserKey) {
    forall l, f :: level + 2 <= l < |v| && f in v[l] ==> !(f.smallest.user <= user <= f.largest.user)
  }

  /** Of the inputs in key order, entry i is dropped: a newer entry of its user is already old enough
      for every live snapshot, or it is such an old deletion with nothing deeper to hide. */
  ghost predicate Dropped(v: Version, level: nat, all: seq<Entry>, s: SequenceNumber, i: nat)
    requires i < |all|
  {
    || (exists j :: 0 <= j < i && all[j].key.user == all[i].key.user && all[j].key.sequence <= s)
    || (all[i].key.kind == Deletion && all[i].key.sequence <= s && BaseLevel(v, level, all[i].key.user))
  }

  /** The first n inputs without the dropped ones. */
  ghost function Kept(v: Version, level: nat, all: seq<Entry>, s: SequenceNumber, n: nat): seq<Entry>
    requires n <= |all|
  {
    if n == 0 then []
    else Kept(v, level, all, s, n - 1) + if Dropped(v, level, all, s, n - 1) then [] else [all[n - 1]]
  }

  lemma {:induction false} KeptIsFilter(v: Version, level: nat, all: seq<Entry>, s: SequenceNumber, n: nat)
    requires n <= |all| && Sorted(all)
    ensures Sorted(Kept(v, level, all, s, n))
    ensures forall e :: e in Kept(v, level, all, s, n) <==>
        exists i :: 0 <= i < n && all[i] == e && !Dropped(v, level, all, s, i)
  {
    if n > 0 {
      KeptIsFilter(v, level, all, s, n - 1);
      var kept := Kept(v, level, all, s, n - 1);
      forall k | 0 <= k < |kept|
        ensures Less(kept[k].key, all[n - 1].key)
      {
        assert kept[k] in kept;
      }
    }
  }

  /** Whether some newer entry of the same user is at or below s is seen at the entry just before. */
  lemma PredecessorDecides(all: seq<Entry>, s: SequenceNumber, i: nat)
    requires Sorted(all) && i < |all|
    ensures (exists j :: 0 <= j < i && all[j].key.user == all[i].key.user && all[j].key.sequence <= s)
        <==> i > 0 && all[i - 1].key.user == all[i].key.user && all[i - 1].key.sequence <= s
  {
    if j :| 0 <= j < i && all[j].key.user == all[i].key.user && all[j].key.sequence <= s {
      assert Less(all[i - 1].key, all[i].key);
      assert j < i - 1 ==> Less(all[j].key, all[i - 1].key);
    }
  }

  ghost function FilesContents(fs: seq<File>): seq<Entry> {
    if fs == [] then [] else FilesContents(fs[..|fs| - 1]) + fs[|fs| - 1].entries
  }

  lemma FilesContentsAppend(fs: seq<File>, f: File)
    ensures FilesContents(fs + [f]) == FilesContents(fs) + f.entries
  {
    assert (fs + [f])[..|fs|] == fs;
  }

  /** Per-compaction state: for each deeper level, how far the base-level test has advanced. */
  class Compaction {
    const version: Version
    const level: nat
    var levelPtrs: seq<nat>
    ghost var asked: Bound  // the last user key tested

    ghost predicate Inv()
      reads this
    {
      && |version| == NUM_LEVELS && |levelPtrs| == NUM_LEVELS && level + 1 < NUM_LEVELS
      && (forall l :: 0 < l < NUM_LEVELS ==>
            LevelSorted(version[l]) && forall f :: f in version[l] ==> FileOk(f))
      && (forall l :: 0 <= l < NUM_LEVELS ==> levelPtrs[l] <= |version[l]|)
      && (forall l, i :: level + 2 <= l < NUM_LEVELS && 0 <= i < levelPtrs[l] ==>
            asked.Some? && version[l][i].largest.user < asked.value)
    }

    constructor (v: Version, l: nat)
      requires VersionOk(v) && l + 1 < NUM_LEVELS
      ensures Inv() && version == v && level == l && asked == None
    {
      version := v;
      level := l;
      levelPtrs := seq(NUM_LEVELS, _ => 0);
      asked := None;
    }

    /** True when no file from level + 2 on holds the user key; callers ask in ascending order. */
    method IsBaseLevelForKey(user: UserKey) returns (r: bool)
      requires Inv() && (asked.Some? ==> asked.value <= user)
      modifies this
      ensures Inv() && asked == Some(user)
      ensures r <==> BaseLevel(version, level, user)
    {
      hide FileOk, LevelSorted;
      asked := Some(user);
      for l := level + 2 to NUM_LEVELS
        invariant Inv() && asked == Some(user)
        invariant forall k, f :: level + 2 <= k < l && f in version[k] ==>
            !(f.smallest.user <= user <= f.largest.user)
      {
        var files := version[l];
        while levelPtrs[l] < |files|
          invariant Inv() && asked == Some(user)
        {
          var f := files[levelPtrs[l]];
          if user <= f.largest.user {
            if user >= f.smallest.user {
              return false;
            }
            break;
          }
          levelPtrs := levelPtrs[l := levelPtrs[l] + 1];
        }
        NotInLevel(files, levelPtrs[l], user);
      }
      r := true;
    }
  }

  /** A user key beyond the files below p, and before file p, is in no file of the level. */
  lemma NotInLevel(files: seq<File>, p: nat, user: UserKey)
    requires LevelSorted(files) && (forall f :: f in files ==> FileOk(f)) && p <= |files|
    requires forall i :: 0 <= i < p ==> files[i].largest.user < user
    requires p < |files| ==> user < files[p].smallest.user
    ensures forall f :: f in files ==> !(f.smallest.user <= user <= f.largest.user)
  {
    hide FileOk;
    forall i | p <= i < |files|
      ensures user < files[i].smallest.user
    {
      RangeOk(files[p]);
    }
  }

  /** The key being compacted and the sequence number of its last entry; a new key starts with the
      largest sequence number. */
  ghost predicate TracksLast(all: seq<Entry>, p: nat, current: Bound, last: SequenceNumber)
    requires p <= |all|
  {
    if p == 0 then current == None
    else current == Some(all[p - 1].key.user) && last == all[p - 1].key.sequence
  }

  /** Whether the entry is to be dropped, as the loop decides it from the last entry it saw. */
  method ShouldDrop(c: Compaction, ghost all: seq<Entry>, ghost p: nat, entry: Entry, current: Bound,
                    lastSequence: SequenceNumber, smallestSnapshot: SequenceNumber)
    returns (drop: bool)
    requires c.Inv() && Sorted(all) && p < |all| && entry == all[p]
    requires smallestSnapshot < MAX_SEQUENCE
    requires TracksLast(all, p, current, lastSequence)
    requires c.asked.Some? ==> p > 0 && c.asked.value <= all[p - 1].key.user
    modifies c
    ensures c.asked.Some? ==> c.asked.value <= all[p].key.user
    ensures c.Inv() && (drop <==> Dropped(c.version, c.level, all, smallestSnapshot, p))
  {
    var lastSequenceForKey := lastSequence;
    if current.None? || entry.key.user != current.value {
      // A new user key: nothing newer has been seen
      lastSequenceForKey := MAX_SEQUENCE;
    }
    PredecessorDecides(all, smallestSnapshot, p);
    if p > 0 {
      assert Less(all[p - 1].key, all[p].key);
    }
    if lastSequenceForKey <= smallestSnapshot {
      // Every live snapshot sees an entry before this one
      drop := true;
    } else if entry.key.kind == Deletion && entry.key.sequence <= smallestSnapshot {
      drop := c.IsBaseLevelForKey(entry.key.user);
    } else {
      drop := false;
    }
  }

  ghost predicate OutputsOk(outputs: seq<File>, first: nat, next: nat) {
    && first <= next
    && (forall i :: 0 <= i < |outputs| ==> FileOk(outputs[i]) && first <= outputs[i].number < next)
    && (forall i, j :: 0 <= i < j < |outputs| ==> outputs[i].number < outputs[j].number)
  }

  /** Finish the open output file. */
  method FinishCompactionOutputFile(outputs: seq<File>, builder: seq<Entry>, number: nat, ghost first: nat)
    returns (r: seq<File>)
    requires builder != [] && Sorted(builder) && OutputsOk(outputs, first, number)
    ensures OutputsOk(r, first, number + 1)
    ensures FilesContents(r) == FilesContents(outputs) + builder
  {
    var size: nat := *;
    var f := File(number, size, builder[0].key, builder[|builder| - 1].key, builder);
    FilesContentsAppend(outputs, f);
    r := outputs + [f];
  }

  /** Close the open output file if there is one and it is to be closed here; where files end is a
      matter of sizes that nothing depends on. */
  method MaybeFinish(outputs: seq<File>, builder: seq<Entry>, number: nat, ghost first: nat, close: bool)
    returns (outputs': seq<File>, builder': seq<Entry>, number': nat)
    requires OutputsOk(outputs, first, number) && Sorted(FilesContents(outputs) + builder)
    ensures OutputsOk(outputs', first, number')
    ensures FilesContents(outputs') + builder' == FilesContents(outputs) + builder
    ensures close ==> builder' == []
  {
    outputs', builder', number' := outputs, builder, number;
    if close && builder != [] {
      SuffixSorted(FilesContents(outputs), builder);
      outputs' := FinishCompactionOutputFile(outputs, builder, number, first);
      builder', number' := [], number + 1;
    }
  }

  lemma SuffixSorted(written: seq<Entry>, builder: seq<Entry>)
    requires Sorted(written + builder)
    ensures Sorted(builder)
  {
    var kept := written + builder;
    assert forall i :: 0 <= i < |builder| ==> builder[i] == kept[|written| + i];
  }

  /** Merge the inputs and write what is kept, closing output files at arbitrary points. */
  method DoCompactionWork(c: Compaction, input: MergingIterator, smallestSnapshot: SequenceNumber, firstNumber: nat)
    returns (outputs: seq<File>, nextNumber: nat)
    requires c.Inv() && c.asked == None && input.Inv() && smallestSnapshot < MAX_SEQUENCE
    modifies c, input, input.children
    ensures OutputsOk(outputs, firstNumber, nextNumber)
    ensures FilesContents(outputs) ==
        Kept(c.version, c.level, input.all, smallestSnapshot, |input.all|)
  {
    hide MergingIterator.Inv, Compaction.Inv, OutputsOk, Dropped, FilesContents, Sorted, Kept;
    input.SeekToFirst();
    input.IsCursor();
    outputs, nextNumber := [], firstNumber;
    NoOutputs(c.version, c.level, input.all, smallestSnapshot, firstNumber);
    var builder := [];
    var current: Bound := None;
    var lastSequence: SequenceNumber := MAX_SEQUENCE;
    while input.Valid()
      invariant input.Inv() && Sorted(input.all) && input.pos <= |input.all|
      invariant input.Valid() <==> input.pos < |input.all|
      invariant c.Inv()
      invariant c.asked.Some? ==> input.pos > 0 && c.asked.value <= input.all[input.pos - 1].key.user
      invariant TracksLast(input.all, input.pos, current, lastSequence)
      invariant OutputsOk(outputs, firstNumber, nextNumber)
      invariant FilesContents(outputs) + builder ==
          Kept(c.version, c.level, input.all, smallestSnapshot, input.pos)
      decreases |input.all| - input.pos
    {
      ghost var p := input.pos;
      var entry := input.Current();
      KeptStep(c.version, c.level, input.all, smallestSnapshot, p);
      var stopBefore: bool := *;
      outputs, builder, nextNumber := MaybeFinish(outputs, builder, nextNumber, firstNumber, stopBefore);
      var drop := ShouldDrop(c, input.all, p, entry, current, lastSequence, smallestSnapshot);
      current := Some(entry.key.user);
      lastSequence := entry.key.sequence;
      if !drop {
        assert FilesContents(outputs) + (builder + [entry]) == (FilesContents(outputs) + builder) + [entry];
        var bigEnough: bool := *;
        outputs, builder, nextNumber := MaybeFinish(outputs, builder + [entry], nextNumber, firstNumber, bigEnough);
      }
      input.Next();
      input.IsCursor();
    }
    outputs, builder, nextNumber := CloseLast(outputs, builder, nextNumber, firstNumber, c, input.all, smallestSnapshot);
  }

  method CloseLast(outputs: seq<File>, builder: seq<Entry>, number: nat, ghost first: nat,
                   ghost c: Compaction, ghost all: seq<Entry>, ghost s: SequenceNumber)
    returns (outputs': seq<File>, builder': seq<Entry>, number': nat)
    requires OutputsOk(outputs, first, number) && Sorted(all)
    requires FilesContents(outputs) + builder == Kept(c.version, c.level, all, s, |all|)
    ensures OutputsOk(outputs', first, number')
    ensures FilesContents(outputs') == Kept(c.version, c.level, all, s, |all|)
  {
    KeptIsFilter(c.version, c.level, all, s, |all|);
    outputs', builder', number' := MaybeFinish(outputs, builder, number, first, true);
    assert FilesContents(outputs') + builder' == FilesContents(outputs');
  }

  lemma NoOutputs(v: Version, level: nat, all: seq<Entry>, s: SequenceNumber, first: nat)
    ensures OutputsOk([], first, first) && FilesContents([]) + [] == Kept(v, level, all, s, 0)
  {
  }

  lemma KeptStep(v: Version, level: nat, all: seq<Entry>, s: SequenceNumber, p: nat)
    requires p < |all| && Sorted(all)
    ensures Kept(v, level, all, s, p + 1) ==
        Kept(v, level, all, s, p) + if Dropped(v, level, all, s, p) then [] else [all[p]]
    ensures Sorted(Kept(v, level, all, s, p)) && Sorted(Kept(v, level, all, s, p + 1))
  {
    KeptIsFilter(v, level, all, s, p);
    KeptIsFilter(v, level, all, s, p + 1);
  }
}
