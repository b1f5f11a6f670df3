/** The input selection closes the inputs over shared boundary user keys at the upper level only.
    A deletion at the end of a lower input can therefore be dropped while the value it hides, at the
    start of the next file of the same level, stays: the deleted value comes back. */
module BoundaryExample {
  import opened InternalKeys
  import opened Reads
  import opened Versions
  import opened CompactionInputs
  import opened CompactionWork
  import opened CompactionTheorem
  import Database

  const KEPT := Entry(IKey(1.0, 4, Value), [])
  const TOMBSTONE := Entry(IKey(2.0, 5, Deletion), [])
  const HIDDEN := Entry(IKey(2.0, 3, Value), [1])
  const FRESH := Entry(IKey(1.0, 9, Value), [])

  const UPPER := File(3, 1, FRESH.key, FRESH.key, [FRESH])
  const FIRST := File(1, 1, KEPT.key, TOMBSTONE.key, [KEPT, TOMBSTONE])
  const SECOND := File(2, 1, HIDDEN.key, HIDDEN.key, [HIDDEN])

  const VERSION: Version := [[], [UPPER], [FIRST, SECOND], [], [], [], []]

  lemma ExampleFiles()
    ensures FileOk(UPPER) && FileOk(FIRST) && FileOk(SECOND)
    ensures LevelSorted([FIRST, SECOND])
  {
  }

  lemma ExampleMembers(l: nat, f: File)
    requires l < NUM_LEVELS && f in VERSION[l]
    ensures (l == 1 && f == UPPER) || (l == 2 && (f == FIRST || f == SECOND))
  {
    assert VERSION[0] == [] && VERSION[1] == [UPPER] && VERSION[2] == [FIRST, SECOND];
    assert VERSION[3] == [] && VERSION[4] == [] && VERSION[5] == [] && VERSION[6] == [];
  }

  lemma ExampleContents()
    ensures Contents(VERSION) == {KEPT, TOMBSTONE, HIDDEN, FRESH}
  {
    forall e
      ensures e in Contents(VERSION) <==> e in {KEPT, TOMBSTONE, HIDDEN, FRESH}
    {
      if e in Contents(VERSION) {
        var l, f :| 0 <= l < |VERSION| && f in VERSION[l] && e in f.entries;
        ExampleMembers(l, f);
      }
      assert UPPER in VERSION[1] && FIRST in VERSION[2] && SECOND in VERSION[2];
      assert FRESH in UPPER.entries && KEPT in FIRST.entries && TOMBSTONE in FIRST.entries && HIDDEN in SECOND.entries;
    }
  }

  lemma ExamplePairs()
    ensures Newer(UPPER, FIRST) && Newer(UPPER, SECOND)
    ensures UPPER.number == 3 && FIRST.number == 1 && SECOND.number == 2
    ensures |VERSION| == NUM_LEVELS && |VERSION[0]| == 0
    ensures forall l :: 0 < l < NUM_LEVELS && l != 2 ==> |VERSION[l]| <= 1
    ensures VERSION[2] == [FIRST, SECOND]
  {
  }

  lemma ExampleVersionOk()
    ensures VersionOk(VERSION)
  {
    hide FileOk, Newer, VERSION, UPPER, FIRST, SECOND, Layered, VersionNumbersUnique, LevelSorted;
    ExamplePairs();
    ExampleFiles();
    forall l, f | 0 <= l < |VERSION| && f in VERSION[l]
      ensures (l == 1 && f == UPPER) || (l == 2 && (f == FIRST || f == SECOND))
    {
      ExampleMembers(l, f);
    }
    ThreeFiles(VERSION, UPPER, FIRST, SECOND);
    ExampleUnique();
  }

  /** A version of one file above two others. */
  lemma ThreeFiles(v: Version, a: File, b: File, c: File)
    requires |v| == NUM_LEVELS && |v[0]| == 0 && v[2] == [b, c] && LevelSorted([b, c])
    requires forall l, f :: 0 <= l < |v| && f in v[l] ==> (l == 1 && f == a) || (l == 2 && (f == b || f == c))
    requires forall l :: 0 < l < NUM_LEVELS && l != 2 ==> |v[l]| <= 1
    requires a.number != b.number && a.number != c.number && b.number != c.number
    requires Newer(a, b) && Newer(a, c)
    ensures Layered(v) && VersionNumbersUnique(v) && Ordered(v[0])
    ensures forall l :: 0 < l < NUM_LEVELS ==> LevelSorted(v[l])
  {
    hide Newer;
    forall l | 0 < l < NUM_LEVELS
      ensures LevelSorted(v[l])
    {
      if l != 2 {
        assert |v[l]| <= 1;
      }
    }
  }

  lemma ExampleUnique()
    ensures UniqueSequences(Contents(VERSION))
  {
    hide VERSION;
    ExampleContents();
  }

  /** The chosen inputs: the only file of level 1, and the one file of level 2 it overlaps. */
  lemma ExampleInputs()
    ensures InputsOk(VERSION, 1, [UPPER], [FIRST])
  {
    assert [UPPER] == VERSION[1][0..1];
    assert IsSlice(VERSION[1], [UPPER]);
    assert NoBoundary(VERSION[1], [UPPER]);
    assert IsSmallest([UPPER], FRESH.key) && IsLargest([UPPER], FRESH.key) by {
      assert UPPER in [UPPER];
    }
    var level := [FIRST, SECOND];
    assert level[..1] == [FIRST] && [FIRST][..0] == [];
    assert Overlapping([FIRST], Some(1.0), Some(1.0)) == [FIRST];
    assert Overlapping(level, Some(1.0), Some(1.0)) == [FIRST];
  }

  /** The inputs the code chooses expose the hidden value: whatever the merge writes, the read of
      the deleted key at snapshot 10 finds nothing before the compaction and a value after it. */
  lemma DeletedValueComesBack(w: Version, all: seq<Entry>, outputs: seq<File>)
    requires Compacts(VERSION, w, 1, [UPPER], [FIRST], all, 10, outputs)
    ensures Exposes(VERSION, 1, [UPPER], [FIRST], 10)
    ensures Read(Contents(VERSION), 2.0, 10) == None
    ensures Read(Contents(w), 2.0, 10) == Some([1])
  {
    hide Compacts, FileOk;
    ExampleContents();
    assert InFiles([FIRST], TOMBSTONE) by {
      assert FIRST in [FIRST] && TOMBSTONE in FIRST.entries;
    }
    assert BaseLevel(VERSION, 1, 2.0) by {
      assert VERSION[3] == [] && VERSION[4] == [] && VERSION[5] == [] && VERSION[6] == [];
    }
    assert LeftOut(VERSION[2], [FIRST], SECOND) && HIDDEN in SECOND.entries;
    forall f, d | LeftOut(VERSION[2], [FIRST], f) && d in f.entries
      ensures d == HIDDEN
    {
      assert f == SECOND;
    }
    assert NewestLeftOut(VERSION[2], [FIRST], 2.0, 10, HIDDEN);
    ExposedIsRead(VERSION, w, 1, [UPPER], [FIRST], all, 10, outputs, TOMBSTONE, HIDDEN, SECOND);
  }

  /** No other inputs can be chosen once the file of level 1 is picked. */
  lemma OnlyTheseInputs(inputs0: seq<File>, inputs1: seq<File>)
    requires InputsOk(VERSION, 1, inputs0, inputs1)
    ensures inputs0 == [UPPER] && inputs1 == [FIRST]
  {
    hide FileOk, NoBoundary, FRESH, KEPT, TOMBSTONE, HIDDEN;
    assert VERSION[1] == [UPPER] && VERSION[2] == [FIRST, SECOND];
    var lo, hi :| 0 <= lo < hi <= 1 && inputs0 == [UPPER][lo..hi];
    assert inputs0 == [UPPER];
    ExampleInputs();
    var s, l :| IsSmallest(inputs0, s) && IsLargest(inputs0, l) && inputs1 == Overlapping(VERSION[2], Some(s.user), Some(l.user));
    var s', l' :| IsSmallest([UPPER], s') && IsLargest([UPPER], l') && [FIRST] == Overlapping(VERSION[2], Some(s'.user), Some(l'.user));
  }

  /** The whole way, as the code goes: pick a compaction of level 1, run it with the oldest snapshot at 10,
      and read at 10 before and after. */
  method CompactExample(sizeLimit: nat) returns (w: Version)
    ensures VersionOk(VERSION) && VersionOk(w)
    ensures Read(Contents(VERSION), 2.0, 10) == None && Read(Contents(w), 2.0, 10) == Some([1])
  {
    hide VersionOk, InputsOk, Compacts, Exposes, FIRST, UPPER, SECOND;
    ExampleVersionOk();
    assert VERSION[1] == [UPPER];
    var inputs0, inputs1 := PickCompaction(VERSION, 1, 0, sizeLimit);
    OnlyTheseInputs(inputs0, inputs1);
    ExampleNumbers();
    var next;
    ghost var trivial, all, outputs;
    w, next, trivial, all, outputs := Database.BackgroundCompaction(VERSION, 1, inputs0, inputs1, 10, 4, false);
    DeletedValueComesBack(w, all, outputs);
  }

  lemma ExampleNumbers()
    ensures Database.NumbersBelow(VERSION, 4)
  {
    forall l, f | 0 <= l < |VERSION| && f in VERSION[l] ensures f.number < 4 {
      ExampleMembers(l, f);
    }
  }
}
