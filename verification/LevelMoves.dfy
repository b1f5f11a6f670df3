/** The other two ways a version changes: flushing a memtable into a level, and moving a file down
    without rewriting it.  Both keep the version well-formed; a move changes no contents. */
module LevelMoves {
  import opened InternalKeys
  import opened Reads
  import opened Versions
  import opened CompactionInputs
  import opened CompactionTheorem
  import opened VersionEdits

  const MAX_MEM_COMPACT_LEVEL := 2

  /** Whether some file of a level overlaps the range; a sorted level is searched in halves. */
  method SomeFileOverlapsRange(files: seq<File>, disjointSorted: bool, begin: Bound, end: Bound) returns (r: bool)
    requires (forall f :: f in files ==> FileOk(f)) && (disjointSorted ==> LevelSorted(files))
    ensures r <==> exists f :: f in files && Overlaps(f, begin, end)
  {
    hide FileOk, LevelSorted;
    if !disjointSorted {
      for i := 0 to |files|
        invariant forall j :: 0 <= j < i ==> !Overlaps(files[j], begin, end)
      {
        var f := files[i];
        if (begin.Some? && begin.value > f.largest.user) || (end.Some? && end.value < f.smallest.user) {
          // It lies to one side
        } else {
          assert Overlaps(f, begin, end);
          return true;
        }
      }
      return false;
    }
    var index := 0;
    if begin.Some? {
      index := FindFile(files, IKey(begin.value, MAX_SEQUENCE, Value));
    }
    FirstCandidate(files, begin, end, index);
    if index >= |files| {
      return false;
    }
    r := !(end.Some? && end.value < files[index].smallest.user);
  }

  /** In a sorted level only the first file that does not end before the range needs a look. */
  lemma FirstCandidate(files: seq<File>, begin: Bound, end: Bound, index: nat)
    requires LevelSorted(files) && (forall f :: f in files ==> FileOk(f)) && index <= |files|
    requires begin.None? ==> index == 0
    requires begin.Some? ==>
        && (forall j :: 0 <= j < index ==> Less(files[j].largest, IKey(begin.value, MAX_SEQUENCE, Value)))
        && (forall j :: index <= j < |files| ==> !Less(files[j].largest, IKey(begin.value, MAX_SEQUENCE, Value)))
    ensures (exists f :: f in files && Overlaps(f, begin, end)) <==> index < |files| && Overlaps(files[index], begin, end)
    ensures index < |files| ==>
        (Overlaps(files[index], begin, end) <==> !(end.Some? && end.value < files[index].smallest.user))
  {
    hide FileOk, LevelSorted;
    if exists f :: f in files && Overlaps(f, begin, end) {
      var f :| f in files && Overlaps(f, begin, end);
      var j :| 0 <= j < |files| && files[j] == f;
      assert j >= index;
      if index < |files| {
        UsersAscend(files, j);
        RangeOk(files[index]);
      }
    }
  }

  ghost predicate SomeOverlaps(files: seq<File>, smallest: UserKey, largest: UserKey) {
    exists f :: f in files && Overlaps(f, Some(smallest), Some(largest))
  }

  /** A flushed memtable goes no deeper than a level: something overlaps it there at level 0 or at the next
      level, or it would overlap too much two levels below. */
  ghost predicate StopsAt(v: Version, smallest: UserKey, largest: UserKey, maxGrandparentBytes: nat, level: nat)
    requires |v| == NUM_LEVELS && level < MAX_MEM_COMPACT_LEVEL
  {
    || (level == 0 && SomeOverlaps(v[0], smallest, largest))
    || SomeOverlaps(v[level + 1], smallest, largest)
    || TotalFileSize(Overlapping(v[level + 2], Some(smallest), Some(largest))) > maxGrandparentBytes
  }

  /** Below level 0, a file is put where nothing overlaps it at its level or above. */
  ghost predicate Placed(v: Version, level: nat, f: File)
    requires |v| == NUM_LEVELS && level < NUM_LEVELS
  {
    level > 0 ==> forall l, g :: 0 <= l <= level && g in v[l] ==> !Overlaps(g, Some(f.smallest.user), Some(f.largest.user))
  }

  /** The level a flushed memtable is put into: as deep as level 2 while nothing overlaps it. */
  method PickLevelForMemTableOutput(v: Version, smallest: UserKey, largest: UserKey, maxGrandparentBytes: nat)
    returns (level: nat)
    requires VersionOk(v)
    ensures level <= MAX_MEM_COMPACT_LEVEL
    ensures level > 0 ==> forall l, f :: 0 <= l <= level && f in v[l] ==> !Overlaps(f, Some(smallest), Some(largest))
    ensures level < MAX_MEM_COMPACT_LEVEL ==> StopsAt(v, smallest, largest, maxGrandparentBytes, level)
    ensures forall l :: 0 <= l < level ==> !StopsAt(v, smallest, largest, maxGrandparentBytes, l)
  {
    hide VersionOk, FileOk, LevelSorted, Overlaps;
    LookupFacts(v);
    level := 0;
    var overlap := SomeFileOverlapsRange(v[0], false, Some(smallest), Some(largest));
    if !overlap {
      while level < MAX_MEM_COMPACT_LEVEL
        invariant level <= MAX_MEM_COMPACT_LEVEL
        invariant forall l, f :: 0 <= l <= level && f in v[l] ==> !Overlaps(f, Some(smallest), Some(largest))
        invariant forall l :: 0 <= l < level ==> !StopsAt(v, smallest, largest, maxGrandparentBytes, l)
      {
        overlap := SomeFileOverlapsRange(v[level + 1], true, Some(smallest), Some(largest));
        if overlap {
          break;
        }
        if level + 2 < NUM_LEVELS {
          var overlaps, b, e := GetOverlappingInputs(v[level + 2], level + 2, Some(smallest), Some(largest));
          if TotalFileSize(overlaps) > maxGrandparentBytes {
            break;
          }
        }
        level := level + 1;
      }
    }
  }

  /** w is v with one more file at a level. */
  ghost predicate FileAdded(v: Version, w: Version, level: nat, f: File) {
    && |v| == |w| == NUM_LEVELS && level < NUM_LEVELS
    && (forall l :: 0 <= l < NUM_LEVELS && l != level ==> w[l] == v[l])
    && LevelBecomes(v[level], w[level], [], [f])
    && Ordered(w[level])
  }

  /** The flushed file: well-formed, numbered above all others, and newer than everything. */
  ghost predicate FlushedOk(v: Version, f: File) {
    && FileOk(f)
    && (forall l, g :: 0 <= l < |v| && g in v[l] ==> g.number < f.number && Newer(f, g))
    && (forall d, e :: d in f.entries && e in f.entries && d.key.user == e.key.user && d.key.sequence == e.key.sequence ==>
          d == e)
  }

  /** A flush keeps the version well-formed and adds exactly the flushed entries. */
  lemma FlushKeepsVersionOk(v: Version, w: Version, level: nat, f: File)
    requires VersionOk(v) && FlushedOk(v, f) && FileAdded(v, w, level, f)
    requires Placed(v, level, f)
    ensures VersionOk(w)
    ensures Contents(w) == Contents(v) + set e | e in f.entries
  {
    hide FileOk, LevelSorted, Ordered, Newer, Layered, VersionNumbersUnique;
    MemberAfterAdd(v, w, level, f);
    FlushSorted(v, w, level, f);
    FlushLayered(v, w, level, f);
    FlushContents(v, w, level, f);
    FlushUnique(v, w, level, f);
    FlushNumbers(v, w, level, f);
    assert level != 0 ==> w[0] == v[0];
  }

  lemma MemberAfterAdd(v: Version, w: Version, level: nat, f: File)
    requires FileAdded(v, w, level, f)
    ensures |v| == |w| == NUM_LEVELS
    ensures forall l, g :: 0 <= l < NUM_LEVELS ==> (g in w[l] <==> g in v[l] || (l == level && g == f))
  {
  }

  lemma FlushNumbers(v: Version, w: Version, level: nat, f: File)
    requires VersionNumbersUnique(v) && FileAdded(v, w, level, f)
    requires forall l, g :: 0 <= l < |v| && g in v[l] ==> g.number < f.number
    ensures VersionNumbersUnique(w)
  {
    MemberAfterAdd(v, w, level, f);
  }

  lemma FlushSorted(v: Version, w: Version, level: nat, f: File)
    requires VersionOk(v) && FileOk(f) && FileAdded(v, w, level, f)
    requires level > 0 ==> forall g :: g in v[level] ==> !Overlaps(g, Some(f.smallest.user), Some(f.largest.user))
    ensures level > 0 ==> LevelSorted(w[level])
  {
    hide FileOk, LevelSorted, Ordered, Newer, Layered, VersionNumbersUnique;
    MemberAfterAdd(v, w, level, f);
    if level > 0 {
      forall g, h | g in w[level] && h in w[level] && g != h
        ensures Less(g.largest, h.smallest) || Less(h.largest, g.smallest)
      {
        if g in v[level] && h in v[level] {
          OneSideOf(v[level], g, h);
        } else {
          RangeOk(f);
          RangeOk(g);
          RangeOk(h);
        }
      }
      ApartInOrder(w[level]);
    }
  }

  lemma FlushLayered(v: Version, w: Version, level: nat, f: File)
    requires VersionOk(v) && FlushedOk(v, f) && FileAdded(v, w, level, f)
    requires level > 0 ==> forall l, g :: 0 <= l <= level && g in v[l] ==> !Overlaps(g, Some(f.smallest.user), Some(f.largest.user))
    ensures Layered(w)
  {
    hide FileOk, LevelSorted, Ordered, Newer, VersionNumbersUnique, FileAdded;
    MemberAfterAdd(v, w, level, f);
    forall l, m, g, h | 0 <= l < m < |w| && g in w[l] && h in w[m]
      ensures Newer(g, h)
    {
      if h == f && m == level && g in v[l] {
        ApartNewer(g, f);
      } else if g == f && l == level && h in v[m] {
        assert Newer(f, h);
      } else if g in v[l] && h in v[m] {
        assert Newer(g, h);
      }
    }
    forall g, h | g in w[0] && h in w[0] && g.number > h.number
      ensures Newer(g, h)
    {
      if g in v[0] && h in v[0] {
        assert Newer(g, h);
      }
    }
  }

  /** Files whose ranges of user keys do not overlap share no user key. */
  lemma ApartNewer(g: File, f: File)
    requires FileOk(f) && FileOk(g) && !Overlaps(g, Some(f.smallest.user), Some(f.largest.user))
    ensures Newer(g, f)
  {
    hide FileOk;
    forall d, e | d in g.entries && e in f.entries
      ensures d.key.user != e.key.user
    {
      InRange(g, d);
      InRange(f, e);
    }
  }

  lemma FlushContents(v: Version, w: Version, level: nat, f: File)
    requires FileAdded(v, w, level, f)
    ensures Contents(w) == Contents(v) + set e | e in f.entries
  {
    MemberAfterAdd(v, w, level, f);
    forall e
      ensures e in Contents(w) <==> e in Contents(v) || e in f.entries
    {
      assert f in w[level];
      if e in Contents(v) {
        var l, g :| 0 <= l < |v| && g in v[l] && e in g.entries;
        assert g in w[l];
      }
    }
  }

  lemma FlushUnique(v: Version, w: Version, level: nat, f: File)
    requires UniqueSequences(Contents(v)) && FlushedOk(v, f) && FileAdded(v, w, level, f)
    ensures UniqueSequences(Contents(w))
  {
    hide FileOk;
    FlushContents(v, w, level, f);
    forall d, e | d in f.entries && e in Contents(v) && d.key.user == e.key.user
      ensures d.key.sequence > e.key.sequence
    {
      var l, g :| 0 <= l < |v| && g in v[l] && e in g.entries;
      assert Newer(f, g);
    }
  }

  // ----- Moving a file down -----

  /** w is v with one file moved from a level to the next. */
  ghost predicate FileMoved(v: Version, w: Version, level: nat, f: File) {
    && |v| == NUM_LEVELS && level + 1 < NUM_LEVELS && Installed(v, w, level, [f], [], [f])
  }

  /** Moving the only input of a compaction down keeps the version well-formed and its contents. */
  lemma TrivialMoveKeepsVersionOk(v: Version, w: Version, level: nat, f: File)
    requires VersionOk(v) && InputsOk(v, level, [f], []) && FileMoved(v, w, level, f)
    ensures VersionOk(w)
    ensures Contents(w) == Contents(v)
  {
    hide FileOk, LevelSorted, Ordered, Newer, Layered, VersionNumbersUnique, InputsOk, LevelBecomes;
    MemberAfterMove(v, w, level, f);
    MoveSorted(v, w, level, f);
    MoveLayered(v, w, level, f);
    MoveContents(v, w, level, f);
    MoveNumbers(v, w, level, f);
    assert level != 0 ==> w[0] == v[0];
    forall l, g | 0 <= l < |w| && g in w[l]
      ensures FileOk(g)
    {
    }
    forall l | 0 < l < |w|
      ensures LevelSorted(w[l])
    {
      if l != level && l != level + 1 {
        assert w[l] == v[l];
      }
    }
  }

  lemma MemberAfterMove(v: Version, w: Version, level: nat, f: File)
    requires VersionOk(v) && InputsOk(v, level, [f], []) && FileMoved(v, w, level, f)
    ensures f in v[level] && |w| == NUM_LEVELS
    ensures forall l, g :: 0 <= l < NUM_LEVELS ==>
        (g in w[l] <==> (g in v[l] && !(l == level && g == f)) || (l == level + 1 && g == f))
  {
    hide FileOk, LevelSorted, Ordered, Newer, Layered, VersionNumbersUnique;
    InputsFileOk(v, level, [f], []);
    assert f in [f];
  }

  lemma MoveSorted(v: Version, w: Version, level: nat, f: File)
    requires VersionOk(v) && InputsOk(v, level, [f], []) && FileMoved(v, w, level, f)
    ensures (level > 0 ==> LevelSorted(w[level])) && LevelSorted(w[level + 1])
  {
    hide FileOk, LevelSorted, Ordered, Newer, Layered, VersionNumbersUnique, InputsOk;
    MemberAfterMove(v, w, level, f);
    UpperLevelSorted(v, w, level, [f], [], [f]);
    assert f in [f];
    forall g, h | g in w[level + 1] && h in w[level + 1] && g != h
      ensures Less(g.largest, h.smallest) || Less(h.largest, g.smallest)
    {
      if g in v[level + 1] && h in v[level + 1] {
        OneSideOf(v[level + 1], g, h);
      } else if g == f {
        LowerOnOneSide(v, level, [f], [], h);
      } else {
        LowerOnOneSide(v, level, [f], [], g);
      }
    }
    ApartInOrder(w[level + 1]);
  }

  lemma MoveLayered(v: Version, w: Version, level: nat, f: File)
    requires VersionOk(v) && InputsOk(v, level, [f], []) && FileMoved(v, w, level, f)
    ensures Layered(w)
  {
    hide FileOk, LevelSorted, Ordered, Newer, VersionNumbersUnique, InputsOk, FileMoved;
    MemberAfterMove(v, w, level, f);
    assert f in [f];
    assert forall e :: e in f.entries ==> InInputs([f], [], e);
    forall l, m, g, h | 0 <= l < m < |w| && g in w[l] && h in w[m]
      ensures Newer(g, h)
    {
      if h == f && m == level + 1 {
        NewerThanOutput(v, level, [f], [], l, g, f);
      } else if g == f && l == level + 1 {
        assert Newer(f, h);
      } else {
        assert g in v[l] && h in v[m];
      }
    }
    assert forall g :: g in w[0] ==> g in v[0];
  }

  lemma MoveContents(v: Version, w: Version, level: nat, f: File)
    requires VersionOk(v) && InputsOk(v, level, [f], []) && FileMoved(v, w, level, f)
    ensures Contents(w) == Contents(v)
  {
    hide FileOk, LevelSorted, Ordered, Newer, Layered, VersionNumbersUnique, InputsOk, FileMoved;
    MemberAfterMove(v, w, level, f);
    InputsFileOk(v, level, [f], []);
    forall e
      ensures e in Contents(w) <==> e in Contents(v)
    {
      if e in Contents(v) {
        var l, g :| 0 <= l < |v| && g in v[l] && e in g.entries;
        var k := if l == level && g == f then level + 1 else l;
        assert g in w[k];
      }
      if e in Contents(w) {
        var l, g :| 0 <= l < |w| && g in w[l] && e in g.entries;
        var k := if l == level + 1 && g == f then level else l;
        assert g in v[k];
      }
    }
  }

  lemma MoveNumbers(v: Version, w: Version, level: nat, f: File)
    requires VersionOk(v) && InputsOk(v, level, [f], []) && FileMoved(v, w, level, f)
    ensures VersionNumbersUnique(w)
  {
    hide FileOk, LevelSorted, Ordered, Newer, Layered, InputsOk, FileMoved;
    MemberAfterMove(v, w, level, f);
    InputsFileOk(v, level, [f], []);
    forall l, g | 0 <= l < |w| && g in w[l]
      ensures g in v[if l == level + 1 && g == f then level else l]
    {
    }
  }
}
