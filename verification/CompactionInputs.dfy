/** Choosing the input files of a compaction: overlapping files, the closure over overlaps at
    level 0, the closure over shared boundary user keys, and the expansion step. */
module CompactionInputs {
  import opened InternalKeys
  import opened Slices
  import opened Versions

  /** A bound of a range of user keys; None is no bound. */
  type Bound = Option<UserKey>

  predicate Overlaps(f: File, begin: Bound, end: Bound) {
    (begin.Some? ==> f.largest.user >= begin.value) && (end.Some? ==> f.smallest.user <= end.value)
  }

  predicate Within(f: File, begin: Bound, end: Bound) {
    (begin.Some? ==> begin.value <= f.smallest.user) && (end.Some? ==> f.largest.user <= end.value)
  }

  /** The files that overlap a range, in order. */
  function Overlapping(files: seq<File>, begin: Bound, end: Bound): (r: seq<File>)
    ensures forall f :: f in r <==> f in files && Overlaps(f, begin, end)
  {
    if files == [] then []
    else
      var last := files[|files| - 1];
      Overlapping(files[..|files| - 1], begin, end) + if Overlaps(last, begin, end) then [last] else []
  }

  /** Every file that overlaps the range lies inside it. */
  ghost predicate ClosedRange(files: seq<File>, begin: Bound, end: Bound) {
    forall f :: f in files && Overlaps(f, begin, end) ==> Within(f, begin, end)
  }

  /** The range (b, e) holds the range (begin, end). */
  predicate Holds(b: Bound, e: Bound, begin: Bound, end: Bound) {
    && (b.Some? ==> begin.Some? && b.value <= begin.value)
    && (e.Some? ==> end.Some? && end.value <= e.value)
  }

  /** The least range that holds the given one and is closed under overlap. */
  ghost predicate LeastClosed(files: seq<File>, begin: Bound, end: Bound, b: Bound, e: Bound) {
    Holds(b, e, begin, end) && ClosedRange(files, b, e) && InsideClosed(files, begin, end, b, e)
  }

  /** Every closed range that holds (begin, end) holds (b, e). */
  ghost predicate InsideClosed(files: seq<File>, begin: Bound, end: Bound, b: Bound, e: Bound) {
    forall b', e' :: Holds(b', e', begin, end) && ClosedRange(files, b', e') ==> Holds(b', e', b, e)
  }

  /** A closed range that holds (b, e) also holds a file overlapping (b, e). */
  lemma ExtensionIsForced(files: seq<File>, begin: Bound, end: Bound, b: Bound, e: Bound, f: File)
    requires f in files && Overlaps(f, b, e) && InsideClosed(files, begin, end, b, e)
    ensures b.Some? && f.smallest.user < b.value ==>
        InsideClosed(files, begin, end, Some(f.smallest.user), e)
    ensures e.Some? && f.largest.user > e.value ==>
        InsideClosed(files, begin, end, b, Some(f.largest.user))
  {
    forall b', e' | Holds(b', e', begin, end) && ClosedRange(files, b', e')
      ensures Holds(b', e', b, e) && Within(f, b', e')
    {
      assert Overlaps(f, b', e');
    }
  }

  lemma ScanOne(files: seq<File>, i: nat, b: Bound, e: Bound)
    requires i < |files|
    ensures Overlapping(files[..i + 1], b, e) ==
        Overlapping(files[..i], b, e) + if Overlaps(files[i], b, e) then [files[i]] else []
    ensures ClosedRange(files[..i], b, e) && (Overlaps(files[i], b, e) ==> Within(files[i], b, e)) ==>
        ClosedRange(files[..i + 1], b, e)
  {
    assert files[..i + 1] == files[..i] + [files[i]];
    assert files[..i + 1][..i] == files[..i];
  }

  /** How many files start below `begin`, plus how many end above `end`. */
  ghost function Outside(files: seq<File>, begin: Bound, end: Bound): nat {
    if files == [] then 0
    else
      (if begin.Some? && files[0].smallest.user < begin.value then 1 else 0)
      + (if end.Some? && files[0].largest.user > end.value then 1 else 0)
      + Outside(files[1..], begin, end)
  }

  lemma {:induction false} OutsideShrinks(files: seq<File>, begin: Bound, end: Bound, b: Bound, e: Bound, f: File)
    requires Holds(b, e, begin, end) && (b.Some? <==> begin.Some?) && (e.Some? <==> end.Some?)
    ensures Outside(files, b, e) <= Outside(files, begin, end)
    ensures f in files && begin.Some? && b.value == f.smallest.user < begin.value ==>
        Outside(files, b, e) < Outside(files, begin, end)
    ensures f in files && end.Some? && e.value == f.largest.user > end.value ==>
        Outside(files, b, e) < Outside(files, begin, end)
  {
    if files != [] {
      OutsideShrinks(files[1..], begin, end, b, e, f);
    }
  }

  /** The files of a level that meet the range.  At level 0, where files may overlap each
      other, a file that reaches past the range extends it and restarts the search. */
  method GetOverlappingInputs(files: seq<File>, level: nat, begin: Bound, end: Bound)
    returns (inputs: seq<File>, ghost b: Bound, ghost e: Bound)
    ensures inputs == Overlapping(files, b, e)
    ensures level > 0 ==> b == begin && e == end
    ensures level == 0 ==> LeastClosed(files, begin, end, b, e)
  {
    hide InsideClosed, ClosedRange, Overlapping, Outside;
    inputs := [];
    var userBegin, userEnd := begin, end;
    var i := 0;
    StartOfScan(files, begin, end);
    while i < |files|
      invariant i <= |files|
      invariant inputs == Overlapping(files[..i], userBegin, userEnd)
      invariant level > 0 ==> userBegin == begin && userEnd == end
      invariant level == 0 ==> ClosedRange(files[..i], userBegin, userEnd)
      invariant Holds(userBegin, userEnd, begin, end)
      invariant (userBegin.Some? <==> begin.Some?) && (userEnd.Some? <==> end.Some?)
      invariant InsideClosed(files, begin, end, userBegin, userEnd)
      decreases Outside(files, userBegin, userEnd), |files| - i
    {
      var f := files[i];
      ScanOne(files, i, userBegin, userEnd);
      i := i + 1;
      if userBegin.Some? && f.largest.user < userBegin.value {
        // It ends too early
      } else if userEnd.Some? && f.smallest.user > userEnd.value {
        // It starts too late
      } else {
        inputs := inputs + [f];
        if level == 0 {
          ExtensionIsForced(files, begin, end, userBegin, userEnd, f);
          if userBegin.Some? && f.smallest.user < userBegin.value {
            OutsideShrinks(files, userBegin, userEnd, Some(f.smallest.user), userEnd, f);
            userBegin := Some(f.smallest.user);
            inputs := [];
            i := 0;
            StartOfScan(files, userBegin, userEnd);
          } else if userEnd.Some? && f.largest.user > userEnd.value {
            OutsideShrinks(files, userBegin, userEnd, userBegin, Some(f.largest.user), f);
            userEnd := Some(f.largest.user);
            inputs := [];
            i := 0;
            StartOfScan(files, userBegin, userEnd);
          }
        }
      }
    }
    assert files[..|files|] == files;
    b, e := userBegin, userEnd;
  }

  lemma StartOfScan(files: seq<File>, b: Bound, e: Bound)
    ensures Overlapping(files[..0], b, e) == [] && ClosedRange(files[..0], b, e)
    ensures InsideClosed(files, b, e, b, e)
  {
  }

  ghost predicate IsSmallest(inputs: seq<File>, k: IKey) {
    (exists f :: f in inputs && f.smallest == k) && forall f :: f in inputs ==> !Less(f.smallest, k)
  }

  ghost predicate IsLargest(inputs: seq<File>, k: IKey) {
    (exists f :: f in inputs && f.largest == k) && forall f :: f in inputs ==> !Less(k, f.largest)
  }

  /** The least range of internal keys that covers the inputs. */
  method GetRange(inputs: seq<File>) returns (smallest: IKey, largest: IKey)
    requires inputs != []
    ensures IsSmallest(inputs, smallest) && IsLargest(inputs, largest)
  {
    smallest, largest := inputs[0].smallest, inputs[0].largest;
    for i := 1 to |inputs|
      invariant IsSmallest(inputs[..i], smallest) && IsLargest(inputs[..i], largest)
    {
      var f := inputs[i];
      assert inputs[..i + 1] == inputs[..i] + [f];
      ghost var s0, l0 := smallest, largest;
      if Less(f.smallest, smallest) {
        smallest := f.smallest;
      }
      if Less(largest, f.largest) {
        largest := f.largest;
      }
      ExtendRange(inputs[..i], f, s0, l0);
    }
    assert inputs[..|inputs|] == inputs;
  }

  lemma ExtendRange(inputs: seq<File>, f: File, smallest: IKey, largest: IKey)
    requires IsSmallest(inputs, smallest) && IsLargest(inputs, largest)
    ensures IsSmallest(inputs + [f], if Less(f.smallest, smallest) then f.smallest else smallest)
    ensures IsLargest(inputs + [f], if Less(largest, f.largest) then f.largest else largest)
  {
    var g :| g in inputs && g.smallest == smallest;
    var h :| h in inputs && h.largest == largest;
    assert g in inputs + [f] && h in inputs + [f] && f in inputs + [f];
  }

  /** f starts right after `key` with the same user key. */
  predicate IsBoundary(f: File, key: IKey) {
    Less(key, f.smallest) && f.smallest.user == key.user
  }

  /** Of the files that go on with the user key of `key`, f starts first. */
  ghost predicate NextBoundary(files: seq<File>, key: IKey, f: File) {
    f in files && IsBoundary(f, key) && forall g :: g in files && IsBoundary(g, key) ==> !Less(g.smallest, f.smallest)
  }

  /** The file that starts first after `key` with the same user key. */
  method FindSmallestBoundaryFile(files: seq<File>, key: IKey) returns (r: Option<File>)
    ensures r.None? ==> forall f :: f in files ==> !IsBoundary(f, key)
    ensures r.Some? ==> NextBoundary(files, key, r.value)
  {
    r := None;
    for i := 0 to |files|
      invariant r.None? ==> forall j :: 0 <= j < i ==> !IsBoundary(files[j], key)
      invariant r.Some? ==>
          && r.value in files && IsBoundary(r.value, key)
          && forall j :: 0 <= j < i && IsBoundary(files[j], key) ==> !Less(files[j].smallest, r.value.smallest)
    {
      var f := files[i];
      if Less(key, f.smallest) && f.smallest.user == key.user {
        if r.None? || Less(f.smallest, r.value.smallest) {
          r := Some(f);
        }
      }
    }
  }

  /** How many files start after `key`. */
  ghost function CountAfter(files: seq<File>, key: IKey): nat {
    if files == [] then 0 else (if Less(key, files[0].smallest) then 1 else 0) + CountAfter(files[1..], key)
  }

  lemma {:induction false} CountAfterShrinks(files: seq<File>, key: IKey, key': IKey, f: File)
    requires Less(key, key')
    ensures CountAfter(files, key') <= CountAfter(files, key)
    ensures f in files && Less(key, f.smallest) && !Less(key', f.smallest) ==>
        CountAfter(files, key') < CountAfter(files, key)
  {
    if files != [] {
      CountAfterShrinks(files[1..], key, key', f);
    }
  }

  /** The inputs are neighbouring files of the level. */
  ghost predicate IsSlice(files: seq<File>, inputs: seq<File>) {
    exists lo, hi :: 0 <= lo < hi <= |files| && inputs == files[lo..hi]
  }

  /** No file of the level starts after the inputs with the user key they end with. */
  ghost predicate NoBoundary(files: seq<File>, inputs: seq<File>) {
    forall k, f :: IsLargest(inputs, k) && f in files ==> !IsBoundary(f, k)
  }

  /** The inputs r extend others by one file after the other, each the next that goes on with the user key
      the files before it end with. */
  ghost predicate Continues(files: seq<File>, inputs: seq<File>, r: seq<File>) {
    inputs <= r && forall n, k :: |inputs| <= n < |r| && IsLargest(r[..n], k) ==> NextBoundary(files, k, r[n])
  }

  /** They do so until no file goes on. */
  ghost predicate Completed(files: seq<File>, inputs: seq<File>, r: seq<File>) {
    Continues(files, inputs, r) && NoBoundary(files, r)
  }

  lemma OneMoreContinues(files: seq<File>, inputs: seq<File>, r: seq<File>, key: IKey, f: File)
    requires Continues(files, inputs, r) && IsLargest(r, key) && NextBoundary(files, key, f)
    ensures Continues(files, inputs, r + [f])
  {
    hide IsLargest, NextBoundary;
    var more := r + [f];
    forall n, k | |inputs| <= n < |more| && IsLargest(more[..n], k) ensures NextBoundary(files, k, more[n]) {
      if n < |r| {
        assert more[..n] == r[..n];
      } else {
        assert more[..n] == r;
        LargestUnique(r, k, key);
      }
    }
  }

  /** Extend the inputs by every file of the level that goes on with the user key they end with. */
  method AddBoundaryInputs(files: seq<File>, inputs: seq<File>) returns (r: seq<File>)
    requires inputs != [] && forall f :: f in files ==> FileOk(f)
    ensures inputs <= r && forall f :: f in r ==> f in inputs || f in files
    ensures Completed(files, inputs, r)
    ensures NoBoundary(files, inputs) ==> r == inputs
    ensures LevelSorted(files) && IsSlice(files, inputs) ==> IsSlice(files, r)
  {
    hide FileOk, IsSlice, NoBoundary, LevelSorted, IsLargest, IsBoundary, Continues;
    r := inputs;
    NothingAdded(files, inputs);
    var smallest, largestKey := GetRange(inputs);
    while true
      invariant inputs <= r && forall f :: f in r ==> f in inputs || f in files
      invariant IsLargest(r, largestKey) && Continues(files, inputs, r)
      invariant NoBoundary(files, inputs) ==> r == inputs
      invariant LevelSorted(files) && IsSlice(files, inputs) ==> IsSlice(files, r)
      decreases CountAfter(files, largestKey)
    {
      var boundary := FindSmallestBoundaryFile(files, largestKey);
      if boundary.None? {
        NoBoundaryAt(files, r, largestKey);
        break;
      }
      BoundaryGrows(files, r, largestKey, boundary.value);
      OneMoreContinues(files, inputs, r, largestKey, boundary.value);
      r := r + [boundary.value];
      largestKey := boundary.value.largest;
    }
  }

  lemma NothingAdded(files: seq<File>, inputs: seq<File>)
    ensures Continues(files, inputs, inputs)
  {
  }

  lemma NoBoundaryAt(files: seq<File>, r: seq<File>, key: IKey)
    requires IsLargest(r, key) && forall f :: f in files ==> !IsBoundary(f, key)
    ensures NoBoundary(files, r)
  {
    hide IsLargest, IsBoundary;
    forall k | IsLargest(r, k)
      ensures k == key
    {
      LargestUnique(r, k, key);
    }
  }

  /** A boundary file extends the inputs and moves their largest key up. */
  lemma BoundaryGrows(files: seq<File>, r: seq<File>, key: IKey, f: File)
    requires IsLargest(r, key) && forall g :: g in files ==> FileOk(g)
    requires NextBoundary(files, key, f)
    ensures !NoBoundary(files, r)
    ensures IsLargest(r + [f], f.largest)
    ensures CountAfter(files, f.largest) < CountAfter(files, key)
    ensures LevelSorted(files) && IsSlice(files, r) ==> IsSlice(files, r + [f])
  {
    hide FileOk, IsSlice, LevelSorted, IsLargest;
    RangeOk(f);
    CountAfterShrinks(files, key, f.largest, f);
    LargestGrows(r, key, f);
    if LevelSorted(files) && IsSlice(files, r) {
      SliceGrows(files, r, key, f);
    }
  }

  lemma SliceGrows(files: seq<File>, r: seq<File>, key: IKey, f: File)
    requires LevelSorted(files) && IsSlice(files, r) && IsLargest(r, key)
    requires forall g :: g in files ==> FileOk(g)
    requires NextBoundary(files, key, f)
    ensures IsSlice(files, r + [f])
  {
    hide FileOk, LevelSorted, IsLargest;
    var lo, hi :| 0 <= lo < hi <= |files| && r == files[lo..hi];
    BoundaryIsNext(files, lo, hi, key, f);
    assert r + [f] == files[lo..hi + 1];
  }

  lemma LargestUnique(inputs: seq<File>, k: IKey, k': IKey)
    requires IsLargest(inputs, k) && IsLargest(inputs, k')
    ensures k == k'
  {
  }

  lemma LargestGrows(r: seq<File>, key: IKey, f: File)
    requires IsLargest(r, key) && Less(key, f.smallest) && !Less(f.largest, f.smallest)
    ensures IsLargest(r + [f], f.largest)
  {
    assert f in r + [f];
  }

  /** In a sorted level the boundary file is the one right after the inputs. */
  lemma BoundaryIsNext(files: seq<File>, lo: nat, hi: nat, key: IKey, f: File)
    requires LevelSorted(files) && (forall f :: f in files ==> FileOk(f)) && lo < hi <= |files|
    requires IsLargest(files[lo..hi], key) && NextBoundary(files, key, f)
    ensures hi < |files| && f == files[hi]
  {
    hide FileOk;
    SliceEndsLargest(files, lo, hi, key);
    var i :| 0 <= i < |files| && files[i] == f;
    RangeOk(f);
    RangeOk(files[hi - 1]);
    assert i >= hi;
    RangeOk(files[hi]);
  }

  /** The largest key of a slice of a sorted level is that of its last file. */
  lemma SliceEndsLargest(files: seq<File>, lo: nat, hi: nat, key: IKey)
    requires LevelSorted(files) && (forall f :: f in files ==> FileOk(f)) && lo < hi <= |files|
    requires IsLargest(files[lo..hi], key)
    ensures key == files[hi - 1].largest
  {
    hide FileOk;
    var g :| g in files[lo..hi] && g.largest == key;
    var j :| 0 <= j < hi - lo && files[lo..hi][j] == g;
    assert files[hi - 1] == files[lo..hi][hi - 1 - lo];
    RangeOk(files[hi - 1]);
  }

  ghost predicate Level0Closed(files: seq<File>, inputs: seq<File>) {
    exists b, e :: inputs == Overlapping(files, b, e) && ClosedRange(files, b, e)
  }

  /** The inputs at the upper level: closed under overlap at level 0; deeper, neighbouring files
      that end where their last user key ends. */
  ghost predicate UpperInputsOk(files: seq<File>, level: nat, inputs: seq<File>) {
    && inputs != [] && (forall f :: f in inputs ==> f in files)
    && if level == 0 then Level0Closed(files, inputs) else IsSlice(files, inputs) && NoBoundary(files, inputs)
  }

  /** The inputs at the lower level: the files that overlap the user keys of the upper inputs. */
  ghost predicate LowerInputsOk(lower: seq<File>, upperInputs: seq<File>, inputs: seq<File>) {
    exists s, l :: IsSmallest(upperInputs, s) && IsLargest(upperInputs, l)
        && inputs == Overlapping(lower, Some(s.user), Some(l.user))
  }

  ghost predicate InputsOk(v: Version, level: nat, inputs0: seq<File>, inputs1: seq<File>) {
    && |v| == NUM_LEVELS && level + 1 < NUM_LEVELS
    && UpperInputsOk(v[level], level, inputs0)
    && LowerInputsOk(v[level + 1], inputs0, inputs1)
  }

  /** Inputs closed under overlap end where their last user key ends. */
  lemma ClosedHasNoBoundary(files: seq<File>, inputs: seq<File>)
    requires (forall f :: f in files ==> FileOk(f)) && Level0Closed(files, inputs)
    ensures NoBoundary(files, inputs)
  {
    hide FileOk;
    var b, e :| inputs == Overlapping(files, b, e) && ClosedRange(files, b, e);
    forall k, f | IsLargest(inputs, k) && f in files
      ensures !IsBoundary(f, k)
    {
      var g :| g in inputs && g.largest == k;
      RangeOk(f);
      RangeOk(g);
      assert Within(g, b, e);
      assert IsBoundary(f, k) ==> Overlaps(f, b, e);
    }
  }

  /** In a sorted level, the files overlapping a range are neighbours. */
  lemma {:induction false} OverlappingIsSlice(files: seq<File>, begin: Bound, end: Bound) returns (lo: nat, hi: nat)
    requires LevelSorted(files) && forall f :: f in files ==> FileOk(f)
    ensures lo <= hi <= |files| && Overlapping(files, begin, end) == files[lo..hi]
    ensures lo < hi < |files| ==> !Overlaps(files[hi], begin, end)
  {
    hide FileOk, LevelSorted, Overlaps, Overlapping;
    OverlappingStep(files, begin, end);
    if files == [] {
      lo, hi := 0, 0;
    } else {
      var n := |files| - 1;
      PrefixSorted(files, n);
      lo, hi := OverlappingIsSlice(files[..n], begin, end);
      SliceOfPrefix(files, n, lo, hi);
      if Overlaps(files[n], begin, end) {
        if lo == hi {
          lo := n;
        } else {
          LastReached(files, n, lo, hi, begin, end);
        }
        hi := n + 1;
        LastOfSlice(files, lo, n);
      }
    }
  }

  lemma OverlappingStep(files: seq<File>, begin: Bound, end: Bound)
    ensures files == [] ==> Overlapping(files, begin, end) == []
    ensures files != [] ==>
        var n := |files| - 1;
        Overlapping(files, begin, end) ==
        Overlapping(files[..n], begin, end) + if Overlaps(files[n], begin, end) then [files[n]] else []
  {
  }

  /** When the last file overlaps too, the slice of the files before it reaches up to it. */
  lemma LastReached(files: seq<File>, n: nat, lo: nat, hi: nat, begin: Bound, end: Bound)
    requires LevelSorted(files) && (forall f :: f in files ==> FileOk(f)) && n < |files|
    requires lo < hi <= n && Overlapping(files[..n], begin, end) == files[lo..hi]
    requires hi < n ==> !Overlaps(files[hi], begin, end)
    requires Overlaps(files[n], begin, end)
    ensures hi == n
  {
    hide FileOk, LevelSorted, Overlaps, Overlapping;
    assert files[lo..hi][hi - 1 - lo] == files[hi - 1];
    assert files[hi - 1] in Overlapping(files[..n], begin, end);
    if hi < n {
      BetweenOverlaps(files, hi, n, begin, end);
    }
  }

  lemma BetweenOverlaps(files: seq<File>, i: nat, n: nat, begin: Bound, end: Bound)
    requires LevelSorted(files) && (forall f :: f in files ==> FileOk(f)) && 0 < i < n < |files|
    requires Overlaps(files[i - 1], begin, end) && Overlaps(files[n], begin, end)
    ensures Overlaps(files[i], begin, end)
  {
    hide FileOk, LevelSorted;
    UsersAscend(files, i);
    UsersAscend(files, n);
    RangeOk(files[i]);
  }

  lemma PrefixSorted(files: seq<File>, n: nat)
    requires LevelSorted(files) && n <= |files|
    ensures LevelSorted(files[..n])
  {
  }

  /** User keys ascend along a sorted level. */
  lemma UsersAscend(files: seq<File>, n: nat)
    requires LevelSorted(files) && n < |files| && forall f :: f in files ==> FileOk(f)
    ensures forall j :: 0 <= j < n ==>
        files[j].smallest.user <= files[j].largest.user <= files[n].smallest.user
  {
    hide FileOk;
    forall j | 0 <= j < n
      ensures files[j].smallest.user <= files[j].largest.user <= files[n].smallest.user
    {
      RangeOk(files[j]);
    }
  }

  function TotalFileSize(files: seq<File>): nat {
    if files == [] then 0 else TotalFileSize(files[..|files| - 1]) + files[|files| - 1].size
  }

  /** Every input overlaps the range of user keys the inputs span. */
  lemma InputsOverlapTheirRange(inputs: seq<File>, all: seq<File>, s: IKey, l: IKey)
    requires (forall f :: f in inputs ==> FileOk(f) && f in all) && IsSmallest(all, s) && IsLargest(all, l)
    ensures forall f :: f in inputs ==> Overlaps(f, Some(s.user), Some(l.user))
  {
    hide FileOk;
    forall f | f in inputs
      ensures Overlaps(f, Some(s.user), Some(l.user))
    {
      RangeOk(f);
    }
  }

  /** The files overlapping a range are what the boundary step expects. */
  lemma OverlappingReady(files: seq<File>, level: nat, inputs: seq<File>, b: Bound, e: Bound)
    requires (forall f :: f in files ==> FileOk(f)) && (level > 0 ==> LevelSorted(files))
    requires inputs == Overlapping(files, b, e) && inputs != []
    requires level == 0 ==> ClosedRange(files, b, e)
    ensures if level == 0 then Level0Closed(files, inputs) && NoBoundary(files, inputs) else IsSlice(files, inputs)
  {
    hide FileOk, LevelSorted, NoBoundary;
    if level == 0 {
      ClosedHasNoBoundary(files, inputs);
    } else {
      var lo, hi := OverlappingIsSlice(files, b, e);
    }
  }

  /** What is picked at a level before it is completed. */
  ghost predicate PickedOk(files: seq<File>, level: nat, picked: seq<File>) {
    picked != [] && if level == 0 then Level0Closed(files, picked) else IsSlice(files, picked)
  }

  /** The level-wise facts of a version that choosing inputs relies on. */
  ghost predicate LevelOk(files: seq<File>, level: nat) {
    (forall f :: f in files ==> FileOk(f)) && (level > 0 ==> LevelSorted(files))
  }

  /** Close the files picked at a level over shared boundary keys, and find what they overlap at
      the next level. */
  method CompleteInputs(upper: seq<File>, lower: seq<File>, level: nat, picked: seq<File>)
    returns (inputs0: seq<File>, inputs1: seq<File>)
    requires LevelOk(upper, level) && PickedOk(upper, level, picked)
    ensures UpperInputsOk(upper, level, inputs0) && LowerInputsOk(lower, inputs0, inputs1)
    ensures Completed(upper, picked, inputs0) && forall f :: f in picked ==> f in inputs0
  {
    hide FileOk, LevelSorted, NoBoundary, IsSmallest, IsLargest, ClosedRange, Continues;
    if level == 0 {
      ClosedHasNoBoundary(upper, picked);
    }
    inputs0 := AddBoundaryInputs(upper, picked);
    PickedInLevel(upper, level, picked);
    var smallest, largest := GetRange(inputs0);
    ghost var b, e;
    inputs1, b, e := GetOverlappingInputs(lower, level + 1, Some(smallest.user), Some(largest.user));
  }

  /** Over a wider range, no fewer files overlap, and the same when no more do. */
  lemma {:induction false} WiderOverlap(files: seq<File>, begin: Bound, end: Bound, b: Bound, e: Bound)
    requires Holds(b, e, begin, end)
    ensures |Overlapping(files, begin, end)| <= |Overlapping(files, b, e)|
    ensures |Overlapping(files, begin, end)| == |Overlapping(files, b, e)| ==>
        Overlapping(files, begin, end) == Overlapping(files, b, e)
  {
    if files != [] {
      WiderOverlap(files[..|files| - 1], begin, end, b, e);
    }
  }

  /** Upper inputs that grow without raising the number of lower inputs leave these as they are. */
  lemma GrowingAddsNone(lower: seq<File>, plain0: seq<File>, plain1: seq<File>, grown0: seq<File>, grown1: seq<File>)
    requires LowerInputsOk(lower, plain0, plain1) && LowerInputsOk(lower, grown0, grown1)
    requires (forall f :: f in plain0 ==> f in grown0) && |plain1| == |grown1|
    ensures plain1 == grown1
  {
    hide Overlapping;
    var s, l :| IsSmallest(plain0, s) && IsLargest(plain0, l) && plain1 == Overlapping(lower, Some(s.user), Some(l.user));
    var s', l' :| IsSmallest(grown0, s') && IsLargest(grown0, l') && grown1 == Overlapping(lower, Some(s'.user), Some(l'.user));
    WiderOverlap(lower, Some(s.user), Some(l.user), Some(s'.user), Some(l'.user));
  }

  /** The inputs that a pick leads to, or more at the upper level within a size limit; the same at the lower. */
  ghost predicate Grown(v: Version, level: nat, sizeLimit: nat, plain0: seq<File>, plain1: seq<File>,
                        inputs0: seq<File>, inputs1: seq<File>)
    requires level + 1 < |v|
  {
    && UpperInputsOk(v[level], level, plain0) && LowerInputsOk(v[level + 1], plain0, plain1)
    && inputs1 == plain1 && (forall f :: f in plain0 ==> f in inputs0)
    && (inputs0 == plain0
        || (plain1 != [] && |inputs0| > |plain0| && TotalFileSize(inputs1) + TotalFileSize(inputs0) < sizeLimit))
  }

  /** The files of a level that a range selects: at level 0 the overlapping ones, transitively. */
  ghost predicate RangeInputs(files: seq<File>, level: nat, begin: Bound, end: Bound, picked: seq<File>) {
    if level == 0 then exists b, e :: LeastClosed(files, begin, end, b, e) && picked == Overlapping(files, b, e)
    else picked == Overlapping(files, begin, end)
  }

  /** The files of a level that the range of some inputs selects. */
  ghost predicate Spanned(files: seq<File>, level: nat, inputs: seq<File>, wide: seq<File>) {
    exists s, l :: IsSmallest(inputs, s) && IsLargest(inputs, l) && RangeInputs(files, level, Some(s.user), Some(l.user), wide)
  }

  /** What a pick leads to: it is completed at its level, and the next level adds what overlaps. */
  ghost predicate LeadsTo(v: Version, level: nat, picked: seq<File>, inputs0: seq<File>, inputs1: seq<File>)
    requires level + 1 < |v|
  {
    Completed(v[level], picked, inputs0) && LowerInputsOk(v[level + 1], inputs0, inputs1)
  }

  /** More files at the upper level, none at the lower, and not too much in all. */
  predicate Wider(sizeLimit: nat, plain0: seq<File>, plain1: seq<File>, wide0: seq<File>, wide1: seq<File>) {
    |wide0| > |plain0| && |wide1| == |plain1| && TotalFileSize(plain1) + TotalFileSize(wide0) < sizeLimit
  }

  /** The inputs that a pick leads to are kept, unless what their whole range leads to is wider. */
  ghost predicate GrownFrom(v: Version, level: nat, sizeLimit: nat, plain0: seq<File>, plain1: seq<File>,
                            inputs0: seq<File>, inputs1: seq<File>)
    requires level + 1 < |v|
  {
    if plain1 == [] then inputs0 == plain0 && inputs1 == plain1
    else exists wide, wide0, wide1 ::
        && Spanned(v[level], level, plain0 + plain1, wide) && LeadsTo(v, level, wide, wide0, wide1)
        && inputs0 == (if Wider(sizeLimit, plain0, plain1, wide0, wide1) then wide0 else plain0)
        && inputs1 == (if Wider(sizeLimit, plain0, plain1, wide0, wide1) then wide1 else plain1)
  }

  /** The inputs that belong to a pick. */
  ghost predicate Selected(v: Version, level: nat, sizeLimit: nat, picked: seq<File>, inputs0: seq<File>, inputs1: seq<File>)
    requires level + 1 < |v|
  {
    exists plain0, plain1 ::
        LeadsTo(v, level, picked, plain0, plain1) && GrownFrom(v, level, sizeLimit, plain0, plain1, inputs0, inputs1)
  }

  lemma SmallestUnique(inputs: seq<File>, k: IKey, k': IKey)
    requires IsSmallest(inputs, k) && IsSmallest(inputs, k')
    ensures k == k'
  {
  }

  /** The next boundary file of a sorted level is determined. */
  lemma NextUnique(files: seq<File>, key: IKey, f: File, g: File)
    requires LevelSorted(files) && (forall f :: f in files ==> FileOk(f))
    requires NextBoundary(files, key, f) && NextBoundary(files, key, g)
    ensures f == g
  {
    hide FileOk;
    RangeOk(f);
    RangeOk(g);
    var i :| 0 <= i < |files| && files[i] == f;
    var j :| 0 <= j < |files| && files[j] == g;
    assert i < j ==> Less(f.largest, g.smallest);
    assert j < i ==> Less(g.largest, f.smallest);
  }

  /** Of two ways to go on, the longer starts with the shorter. */
  lemma {:induction false} SamePrefix(files: seq<File>, inputs: seq<File>, r: seq<File>, r': seq<File>, n: nat)
    requires LevelSorted(files) && (forall f :: f in files ==> FileOk(f)) && inputs != []
    requires Continues(files, inputs, r) && Continues(files, inputs, r') && |inputs| <= n <= |r| && n <= |r'|
    ensures r[..n] == r'[..n]
    decreases n
  {
    hide FileOk, LevelSorted, NextBoundary, IsLargest;
    if n == |inputs| {
      assert r[..n] == inputs == r'[..n];
    } else {
      SamePrefix(files, inputs, r, r', n - 1);
      var key := LargestOf(r[..n - 1]);
      assert NextBoundary(files, key, r[n - 1]) && NextBoundary(files, key, r'[n - 1]);
      NextUnique(files, key, r[n - 1], r'[n - 1]);
      assert r[..n] == r[..n - 1] + [r[n - 1]] && r'[..n] == r'[..n - 1] + [r'[n - 1]];
    }
  }

  lemma {:induction false} LargestOf(inputs: seq<File>) returns (key: IKey)
    requires inputs != []
    ensures IsLargest(inputs, key)
  {
    var n := |inputs| - 1;
    assert inputs == inputs[..n] + [inputs[n]];
    if n == 0 {
      key := inputs[0].largest;
    } else {
      key := LargestOf(inputs[..n]);
      var f := inputs[n];
      assert f in inputs;
      var g :| g in inputs[..n] && g.largest == key;
      assert g in inputs;
      if Less(key, f.largest) {
        key := f.largest;
      }
    }
  }

  lemma GoesOn(files: seq<File>, inputs: seq<File>, r: seq<File>, n: nat)
    requires Continues(files, inputs, r) && inputs != [] && |inputs| <= n < |r|
    ensures !NoBoundary(files, r[..n])
  {
    var key := LargestOf(r[..n]);
    assert NextBoundary(files, key, r[n]);
  }

  /** What a pick is completed to is determined, at every level. */
  lemma CompletedUnique(files: seq<File>, level: nat, picked: seq<File>, r: seq<File>, r': seq<File>)
    requires LevelOk(files, level) && PickedOk(files, level, picked)
    requires Completed(files, picked, r) && Completed(files, picked, r')
    ensures r == r'
  {
    hide FileOk, LevelSorted, Continues, NoBoundary;
    if level == 0 {
      ClosedHasNoBoundary(files, picked);
      OnlyPicked(files, picked, r);
      OnlyPicked(files, picked, r');
    } else {
      var n := if |r| < |r'| then |r| else |r'|;
      Extends(files, picked, r);
      Extends(files, picked, r');
      SamePrefix(files, picked, r, r', n);
      assert r[..|r|] == r && r'[..|r'|] == r';
      if n < |r| {
        GoesOn(files, picked, r, n);
      } else if n < |r'| {
        GoesOn(files, picked, r', n);
      }
    }
  }

  lemma Extends(files: seq<File>, inputs: seq<File>, r: seq<File>)
    requires Continues(files, inputs, r)
    ensures |inputs| <= |r|
  {
  }

  lemma OnlyPicked(files: seq<File>, inputs: seq<File>, r: seq<File>)
    requires Continues(files, inputs, r) && NoBoundary(files, inputs) && inputs != []
    ensures r == inputs
  {
    hide NoBoundary;
    assert r[..|inputs|] == inputs;
    if |r| > |inputs| {
      GoesOn(files, inputs, r, |inputs|);
    }
  }

  /** The files that a range selects are determined. */
  lemma RangeInputsUnique(files: seq<File>, level: nat, begin: Bound, end: Bound, a: seq<File>, b: seq<File>)
    requires RangeInputs(files, level, begin, end, a) && RangeInputs(files, level, begin, end, b)
    ensures a == b
  {
    hide ClosedRange, Overlapping;
    if level == 0 {
      var b0, e0 :| LeastClosed(files, begin, end, b0, e0) && a == Overlapping(files, b0, e0);
      var b1, e1 :| LeastClosed(files, begin, end, b1, e1) && b == Overlapping(files, b1, e1);
      assert Holds(b0, e0, b1, e1) && Holds(b1, e1, b0, e0);
    }
  }

  lemma LeadsToUnique(v: Version, level: nat, picked: seq<File>, a0: seq<File>, a1: seq<File>, b0: seq<File>, b1: seq<File>)
    requires level + 1 < |v| && LevelOk(v[level], level) && PickedOk(v[level], level, picked)
    requires LeadsTo(v, level, picked, a0, a1) && LeadsTo(v, level, picked, b0, b1)
    ensures a0 == b0 && a1 == b1
  {
    hide LevelOk, PickedOk, Completed, IsSmallest, IsLargest, Overlapping;
    CompletedUnique(v[level], level, picked, a0, b0);
    var s, l :| IsSmallest(a0, s) && IsLargest(a0, l) && a1 == Overlapping(v[level + 1], Some(s.user), Some(l.user));
    var s', l' :| IsSmallest(b0, s') && IsLargest(b0, l') && b1 == Overlapping(v[level + 1], Some(s'.user), Some(l'.user));
    SmallestUnique(a0, s, s');
    LargestUnique(a0, l, l');
  }

  lemma SpannedUnique(files: seq<File>, level: nat, inputs: seq<File>, a: seq<File>, b: seq<File>)
    requires Spanned(files, level, inputs, a) && Spanned(files, level, inputs, b)
    ensures a == b
  {
    hide RangeInputs, IsSmallest, IsLargest;
    var s, l :| IsSmallest(inputs, s) && IsLargest(inputs, l) && RangeInputs(files, level, Some(s.user), Some(l.user), a);
    var s', l' :| IsSmallest(inputs, s') && IsLargest(inputs, l') && RangeInputs(files, level, Some(s'.user), Some(l'.user), b);
    SmallestUnique(inputs, s, s');
    LargestUnique(inputs, l, l');
    RangeInputsUnique(files, level, Some(s.user), Some(l.user), a, b);
  }

  /** What the range of all inputs selects can be completed. */
  lemma SpannedIsPick(v: Version, level: nat, picked: seq<File>, plain0: seq<File>, plain1: seq<File>, wide: seq<File>)
    requires level + 1 < |v| && LevelOk(v[level], level) && PickedOk(v[level], level, picked)
    requires LeadsTo(v, level, picked, plain0, plain1) && Spanned(v[level], level, plain0 + plain1, wide)
    ensures PickedOk(v[level], level, wide)
  {
    hide LevelOk, PickedOk, LeastClosed, IsSmallest, IsLargest, Overlapping, LowerInputsOk;
    var upper, all := v[level], plain0 + plain1;
    CompletedInLevel(upper, level, picked, plain0);
    assert forall f :: f in plain0 ==> f in all;
    var s, l :| IsSmallest(all, s) && IsLargest(all, l) && RangeInputs(upper, level, Some(s.user), Some(l.user), wide);
    var b, e := Some(s.user), Some(l.user);
    if level == 0 {
      b, e :| LeastClosed(upper, Some(s.user), Some(l.user), b, e) && wide == Overlapping(upper, b, e);
    }
    ExpandedReady(upper, level, plain0, all, s, l, b, e);
  }

  lemma CompletedInLevel(files: seq<File>, level: nat, picked: seq<File>, r: seq<File>)
    requires LevelOk(files, level) && PickedOk(files, level, picked) && Completed(files, picked, r)
    ensures r != [] && forall f :: f in r ==> f in files
  {
    hide FileOk, LevelSorted, NoBoundary, IsLargest;
    PickedInLevel(files, level, picked);
    forall f | f in r ensures f in files {
      var n :| 0 <= n < |r| && r[n] == f;
      if n < |picked| {
        assert picked[n] == f;
      } else {
        var key := LargestOf(r[..n]);
        assert NextBoundary(files, key, r[n]);
      }
    }
  }

  /** A pick determines the inputs. */
  lemma SelectedIsUnique(v: Version, level: nat, sizeLimit: nat, picked: seq<File>, a0: seq<File>, a1: seq<File>,
                         b0: seq<File>, b1: seq<File>)
    requires VersionOk(v) && level + 1 < NUM_LEVELS && PickedOk(v[level], level, picked)
    requires Selected(v, level, sizeLimit, picked, a0, a1) && Selected(v, level, sizeLimit, picked, b0, b1)
    ensures a0 == b0 && a1 == b1
  {
    hide VersionOk, LevelOk, PickedOk, LeadsTo, Spanned, Wider;
    LevelsOk(v, level);
    var p0, p1 :| LeadsTo(v, level, picked, p0, p1) && GrownFrom(v, level, sizeLimit, p0, p1, a0, a1);
    var q0, q1 :| LeadsTo(v, level, picked, q0, q1) && GrownFrom(v, level, sizeLimit, q0, q1, b0, b1);
    LeadsToUnique(v, level, picked, p0, p1, q0, q1);
    if p1 != [] {
      var w, w0, w1 :| Spanned(v[level], level, p0 + p1, w) && LeadsTo(v, level, w, w0, w1)
          && a0 == (if Wider(sizeLimit, p0, p1, w0, w1) then w0 else p0)
          && a1 == (if Wider(sizeLimit, p0, p1, w0, w1) then w1 else p1);
      var x, x0, x1 :| Spanned(v[level], level, p0 + p1, x) && LeadsTo(v, level, x, x0, x1)
          && b0 == (if Wider(sizeLimit, p0, p1, x0, x1) then x0 else p0)
          && b1 == (if Wider(sizeLimit, p0, p1, x0, x1) then x1 else p1);
      SpannedUnique(v[level], level, p0 + p1, w, x);
      SpannedIsPick(v, level, picked, p0, p1, w);
      LeadsToUnique(v, level, w, w0, w1, x0, x1);
    }
  }

  /** Complete the inputs of a compaction, and grow them at the upper level when that costs no
      further file at the lower level. */
  method SetupOtherInputs(v: Version, level: nat, picked: seq<File>, sizeLimit: nat)
    returns (inputs0: seq<File>, inputs1: seq<File>, ghost plain0: seq<File>, ghost plain1: seq<File>)
    requires VersionOk(v) && level + 1 < NUM_LEVELS && PickedOk(v[level], level, picked)
    ensures InputsOk(v, level, inputs0, inputs1) && Grown(v, level, sizeLimit, plain0, plain1, inputs0, inputs1)
    ensures Selected(v, level, sizeLimit, picked, inputs0, inputs1)
    ensures forall f :: f in picked ==> f in plain0
  {
    hide PickedOk, UpperInputsOk, LowerInputsOk, IsSmallest, IsLargest, LeastClosed, LevelOk, VersionOk, Completed, TotalFileSize;
    LevelsOk(v, level);
    var upper, lower := v[level], v[level + 1];
    inputs0, inputs1 := CompleteInputs(upper, lower, level, picked);
    plain0, plain1 := inputs0, inputs1;
    assert LeadsTo(v, level, picked, plain0, plain1);
    InputsUsable(upper, level, inputs0);
    var allStart, allLimit := GetRange(inputs0 + inputs1);
    if inputs1 != [] {
      var overlapping, b, e := GetOverlappingInputs(upper, level, Some(allStart.user), Some(allLimit.user));
      ExpandedReady(upper, level, inputs0, inputs0 + inputs1, allStart, allLimit, b, e);
      var expanded0, expanded1 := CompleteInputs(upper, lower, level, overlapping);
      if |expanded0| > |inputs0| && TotalFileSize(inputs1) + TotalFileSize(expanded0) < sizeLimit
          && |expanded1| == |inputs1| {
        GrowingAddsNone(lower, inputs0, inputs1, expanded0, expanded1);
        inputs0, inputs1 := expanded0, expanded1;
      }
      assert Spanned(upper, level, plain0 + plain1, overlapping);
      assert LeadsTo(v, level, overlapping, expanded0, expanded1);
      assert GrownFrom(v, level, sizeLimit, plain0, plain1, inputs0, inputs1);
    }
  }

  lemma LevelsOk(v: Version, level: nat)
    requires VersionOk(v) && level + 1 < NUM_LEVELS
    ensures |v| == NUM_LEVELS && LevelOk(v[level], level) && LevelOk(v[level + 1], level + 1)
  {
  }

  lemma InputsUsable(upper: seq<File>, level: nat, inputs0: seq<File>)
    requires UpperInputsOk(upper, level, inputs0)
    ensures inputs0 != [] && forall f :: f in inputs0 ==> f in upper
  {
  }

  lemma ExpandedReady(upper: seq<File>, level: nat, inputs0: seq<File>, all: seq<File>, s: IKey, l: IKey,
                      b: Bound, e: Bound)
    requires LevelOk(upper, level) && (forall f :: f in inputs0 ==> f in upper && f in all)
    requires inputs0 != [] && IsSmallest(all, s) && IsLargest(all, l)
    requires if level == 0 then LeastClosed(upper, Some(s.user), Some(l.user), b, e)
        else b == Some(s.user) && e == Some(l.user)
    ensures PickedOk(upper, level, Overlapping(upper, b, e))
    ensures forall f :: f in inputs0 ==> f in Overlapping(upper, b, e)
  {
    hide FileOk, LevelSorted;
    GrownContains(upper, level, inputs0, all, s, l, b, e);
    OverlappingReady(upper, level, Overlapping(upper, b, e), b, e);
  }

  /** One file of a level; at level 0 with whatever it overlaps, transitively. */
  ghost predicate PickedFrom(files: seq<File>, level: nat, f: File, picked: seq<File>) {
    if level == 0 then Spanned(files, level, [f], picked) else picked == [f]
  }

  /** The inputs picked for an automatic compaction: one file of the level, and at level 0 whatever
      it overlaps, transitively. */
  method PickCompaction(v: Version, level: nat, index: nat, sizeLimit: nat)
    returns (inputs0: seq<File>, inputs1: seq<File>)
    requires VersionOk(v) && level + 1 < NUM_LEVELS && index < |v[level]|
    ensures InputsOk(v, level, inputs0, inputs1)
    ensures v[level][index] in inputs0
    ensures exists picked :: PickedFrom(v[level], level, v[level][index], picked) && Selected(v, level, sizeLimit, picked, inputs0, inputs1)
  {
    hide UpperInputsOk, LowerInputsOk, IsSmallest, IsLargest, LeastClosed, LevelOk, VersionOk, Selected;
    LevelsOk(v, level);
    var files := v[level];
    var picked := [files[index]];
    if level == 0 {
      var smallest, largest := GetRange(picked);
      ghost var b, e;
      picked, b, e := GetOverlappingInputs(files, 0, Some(smallest.user), Some(largest.user));
      ExpandedReady(files, 0, [files[index]], [files[index]], smallest, largest, b, e);
      assert files[index] in [files[index]];
    } else {
      assert picked == files[index..index + 1];
      assert IsSlice(files, picked);
    }
    ghost var plain0, plain1;
    inputs0, inputs1, plain0, plain1 := SetupOtherInputs(v, level, picked, sizeLimit);
    assert PickedFrom(files, level, files[index], picked);
  }

  /** The first files of a list, up to the one with which they reach the size limit. */
  ghost predicate CutShort(picked: seq<File>, files: seq<File>, limit: nat) {
    && picked != [] && picked <= files
    && (forall i :: 0 < i < |picked| ==> TotalFileSize(picked[..i]) < limit)
    && (picked != files ==> TotalFileSize(picked) >= limit)
  }

  /** What a manual compaction of a range starts from: at level 0 the overlapping files, transitively; deeper
      as many of them as reach the limit. */
  ghost predicate RangePick(files: seq<File>, level: nat, begin: Bound, end: Bound, limit: nat, picked: seq<File>) {
    if level == 0 then RangeInputs(files, level, begin, end, picked)
    else CutShort(picked, Overlapping(files, begin, end), limit)
  }

  /** The inputs of a manual compaction of a range: the overlapping files, cut short below level 0
      once they reach the size limit; None when nothing overlaps. */
  method CompactRange(v: Version, level: nat, begin: Bound, end: Bound, limit: nat, sizeLimit: nat)
    returns (r: Option<(seq<File>, seq<File>)>, ghost picked: seq<File>)
    requires VersionOk(v) && level + 1 < NUM_LEVELS
    ensures r.None? <==> forall f :: f in v[level] ==> !Overlaps(f, begin, end)
    ensures r.Some? ==> InputsOk(v, level, r.value.0, r.value.1) && RangePick(v[level], level, begin, end, limit, picked)
    ensures r.Some? ==> Selected(v, level, sizeLimit, picked, r.value.0, r.value.1)
    ensures r.Some? ==> forall f :: f in picked ==> f in r.value.0
  {
    hide Selected, UpperInputsOk, LowerInputsOk, IsSmallest, IsLargest, LevelSorted, FileOk, VersionOk, InsideClosed, Overlaps, Overlapping, TotalFileSize;
    LevelsOk(v, level);
    var inputs, b, e := GetOverlappingInputs(v[level], level, begin, end);
    WhetherOverlaps(v[level], level, begin, end, b, e);
    picked := inputs;
    if inputs == [] {
      return None, picked;
    }
    if level > 0 {
      ghost var lo, hi := OverlappingIsSlice(v[level], begin, end);
      var n := CutAt(inputs, limit);
      inputs := inputs[..n];
      picked := inputs;
      assert inputs == v[level][lo..lo + n];
    } else {
      assert Level0Closed(v[0], inputs);
    }
    assert PickedOk(v[level], level, inputs);
    ghost var plain0, plain1;
    var inputs0, inputs1;
    inputs0, inputs1, plain0, plain1 := SetupOtherInputs(v, level, inputs, sizeLimit);
    r := Some((inputs0, inputs1));
  }

  /** How many files to take before their sizes reach the limit. */
  method CutAt(files: seq<File>, limit: nat) returns (n: nat)
    requires files != []
    ensures 0 < n <= |files| && CutShort(files[..n], files, limit)
  {
    hide TotalFileSize;
    var total := 0;
    n := |files|;
    NoSize(files);
    for i := 0 to |files|
      invariant n == |files| && total == TotalFileSize(files[..i])
      invariant forall k :: 0 < k <= i ==> TotalFileSize(files[..k]) < limit
    {
      SizeStep(files, i);
      total := total + files[i].size;
      if total >= limit {
        n := i + 1;
        break;
      }
    }
    assert files[..|files|] == files;
    forall k | 0 < k < n ensures TotalFileSize(files[..n][..k]) < limit {
      assert files[..n][..k] == files[..k];
    }
  }

  lemma NoSize(files: seq<File>)
    ensures TotalFileSize(files[..0]) == 0
  {
  }

  lemma SizeStep(files: seq<File>, i: nat)
    requires i < |files|
    ensures TotalFileSize(files[..i + 1]) == TotalFileSize(files[..i]) + files[i].size
  {
    assert files[..i + 1][..i] == files[..i];
  }

  /** The search finds nothing just when no file overlaps the range. */
  lemma WhetherOverlaps(files: seq<File>, level: nat, begin: Bound, end: Bound, b: Bound, e: Bound)
    requires if level == 0 then LeastClosed(files, begin, end, b, e) else b == begin && e == end
    ensures Overlapping(files, b, e) == [] <==> forall f :: f in files ==> !Overlaps(f, begin, end)
  {
    if f :| f in files && Overlaps(f, begin, end) {
      assert Overlaps(f, b, e);
      assert f in Overlapping(files, b, e);
    } else {
      assert ClosedRange(files, begin, end);
      assert Holds(begin, end, begin, end);
      if Overlapping(files, b, e) != [] {
        var f := Overlapping(files, b, e)[0];
        assert f in Overlapping(files, b, e);
        assert Overlaps(f, begin, end);
      }
    }
  }

  lemma PickedInLevel(files: seq<File>, level: nat, picked: seq<File>)
    requires if level == 0 then Level0Closed(files, picked) else IsSlice(files, picked)
    ensures forall f :: f in picked ==> f in files
  {
  }

  /** The files that overlap the range of all inputs include the inputs of the upper level. */
  lemma GrownContains(upper: seq<File>, level: nat, inputs0: seq<File>, all: seq<File>, s: IKey, l: IKey,
                      b: Bound, e: Bound)
    requires (forall f :: f in upper ==> FileOk(f)) && (forall f :: f in inputs0 ==> f in upper && f in all)
    requires inputs0 != [] && IsSmallest(all, s) && IsLargest(all, l) && Holds(b, e, Some(s.user), Some(l.user))
    ensures forall f :: f in inputs0 ==> f in Overlapping(upper, b, e)
    ensures Overlapping(upper, b, e) != []
  {
    hide FileOk;
    InputsOverlapTheirRange(inputs0, all, s, l);
    forall f | f in inputs0
      ensures f in Overlapping(upper, b, e)
    {
      assert Overlaps(f, Some(s.user), Some(l.user));
    }
    assert inputs0[0] in inputs0;
  }
}
