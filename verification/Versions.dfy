/** A version: seven levels of table files, and the level-by-level point lookup over them. */
module Versions {
  import opened InternalKeys
  import opened Reads
  import Cursors

  const NUM_LEVELS := 7

  /** A table file with its metadata and its contents. */
  datatype File = File(number: nat, size: nat, smallest: IKey, largest: IKey, entries: seq<Entry>)

  type Version = seq<seq<File>>

  ghost predicate FileOk(f: File) {
    && f.entries != [] && Sorted(f.entries)
    && f.smallest == f.entries[0].key && f.largest == f.entries[|f.entries| - 1].key
  }

  /** The files of a level below the first: in order, and no two overlap. */
  ghost predicate LevelSorted(fs: seq<File>) {
    forall i, j :: 0 <= i < j < |fs| ==> Less(fs[i].largest, fs[j].smallest)
  }

  ghost function LevelContents(fs: seq<File>): set<Entry> {
    set f, e | f in fs && e in f.entries :: e
  }

  ghost function Contents(v: Version): set<Entry> {
    set l, f, e | 0 <= l < |v| && f in v[l] && e in f.entries :: e
  }

  /** Wherever both files hold a user key, the entries of the first are newer. */
  ghost predicate Newer(f: File, g: File) {
    forall d, e :: d in f.entries && e in g.entries && d.key.user == e.key.user ==>
      d.key.sequence > e.key.sequence
  }

  /** Shallower levels, and higher-numbered files of level 0, hold only newer entries. */
  ghost predicate Layered(v: Version) {
    && (forall l, m, f, g :: 0 <= l < m < |v| && f in v[l] && g in v[m] ==> Newer(f, g))
    && (|v| > 0 ==> forall f, g :: f in v[0] && g in v[0] && f.number > g.number ==> Newer(f, g))
  }

  ghost predicate NumbersUnique(fs: seq<File>) {
    forall f, g :: f in fs && g in fs && f.number == g.number ==> f == g
  }

  /** No two files of a version carry the same number. */
  ghost predicate VersionNumbersUnique(v: Version) {
    forall l, m, f, g :: 0 <= l < |v| && 0 <= m < |v| && f in v[l] && g in v[m] && f.number == g.number ==>
      l == m && f == g
  }

  /** Order by smallest key, then by file number. */
  predicate BySmallestKey(f: File, g: File) {
    Less(f.smallest, g.smallest) || (!Less(g.smallest, f.smallest) && f.number < g.number)
  }

  ghost predicate Ordered(fs: seq<File>) {
    forall i, j :: 0 <= i < j < |fs| ==> BySmallestKey(fs[i], fs[j])
  }

  ghost predicate VersionOk(v: Version) {
    && |v| == NUM_LEVELS
    && (forall l, f :: 0 <= l < |v| && f in v[l] ==> FileOk(f))
    && (forall l :: 0 < l < |v| ==> LevelSorted(v[l]))
    && Ordered(v[0])
    && VersionNumbersUnique(v)
    && Layered(v)
    && UniqueSequences(Contents(v))
  }

  /** The keys of a file lie between its smallest and its largest. */
  lemma InRange(f: File, e: Entry)
    requires FileOk(f) && e in f.entries
    ensures !Less(e.key, f.smallest) && !Less(f.largest, e.key)
    ensures f.smallest.user <= e.key.user <= f.largest.user
  {
    var i :| 0 <= i < |f.entries| && f.entries[i] == e;
  }

  lemma RangeOk(f: File)
    requires FileOk(f)
    ensures f.smallest.user <= f.largest.user && !Less(f.largest, f.smallest)
  {
    InRange(f, f.entries[0]);
  }

  datatype GetResult = Found(value: Bytes) | Deleted | NotFound

  ghost predicate VisibleTo(e: Entry, user: UserKey, s: SequenceNumber) {
    e.key.user == user && e.key.sequence <= s
  }

  /** What looking up `user` at snapshot s in a set of entries must return. */
  ghost predicate IsLookup(db: set<Entry>, user: UserKey, s: SequenceNumber, r: GetResult) {
    match r
    case NotFound => forall e :: e in db ==> !VisibleTo(e, user, s)
    case Found(value) => exists e :: IsNewest(db, user, s, e) && e.key.kind == Value && e.value == value
    case Deleted => exists e :: IsNewest(db, user, s, e) && e.key.kind == Deletion
  }

  /** A lookup answers a read. */
  lemma LookupIsRead(db: set<Entry>, user: UserKey, s: SequenceNumber, r: GetResult)
    requires UniqueSequences(db) && IsLookup(db, user, s, r)
    ensures Read(db, user, s) == if r.Found? then Some(r.value) else None
  {
    if r != NotFound {
      var e :| IsNewest(db, user, s, e) && match r { case Found(value) => e.key.kind == Value && e.value == value
                                                     case _ => e.key.kind == Deletion };
      ReadOfNewest(db, user, s, e);
    }
  }

  /** Binary search for the first file whose largest key is at or after the key. */
  method FindFile(files: seq<File>, key: IKey) returns (right: nat)
    requires LevelSorted(files) && forall f :: f in files ==> FileOk(f)
    ensures right <= |files|
    ensures forall j :: 0 <= j < right ==> Less(files[j].largest, key)
    ensures forall j :: right <= j < |files| ==> !Less(files[j].largest, key)
  {
    var left := 0;
    right := |files|;
    while left < right
      invariant left <= right <= |files|
      invariant forall j :: 0 <= j < left ==> Less(files[j].largest, key)
      invariant forall j :: right <= j < |files| ==> !Less(files[j].largest, key)
    {
      var mid := (left + right) / 2;
      LargestAscend(files, mid);
      if Less(files[mid].largest, key) {
        left := mid + 1;
      } else {
        right := mid;
      }
    }
  }

  lemma LargestAscend(files: seq<File>, mid: nat)
    requires LevelSorted(files) && mid < |files| && forall f :: f in files ==> FileOk(f)
    ensures forall j :: 0 <= j < mid ==> Less(files[j].largest, files[mid].largest)
    ensures forall j :: mid < j < |files| ==> Less(files[mid].largest, files[j].largest)
  {
    forall j | 0 <= j < |files|
      ensures !Less(files[j].largest, files[j].smallest)
    {
      var f := files[j];
      assert FileOk(f);
      assert |f.entries| > 1 ==> Less(f.entries[0].key, f.entries[|f.entries| - 1].key);
    }
  }

  /** The first entry of the table at or after the key, which the table lookup hands back; an entry of another
      user may also be missed, at the index or the filter. */
  method TableGet(f: File, key: IKey) returns (r: Option<Entry>)
    requires FileOk(f)
    ensures r.None? ==> forall e :: e in f.entries && !Less(e.key, key) ==> e.key.user != key.user
    ensures r.Some? ==>
        && r.value in f.entries && !Less(r.value.key, key)
        && forall e :: e in f.entries && !Less(e.key, key) ==> e == r.value || Less(r.value.key, e.key)
  {
    var i := Cursors.LowerBound(f.entries, key);
    var missed: bool := *;
    if i < |f.entries| && !(missed && f.entries[i].key.user != key.user) {
      r := Some(f.entries[i]);
    } else {
      r := None;
    }
  }

  /** One table of a lookup: its newest visible entry of the user, if it has one. */
  method SearchFile(f: File, user: UserKey, s: SequenceNumber) returns (r: GetResult)
    requires FileOk(f)
    ensures r == NotFound ==> forall e :: e in f.entries ==> !VisibleTo(e, user, s)
    ensures r != NotFound ==> exists e :: HitIn(f, user, s, e) && r == ResultOf(e)
  {
    var hit := TableGet(f, LookupKey(user, s));
    forall e: Entry
      ensures Less(e.key, LookupKey(user, s)) <==> e.key.user < user || (e.key.user == user && e.key.sequence > s)
    {
      LookupKeySplits(user, s, e.key);
    }
    if hit.Some? && hit.value.key.user == user {
      r := if hit.value.key.kind == Value then Found(hit.value.value) else Deleted;
      assert HitIn(f, user, s, hit.value);
    } else {
      r := NotFound;
    }
  }

  function ResultOf(e: Entry): GetResult {
    if e.key.kind == Value then Found(e.value) else Deleted
  }

  /** e is the first entry of the file that is visible for the user: the file's newest one. */
  ghost predicate HitIn(f: File, user: UserKey, s: SequenceNumber, e: Entry) {
    && e in f.entries && VisibleTo(e, user, s)
    && forall d :: d in f.entries && VisibleTo(d, user, s) ==> d.key.sequence <= e.key.sequence
  }

  /** The files sorted by number, newest first. */
  function NewestFirst(fs: seq<File>): (r: seq<File>)
    ensures |r| == |fs| && forall f :: f in r <==> f in fs
    ensures forall i, j :: 0 <= i < j < |r| ==> r[i].number >= r[j].number
  {
    if fs == [] then [] else InsertNewest(fs[0], NewestFirst(fs[1..]))
  }

  function InsertNewest(f: File, fs: seq<File>): (r: seq<File>)
    requires forall i, j :: 0 <= i < j < |fs| ==> fs[i].number >= fs[j].number
    ensures |r| == |fs| + 1 && forall g :: g in r <==> g == f || g in fs
    ensures forall i, j :: 0 <= i < j < |r| ==> r[i].number >= r[j].number
  {
    if fs == [] || f.number >= fs[0].number then [f] + fs
    else
      var rest := InsertNewest(f, fs[1..]);
      assert forall j :: 0 <= j < |rest| ==> rest[j] in rest;
      [fs[0]] + rest
  }

  /** e is the newest visible entry of the user among the files. */
  ghost predicate NewestIn(fs: seq<File>, user: UserKey, s: SequenceNumber, e: Entry) {
    && (exists f :: f in fs && e in f.entries)
    && VisibleTo(e, user, s)
    && forall f, d :: f in fs && d in f.entries && VisibleTo(d, user, s) ==> d.key.sequence <= e.key.sequence
  }

  ghost predicate NoneIn(fs: seq<File>, user: UserKey, s: SequenceNumber) {
    forall f, d :: f in fs && d in f.entries ==> !VisibleTo(d, user, s)
  }

  /** The files whose range of user keys holds the user. */
  method FilesHolding(files: seq<File>, user: UserKey) returns (tmp: seq<File>)
    ensures forall f :: f in tmp <==> f in files && f.smallest.user <= user <= f.largest.user
  {
    tmp := [];
    for i := 0 to |files|
      invariant forall f :: f in tmp <==> f in files[..i] && f.smallest.user <= user <= f.largest.user
    {
      var f := files[i];
      assert files[..i + 1] == files[..i] + [f];
      if user >= f.smallest.user && user <= f.largest.user {
        tmp := tmp + [f];
      }
    }
    assert files[..|files|] == files;
  }

  lemma NotHolding(f: File, d: Entry, user: UserKey, s: SequenceNumber)
    requires FileOk(f) && d in f.entries && !(f.smallest.user <= user <= f.largest.user)
    ensures !VisibleTo(d, user, s)
  {
    InRange(f, d);
  }

  /** Level 0: search every file whose range holds the user, newest file first. */
  method SearchLevel0(files: seq<File>, user: UserKey, s: SequenceNumber) returns (r: GetResult)
    requires forall f :: f in files ==> FileOk(f)
    requires NumbersUnique(files)
    requires forall f, g :: f in files && g in files && f.number > g.number ==> Newer(f, g)
    ensures r == NotFound ==> NoneIn(files, user, s)
    ensures r != NotFound ==> exists e :: NewestIn(files, user, s, e) && r == ResultOf(e)
  {
    hide FileOk, Newer, HitIn, NewestIn, NumbersUnique, NewestFirst, VisibleTo, ResultOf;
    var tmp := FilesHolding(files, user);
    forall f, d | f in files && f !in tmp && d in f.entries
      ensures !VisibleTo(d, user, s)
    {
      NotHolding(f, d, user, s);
    }
    tmp := NewestFirst(tmp);
    for i := 0 to |tmp|
      invariant forall j, d :: 0 <= j < i && d in tmp[j].entries ==> !VisibleTo(d, user, s)
    {
      r := SearchFile(tmp[i], user, s);
      if r != NotFound {
        ghost var e :| HitIn(tmp[i], user, s, e) && r == ResultOf(e);
        HitIsNewest0(files, tmp, i, user, s, e);
        return;
      }
    }
    r := NotFound;
  }

  lemma HitIsNewest0(files: seq<File>, tmp: seq<File>, i: nat, user: UserKey, s: SequenceNumber, e: Entry)
    requires NumbersUnique(files)
    requires forall f, g :: f in files && g in files && f.number > g.number ==> Newer(f, g)
    requires forall f :: f in tmp ==> f in files
    requires forall f, d :: f in files && f !in tmp && d in f.entries ==> !VisibleTo(d, user, s)
    requires forall i, j :: 0 <= i < j < |tmp| ==> tmp[i].number >= tmp[j].number
    requires i < |tmp| && forall j, d :: 0 <= j < i && d in tmp[j].entries ==> !VisibleTo(d, user, s)
    requires HitIn(tmp[i], user, s, e)
    ensures NewestIn(files, user, s, e)
  {
    assert tmp[i] in files;
    forall f, d | f in files && d in f.entries && VisibleTo(d, user, s)
      ensures d.key.sequence <= e.key.sequence
    {
      var j :| 0 <= j < |tmp| && tmp[j] == f;
      if tmp[i].number != f.number {
        assert Newer(tmp[i], f);
      }
    }
  }

  /** Deeper levels: at most one file can hold the newest visible entry of the user. */
  method SearchLevel(files: seq<File>, user: UserKey, s: SequenceNumber) returns (r: GetResult)
    requires LevelSorted(files) && forall f :: f in files ==> FileOk(f)
    ensures r == NotFound ==> NoneIn(files, user, s)
    ensures r != NotFound ==> exists e :: NewestIn(files, user, s, e) && r == ResultOf(e)
  {
    hide FileOk;
    forall j | 0 <= j < |files|
      ensures files[j].smallest.user <= files[j].largest.user
    {
      RangeOk(files[j]);
    }
    var ikey := LookupKey(user, s);
    var index := FindFile(files, ikey);
    forall j, d | 0 <= j < index && d in files[j].entries
      ensures !VisibleTo(d, user, s)
    {
      InRange(files[j], d);
      LookupKeySplits(user, s, d.key);
    }
    if index >= |files| {
      return NotFound;
    }
    var f := files[index];
    assert FileOk(f);
    if user < f.smallest.user {
      // All of f, and of the files after it, is past any data of the user.
      forall j, d | index <= j < |files| && d in files[j].entries
        ensures !VisibleTo(d, user, s)
      {
        InRange(files[j], d);
        assert Less(f.largest, files[j].smallest) || j == index;
      }
      return NotFound;
    }
    r := SearchFile(f, user, s);
    FirstHasIt(files, index, user, s);
    if r != NotFound {
      ghost var e :| HitIn(f, user, s, e) && r == ResultOf(e);
      assert f in files;
      assert NewestIn(files, user, s, e);
    }
  }

  /** The first file whose largest key is at or after the lookup key has everything visible of the
      user that the files after it have, or newer. */
  lemma FirstHasIt(files: seq<File>, index: nat, user: UserKey, s: SequenceNumber)
    requires LevelSorted(files) && forall f :: f in files ==> FileOk(f)
    requires index < |files| && files[index].smallest.user <= user
    requires !Less(files[index].largest, LookupKey(user, s))
    ensures forall j, d :: index < j < |files| && d in files[j].entries && VisibleTo(d, user, s) ==>
        exists e :: e in files[index].entries && VisibleTo(e, user, s) && e.key.sequence >= d.key.sequence
  {
    var f := files[index];
    assert f in files && FileOk(f);
    var last := f.entries[|f.entries| - 1];
    LookupKeySplits(user, s, last.key);
    forall j, d | index < j < |files| && d in files[j].entries && VisibleTo(d, user, s)
      ensures last in f.entries && VisibleTo(last, user, s) && last.key.sequence >= d.key.sequence
    {
      InRange(files[j], d);
      assert files[j] in files;
      assert Less(f.largest, files[j].smallest);
    }
  }

  /** Look a user key up level by level, stopping at the first level that has it. */
  method Get(v: Version, user: UserKey, s: SequenceNumber) returns (r: GetResult)
    requires VersionOk(v)
    ensures IsLookup(Contents(v), user, s, r)
  {
    hide LevelSorted, FileOk, Newer, VersionOk, Layered, NumbersUnique, NewestIn;
    LookupFacts(v);
    for level := 0 to NUM_LEVELS
      invariant forall l :: 0 <= l < level ==> NoneIn(v[l], user, s)
    {
      if v[level] == [] {
        continue;
      }
      if level == 0 {
        r := SearchLevel0(v[0], user, s);
      } else {
        r := SearchLevel(v[level], user, s);
      }
      if r != NotFound {
        ghost var e :| NewestIn(v[level], user, s, e) && r == ResultOf(e);
        LevelHitIsNewest(v, level, user, s, e);
        return;
      }
    }
    r := NotFound;
  }

  lemma LookupFacts(v: Version)
    requires VersionOk(v)
    ensures |v| == NUM_LEVELS && Layered(v) && NumbersUnique(v[0])
    ensures forall l, f :: 0 <= l < NUM_LEVELS && f in v[l] ==> FileOk(f)
    ensures forall l :: 0 < l < NUM_LEVELS ==> LevelSorted(v[l])
    ensures forall f, g :: f in v[0] && g in v[0] && f.number > g.number ==> Newer(f, g)
  {
    hide LevelSorted, FileOk, Newer;
  }

  lemma LevelHitIsNewest(v: Version, level: nat, user: UserKey, s: SequenceNumber, e: Entry)
    requires Layered(v) && level < |v| && NewestIn(v[level], user, s, e)
    requires forall l :: 0 <= l < level ==> NoneIn(v[l], user, s)
    ensures IsNewest(Contents(v), user, s, e)
  {
    var f :| f in v[level] && e in f.entries;
    forall d | d in Contents(v) && VisibleTo(d, user, s)
      ensures d.key.sequence <= e.key.sequence
    {
      var m, g :| 0 <= m < |v| && g in v[m] && d in g.entries;
      if m > level {
        assert Newer(f, g);
      }
    }
  }
}
