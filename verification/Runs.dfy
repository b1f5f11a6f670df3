/** The database over whole runs: writes, memtable switches, flushes, file moves, compactions and
    snapshots, in any order.  A ghost history keeps every entry ever written; what is read is compared
    with a read of that history. */
module Runs {
  import opened InternalKeys
  import opened Reads
  import opened Versions
  import opened CompactionInputs
  import opened CompactionTheorem
  import opened LevelMoves
  import opened Database

  /** The state: floor is the highest snapshot that a compaction has taken for the oldest so far, and
      history is what has been written. */
  datatype Db = Db(mem: seq<Entry>, imm: Option<seq<Entry>>, version: Version, last: SequenceNumber,
                   snapshots: set<SequenceNumber>, floor: SequenceNumber, history: set<Entry>)

  datatype Action =
    | Write(entry: Entry)
    | Switch
    | Flush(level: nat, flushed: Option<File>)
    | Move(level: nat, file: File)
    | Compact(level: nat, inputs0: seq<File>, inputs1: seq<File>, merged: seq<Entry>, smallest: SequenceNumber, outputs: seq<File>)
    | Snapshot
    | Release(snapshot: SequenceNumber)

  ghost function ImmEntries(d: Db): set<Entry> {
    if d.imm.Some? then EntriesOf(d.imm.value) else {}
  }

  /** What the memtables hold, and what a read sees. */
  ghost function Recent(d: Db): set<Entry> {
    EntriesOf(d.mem) + ImmEntries(d)
  }

  ghost function Everything(d: Db): set<Entry> {
    Recent(d) + Contents(d.version)
  }

  ghost predicate Start(d: Db) {
    && d.mem == [] && d.imm.None? && VersionOk(d.version) && d.snapshots == {}
    && d.history == Contents(d.version) && d.floor <= d.last
    && forall e :: e in d.history ==> e.key.sequence <= d.last
  }

  ghost predicate Step(d: Db, a: Action, d': Db) {
    match a
    case Write(e) =>
      && e.key.sequence == d.last + 1 && Sorted(d'.mem) && EntriesOf(d'.mem) == EntriesOf(d.mem) + {e}
      && d' == d.(mem := d'.mem, last := e.key.sequence, history := d.history + {e})
    case Switch => d.imm.None? && d' == d.(imm := Some(d.mem), mem := [])
    case Flush(level, file) =>
      && d.imm.Some? && d' == d.(imm := None, version := d'.version)
      && (if file.None? then d.imm.value == [] && d'.version == d.version
          else Flushes(d.version, d'.version, level, file.value, d.imm.value))
    case Move(level, f) =>
      && InputsOk(d.version, level, [f], []) && FileMoved(d.version, d'.version, level, f)
      && d' == d.(version := d'.version)
    case Compact(level, inputs0, inputs1, merged, smallest, outputs) =>
      && smallest <= d.last && (forall s :: s in d.snapshots ==> smallest <= s)
      && Compacts(d.version, d'.version, level, inputs0, inputs1, merged, smallest, outputs)
      && d' == d.(version := d'.version, floor := if smallest > d.floor then smallest else d.floor)
    case Snapshot => d' == d.(snapshots := d.snapshots + {d.last})
    case Release(s) => d' == d.(snapshots := d.snapshots - {s})
  }

  /** A memtable becomes a file of a level. */
  ghost predicate Flushes(v: Version, w: Version, level: nat, f: File, mem: seq<Entry>) {
    && f.entries == mem && FileOk(f) && FileAdded(v, w, level, f) && Placed(v, level, f)
    && forall l, g :: 0 <= l < |v| && g in v[l] ==> g.number < f.number
  }

  // ----- Every state is well-formed -----

  /** Levels are well-formed, each layer holds only newer entries than those below it, everything comes from
      the history, and live snapshots lie between the floor and the last sequence number. */
  ghost predicate WellFormed(d: Db) {
    && VersionOk(d.version) && Sorted(d.mem) && (d.imm.Some? ==> Sorted(d.imm.value))
    && AllNewer(EntriesOf(d.mem), ImmEntries(d)) && AllNewer(Recent(d), Contents(d.version))
    && Everything(d) <= d.history && UniqueSequences(d.history)
    && (forall e :: e in d.history ==> e.key.sequence <= d.last)
    && d.floor <= d.last && forall s :: s in d.snapshots ==> d.floor <= s <= d.last
  }

  lemma StepKeepsWellFormed(d: Db, a: Action, d': Db)
    requires WellFormed(d) && Step(d, a, d')
    ensures WellFormed(d')
  {
    hide VersionOk, Compacts, Flushes, InputsOk, FileMoved, UniqueSequences, Sorted;
    match a {
      case Write(e) =>
        hide AllNewer;
        WriteKeeps(d, e, d');
      case Switch =>
        SwitchKeeps(d, d');
      case Flush(level, file) =>
        if file.Some? {
          FlushKeeps(d, level, file.value, d');
        } else {
          assert Everything(d') == Everything(d);
        }
      case Move(level, f) =>
        TrivialMoveKeepsVersionOk(d.version, d'.version, level, f);
      case Compact(level, inputs0, inputs1, merged, smallest, outputs) =>
        CompactionKeepsVersionOk(d.version, d'.version, level, inputs0, inputs1, merged, smallest, outputs);
        ContentsShrink(d.version, d'.version, level, inputs0, inputs1, merged, smallest, outputs);
      case Snapshot =>
      case Release(s) =>
    }
  }

  lemma SwitchKeeps(d: Db, d': Db)
    requires WellFormed(d) && Step(d, Switch, d')
    ensures WellFormed(d') && Everything(d') == Everything(d)
  {
    hide VersionOk, UniqueSequences;
    assert Recent(d') == Recent(d);
  }

  lemma WriteKeeps(d: Db, e: Entry, d': Db)
    requires WellFormed(d) && Step(d, Write(e), d')
    ensures WellFormed(d') && Everything(d') == Everything(d) + {e}
  {
    hide VersionOk, Sorted;
    assert Recent(d') == Recent(d) + {e};
  }

  lemma FlushKeeps(d: Db, level: nat, f: File, d': Db)
    requires WellFormed(d) && Step(d, Flush(level, Some(f)), d')
    ensures WellFormed(d') && Everything(d') == Everything(d)
    ensures FlushedOk(d.version, f)
  {
    hide VersionOk, FileOk, FileAdded, Placed, Sorted;
    assert EntriesOf(d.imm.value) == set e | e in f.entries;
    forall e | e in f.entries ensures e in Recent(d) && e in d.history {
    }
    FlushedIsOk(d.version, f);
    FlushKeepsVersionOk(d.version, d'.version, level, f);
    assert Everything(d') == Everything(d);
  }

  // ----- Reads -----

  /** Reads at the floor or above are reads of the history. */
  ghost predicate Faithful(d: Db) {
    forall user, s :: d.floor <= s ==> Read(Everything(d), user, s) == Read(d.history, user, s)
  }

  ghost predicate Sees(db: set<Entry>, user: UserKey, s: SequenceNumber) {
    exists e :: e in db && VisibleTo(e, user, s)
  }

  /** Newer entries decide a read when they hold a visible one. */
  lemma ReadThrough(newer: set<Entry>, older: set<Entry>, user: UserKey, s: SequenceNumber)
    requires AllNewer(newer, older) && UniqueSequences(newer + older)
    ensures Read(newer + older, user, s) == if Sees(newer, user, s) then Read(newer, user, s) else Read(older, user, s)
  {
    hide Read;
    var all, part := newer + older, if Sees(newer, user, s) then newer else older;
    if Sees(part, user, s) {
      var e :| e in part && VisibleTo(e, user, s);
      var n := VisibleHasNewest(part, user, s, e);
      assert IsNewest(all, user, s, n);
      ReadOfNewest(part, user, s, n);
      ReadOfNewest(all, user, s, n);
    } else {
      ReadOfNothing(part, user, s);
      ReadOfNothing(all, user, s);
    }
  }

  lemma WriteFaithful(d: Db, e: Entry, d': Db)
    requires WellFormed(d) && Step(d, Write(e), d') && Faithful(d)
    ensures Faithful(d')
  {
    hide VersionOk, Sorted, Read;
    WriteKeeps(d, e, d');
    assert Everything(d') == {e} + Everything(d) && d'.history == {e} + d.history;
    forall user, s | d.floor <= s ensures Read(Everything(d'), user, s) == Read(d'.history, user, s) {
      ReadThrough({e}, Everything(d), user, s);
      ReadThrough({e}, d.history, user, s);
    }
  }

  /** The compaction drops a deletion that hides a value, and no memtable entry hides it at the oldest
      snapshot. */
  ghost predicate ExposesRead(d: Db, level: nat, inputs0: seq<File>, inputs1: seq<File>, s: SequenceNumber) {
    && |d.version| == NUM_LEVELS && level + 1 < NUM_LEVELS
    && exists t, e, f :: ExposedBy(d.version, level, inputs0, inputs1, s, t, e, f) && !Sees(Recent(d), t.key.user, s)
  }

  /** For the whole database, memtables included: a compaction preserves every read from its oldest snapshot
      on, if and only if it exposes nothing that the memtables do not hide. */
  lemma CompactionPreservesDbReads(d: Db, level: nat, inputs0: seq<File>, inputs1: seq<File>, merged: seq<Entry>,
                                   smallest: SequenceNumber, outputs: seq<File>, d': Db)
    requires WellFormed(d) && Step(d, Compact(level, inputs0, inputs1, merged, smallest, outputs), d')
    ensures (forall user, s :: smallest <= s ==> Read(Everything(d'), user, s) == Read(Everything(d), user, s))
        <==> !ExposesRead(d, level, inputs0, inputs1, smallest)
  {
    hide VersionOk, Sorted, Read, Compacts, ExposedBy, AllNewer, UniqueSequences, Sees;
    var v, w := d.version, d'.version;
    StepKeepsWellFormed(d, Compact(level, inputs0, inputs1, merged, smallest, outputs), d');
    InputsShape(v, w, level, inputs0, inputs1, merged, smallest, outputs);
    ContentsShrink(v, w, level, inputs0, inputs1, merged, smallest, outputs);
    forall user, s ensures
        && Read(Everything(d), user, s) == (if Sees(Recent(d), user, s) then Read(Recent(d), user, s) else Read(Contents(v), user, s))
        && Read(Everything(d'), user, s) == (if Sees(Recent(d), user, s) then Read(Recent(d), user, s) else Read(Contents(w), user, s))
    {
      UniqueWithin(d);
      UniqueWithin(d');
      ReadThrough(Recent(d), Contents(v), user, s);
      ReadThrough(Recent(d), Contents(w), user, s);
    }
    if ExposesRead(d, level, inputs0, inputs1, smallest) {
      var t, e, f :| ExposedBy(v, level, inputs0, inputs1, smallest, t, e, f) && !Sees(Recent(d), t.key.user, smallest);
      ExposedIsRead(v, w, level, inputs0, inputs1, merged, smallest, outputs, t, e, f);
    } else {
      forall user, s | smallest <= s ensures Read(Everything(d'), user, s) == Read(Everything(d), user, s) {
        if !Sees(Recent(d), user, s) {
          SeesMore(Recent(d), user, smallest, s);
          ReadPreserved(v, w, level, inputs0, inputs1, merged, smallest, outputs, user, s);
        }
      }
    }
  }

  lemma UniqueWithin(d: Db)
    requires WellFormed(d)
    ensures UniqueSequences(Everything(d))
  {
    hide VersionOk, Sorted, AllNewer;
  }

  lemma SeesMore(db: set<Entry>, user: UserKey, s: SequenceNumber, s': SequenceNumber)
    requires s <= s'
    ensures Sees(db, user, s) ==> Sees(db, user, s')
  {
  }

  /** Does this action show a deleted value again? */
  ghost predicate Harmful(d: Db, a: Action) {
    a.Compact? && ExposesRead(d, a.level, a.inputs0, a.inputs1, a.smallest)
  }

  lemma StepKeepsFaithful(d: Db, a: Action, d': Db)
    requires WellFormed(d) && Step(d, a, d') && Faithful(d) && !Harmful(d, a)
    ensures Faithful(d')
  {
    hide VersionOk, Compacts, Flushes, InputsOk, FileMoved, Read, UniqueSequences, Sorted, AllNewer;
    match a {
      case Write(e) =>
        WriteFaithful(d, e, d');
      case Switch =>
        SwitchKeeps(d, d');
      case Flush(level, file) =>
        if file.Some? {
          FlushKeeps(d, level, file.value, d');
        } else {
          assert Everything(d') == Everything(d);
        }
      case Move(level, f) =>
        TrivialMoveKeepsVersionOk(d.version, d'.version, level, f);
      case Compact(level, inputs0, inputs1, merged, smallest, outputs) =>
        hide ExposesRead;
        CompactionPreservesDbReads(d, level, inputs0, inputs1, merged, smallest, outputs, d');
      case Snapshot =>
      case Release(s) =>
    }
  }

  // ----- Runs -----

  ghost predicate Run(states: seq<Db>, actions: seq<Action>) {
    && |states| == |actions| + 1 && Start(states[0])
    && forall i :: 0 <= i < |actions| ==> Step(states[i], actions[i], states[i + 1])
  }

  lemma StartsRight(d: Db)
    requires Start(d)
    ensures WellFormed(d) && Faithful(d)
  {
    hide Read;
    assert Everything(d) == d.history;
  }

  /** Whatever the order of steps, every state of a run is well-formed. */
  lemma {:induction false} RunIsWellFormed(states: seq<Db>, actions: seq<Action>, i: nat)
    requires Run(states, actions) && i < |states|
    ensures WellFormed(states[i])
    decreases i
  {
    hide WellFormed, Step, Start;
    if i == 0 {
      StartsRight(states[0]);
    } else {
      RunIsWellFormed(states, actions, i - 1);
      assert Step(states[i - 1], actions[i - 1], states[i - 1 + 1]);
      StepKeepsWellFormed(states[i - 1], actions[i - 1], states[i]);
    }
  }

  /** While no compaction has shown a deleted value again, a read at a live snapshot, or of the newest state,
      finds what the history of all writes holds. */
  lemma {:induction false} RunIsFaithful(states: seq<Db>, actions: seq<Action>, i: nat)
    requires Run(states, actions) && i < |states|
    requires forall j :: 0 <= j < i ==> !Harmful(states[j], actions[j])
    ensures WellFormed(states[i]) && Faithful(states[i])
    ensures forall user, s :: s in states[i].snapshots || s == states[i].last ==>
        Read(Everything(states[i]), user, s) == Read(states[i].history, user, s)
    decreases i
  {
    RunIsWellFormed(states, actions, i);
    if i == 0 {
      StartsRight(states[0]);
    } else {
      RunIsFaithful(states, actions, i - 1);
      assert Step(states[i - 1], actions[i - 1], states[i - 1 + 1]);
      hide Step, Start, Harmful, Read, Everything;
      assert !Harmful(states[i - 1], actions[i - 1]);
      StepKeepsFaithful(states[i - 1], actions[i - 1], states[i]);
    }
  }

  // ----- What a user sees of it -----

  /** What a step adds to the history is newer than all of it. */
  lemma StepGrows(d: Db, a: Action, d': Db)
    requires WellFormed(d) && Step(d, a, d')
    ensures d'.last == d.last + (if a.Write? then 1 else 0) && d.history <= d'.history
    ensures forall e :: e in d'.history && e !in d.history ==> a == Write(e) && e.key.sequence > d.last
    ensures a.Write? ==> a.entry in d'.history && a.entry.key.sequence == d'.last
    ensures a == Snapshot ==> d.last in d'.snapshots
    ensures forall s :: s in d.snapshots && a != Release(s) ==> s in d'.snapshots
  {
    hide VersionOk, Compacts, Flushes, InputsOk, FileMoved, UniqueSequences, Sorted, AllNewer;
  }

  /** Along a run the history only grows, by newer entries. */
  lemma {:induction false} HistoryGrows(states: seq<Db>, actions: seq<Action>, i: nat, k: nat)
    requires Run(states, actions) && i <= k < |states|
    ensures states[i].last <= states[k].last && states[i].history <= states[k].history
    ensures forall e :: e in states[k].history && e !in states[i].history ==>
        e.key.sequence > states[i].last && exists j :: i <= j < k && actions[j] == Write(e)
    decreases k
  {
    hide Step, Start, WellFormed;
    if i < k {
      HistoryGrows(states, actions, i, k - 1);
      RunIsWellFormed(states, actions, k - 1);
      assert Step(states[k - 1], actions[k - 1], states[k - 1 + 1]);
      StepGrows(states[k - 1], actions[k - 1], states[k]);
    }
  }

  /** Entries that are too new for a read do not change it. */
  lemma ReadIgnoresNewer(before: set<Entry>, after: set<Entry>, user: UserKey, s: SequenceNumber)
    requires before <= after && UniqueSequences(after)
    requires forall e :: e in after && e !in before && e.key.user == user ==> e.key.sequence > s
    ensures Read(after, user, s) == Read(before, user, s)
  {
    hide Read;
    if e :| e in before && e.key.user == user && e.key.sequence <= s {
      var n := VisibleHasNewest(before, user, s, e);
      assert IsNewest(after, user, s, n);
      ReadOfNewest(before, user, s, n);
      ReadOfNewest(after, user, s, n);
    } else {
      ReadOfNothing(before, user, s);
      ReadOfNothing(after, user, s);
    }
  }

  /** A snapshot that is not released stays. */
  lemma {:induction false} SnapshotStays(states: seq<Db>, actions: seq<Action>, i: nat, k: nat)
    requires Run(states, actions) && i < k < |states| && actions[i] == Snapshot
    requires forall j :: i < j < k ==> actions[j] != Release(states[i].last)
    ensures states[i].last in states[k].snapshots
    decreases k
  {
    hide Step, Start, WellFormed;
    RunIsWellFormed(states, actions, k - 1);
    assert Step(states[k - 1], actions[k - 1], states[k - 1 + 1]);
    StepGrows(states[k - 1], actions[k - 1], states[k]);
    if i < k - 1 {
      SnapshotStays(states, actions, i, k - 1);
    }
  }

  /** A snapshot goes on reading what was there when it was taken, whatever happens until it is released. */
  lemma SnapshotReadsStay(states: seq<Db>, actions: seq<Action>, i: nat, k: nat, user: UserKey)
    requires Run(states, actions) && i < k < |states| && actions[i] == Snapshot
    requires forall j :: i < j < k ==> actions[j] != Release(states[i].last)
    requires forall j :: 0 <= j < k ==> !Harmful(states[j], actions[j])
    ensures states[i].last in states[k].snapshots
    ensures Read(Everything(states[k]), user, states[i].last) == Read(Everything(states[i]), user, states[i].last)
  {
    hide Step, Start, Harmful, Read, Everything, Faithful;
    var s := states[i].last;
    SnapshotStays(states, actions, i, k);
    RunIsFaithful(states, actions, i);
    RunIsFaithful(states, actions, k);
    HistoryGrows(states, actions, i, k);
    ReadIgnoresNewer(states[i].history, states[k].history, user, s);
  }

  /** The last write of a user key is what is read of it, until the next. */
  lemma LastWriteIsRead(states: seq<Db>, actions: seq<Action>, i: nat, k: nat, e: Entry)
    requires Run(states, actions) && i < k < |states| && actions[i] == Write(e)
    requires forall j :: i < j < k && actions[j].Write? ==> actions[j].entry.key.user != e.key.user
    requires forall j :: 0 <= j < k ==> !Harmful(states[j], actions[j])
    ensures Read(Everything(states[k]), e.key.user, states[k].last) == if e.key.kind == Value then Some(e.value) else None
  {
    hide Step, Start, Harmful, Read, Everything, Faithful;
    RunIsWellFormed(states, actions, i);
    assert Step(states[i], actions[i], states[i + 1]);
    StepGrows(states[i], actions[i], states[i + 1]);
    RunIsWellFormed(states, actions, i + 1);
    HistoryGrows(states, actions, i + 1, k);
    RunIsFaithful(states, actions, k);
    assert IsNewest(states[k].history, e.key.user, states[k].last, e);
    ReadOfNewest(states[k].history, e.key.user, states[k].last, e);
  }

  /** So a lookup through memtables and levels answers from the history. */
  method GetAt(d: Db, user: UserKey, s: SequenceNumber) returns (r: GetResult)
    requires WellFormed(d) && Faithful(d) && d.floor <= s
    ensures Read(d.history, user, s) == if r.Found? then Some(r.value) else None
  {
    hide VersionOk, Sorted, Read, UniqueSequences;
    r := Database.Get(d.mem, d.imm, d.version, user, s);
    UniqueWithin(d);
    LookupIsRead(Everything(d), user, s, r);
  }
}
