/** The user iterator: over the internal cursor, which carries every version of every key, it
    presents one entry per user key, the newest one visible at its snapshot, without deletions. */
module UserIterator {
  import opened InternalKeys
  import opened Reads
  import opened Cursors

  ghost predicate Visible(all: seq<Entry>, s: SequenceNumber, i: int) {
    0 <= i < |all| && all[i].key.sequence <= s
  }

  /** Some entry of `user` visible at s lies below position p. */
  ghost predicate Seen(all: seq<Entry>, s: SequenceNumber, p: int, user: UserKey) {
    exists j :: 0 <= j < p && Visible(all, s, j) && all[j].key.user == user
  }

  /** Entry i is what a scan at snapshot s yields for its user key. */
  ghost predicate Yields(all: seq<Entry>, s: SequenceNumber, i: int) {
    Visible(all, s, i) && all[i].key.kind == Value && !Seen(all, s, i, all[i].key.user)
  }

  /** The positions at or after `from` that a scan yields, in order. */
  ghost function YieldsFrom(all: seq<Entry>, s: SequenceNumber, from: nat): (ys: seq<nat>)
    requires from <= |all|
    ensures forall v :: 0 <= v < |ys| ==> from <= ys[v] && Yields(all, s, ys[v])
    ensures forall v, w :: 0 <= v < w < |ys| ==> ys[v] < ys[w]
    ensures forall i :: from <= i && Yields(all, s, i) ==> i in ys
    decreases |all| - from
  {
    if from == |all| then []
    else if Yields(all, s, from) then [from] + YieldsFrom(all, s, from + 1)
    else YieldsFrom(all, s, from + 1)
  }

  /** The positions a scan yields, in order: the view of the snapshot. */
  ghost function View(all: seq<Entry>, s: SequenceNumber): (ys: seq<nat>)
    ensures forall v :: 0 <= v < |ys| ==> ys[v] < |all| && Yields(all, s, ys[v])
    ensures forall v, w :: 0 <= v < w < |ys| ==> ys[v] < ys[w]
    ensures forall i: nat :: Yields(all, s, i) ==> i in ys
  {
    YieldsFrom(all, s, 0)
  }

  ghost function Contents(all: seq<Entry>): set<Entry> {
    set e | e in all
  }

  lemma YieldIsRead(all: seq<Entry>, s: SequenceNumber, i: nat)
    requires Sorted(all) && UniqueSequences(Contents(all)) && Yields(all, s, i)
    ensures Read(Contents(all), all[i].key.user, s) == Some(all[i].value)
  {
    forall f | f in all && f.key.user == all[i].key.user && f.key.sequence <= s
      ensures f.key.sequence <= all[i].key.sequence
    {
      var j :| 0 <= j < |all| && all[j] == f;
      assert j >= i;
      assert j > i ==> Less(all[i].key, all[j].key);
    }
    ReadOfNewest(Contents(all), all[i].key.user, s, all[i]);
  }

  lemma ReadIsYield(all: seq<Entry>, s: SequenceNumber, user: UserKey, value: Bytes) returns (i: nat)
    requires Sorted(all) && UniqueSequences(Contents(all))
    requires Read(Contents(all), user, s) == Some(value)
    ensures Yields(all, s, i) && all[i].key.user == user && all[i].value == value
  {
    var e :| IsNewest(Contents(all), user, s, e) && e.key.kind == Value && e.value == value;
    i :| 0 <= i < |all| && all[i] == e;
    forall j | 0 <= j < i && Visible(all, s, j)
      ensures all[j].key.user != user
    {
      assert Less(all[j].key, all[i].key) && all[j] in Contents(all);
    }
  }

  /** A scan yields exactly the user keys a read finds, with the values it returns. */
  lemma ViewIsReads(all: seq<Entry>, s: SequenceNumber, user: UserKey, value: Bytes)
    requires Sorted(all) && UniqueSequences(Contents(all))
    ensures Read(Contents(all), user, s) == Some(value) <==>
        exists v :: 0 <= v < |View(all, s)| && all[View(all, s)[v]].key.user == user
            && all[View(all, s)[v]].value == value
  {
    var view := View(all, s);
    forall v | 0 <= v < |view|
      ensures Read(Contents(all), all[view[v]].key.user, s) == Some(all[view[v]].value)
    {
      YieldIsRead(all, s, view[v]);
    }
    if Read(Contents(all), user, s) == Some(value) {
      var i := ReadIsYield(all, s, user, value);
      assert i in view;
    }
  }

  /** A scan yields each user key once, in ascending order. */
  lemma ViewAscends(all: seq<Entry>, s: SequenceNumber, v: nat, w: nat)
    requires Sorted(all) && v < w < |View(all, s)|
    ensures all[View(all, s)[v]].key.user < all[View(all, s)[w]].key.user
  {
    var i, j := View(all, s)[v], View(all, s)[w];
    assert Less(all[i].key, all[j].key);
    assert Visible(all, s, i);
  }

  /** v is the first position of the view whose user key is at or after `target`. */
  ghost predicate IsViewLowerBound(all: seq<Entry>, s: SequenceNumber, target: UserKey, v: nat) {
    var view := View(all, s);
    && v <= |view|
    && (forall w :: 0 <= w < v ==> all[view[w]].key.user < target)
    && (forall w :: v <= w < |view| ==> all[view[w]].key.user >= target)
  }

  /** The empty user key, which clearing the saved key leaves behind. */
  const EMPTY_KEY: UserKey := 0.0

  class DBIter {
    const iter: MergingIterator
    const sequence: SequenceNumber
    var savedKey: UserKey   // the current key when moving backwards
    var savedValue: Bytes   // the current value when moving backwards
    var forward: bool
    var valid: bool
    ghost var pos: nat      // position in the view, |view| when not positioned

    ghost function All(): seq<Entry> {
      iter.all
    }

    ghost function TheView(): seq<nat> {
      View(All(), sequence)
    }

    /** Position of the inner cursor counted from the front, where a backward scan that ran off
        the front stands before position 0. */
    ghost function Before(): nat
      requires iter.Inv()
      reads iter, iter.children
    {
      if iter.Valid() then iter.pos + 1 else 0
    }

    /** Forward, the inner cursor stands at the entry that supplies the current key and value.
        Backwards, it stands at the nearest visible entry of an earlier user, or has run off the front,
        and the current key and value are saved. */
    ghost predicate Inv()
      reads this, iter, iter.children
    {
      && iter.Inv()
      && pos <= |TheView()|
      && (valid <==> pos < |TheView()|)
      && (valid && forward ==> iter.Valid() && iter.pos == TheView()[pos])
      && (valid && !forward ==>
            && savedKey == All()[TheView()[pos]].key.user
            && savedValue == All()[TheView()[pos]].value
            && Before() <= TheView()[pos]
            && StopsEarlier()
            && forall i :: Before() <= i < TheView()[pos] ==> !Visible(All(), sequence, i))
    }

    /** What ends a backward scan: a visible entry of an earlier user, or the front. */
    ghost predicate StopsEarlier()
      requires iter.Inv()
      reads this, iter, iter.children
    {
      0 < Before() <= |All()| ==> Visible(All(), sequence, Before() - 1) && All()[Before() - 1].key.user < savedKey
    }

    predicate Valid()
      reads this
    {
      valid
    }

    /** The inner cursor stands just before the entries of the saved key. */
    ghost predicate JustBefore()
      requires iter.Inv()
      reads this, iter, iter.children
    {
      && Before() < |All()| && All()[Before()].key.user == savedKey
      && (0 < Before() ==> All()[Before() - 1].key.user < savedKey)
    }

    /** Moving backwards, it stands there if and only if the last entry of all earlier users, if there is
        one, is visible.  An entry that is too new for the snapshot is passed over with the current key. */
    lemma WhereReversed()
      requires Inv() && valid && !forward
      ensures JustBefore() <==>
          forall i :: 0 <= i < |All()| - 1 && All()[i].key.user < savedKey == All()[i + 1].key.user ==> Visible(All(), sequence, i)
    {
      hide MergingIterator.Inv, Yields, View;
      iter.IsCursor();
      var y, b := TheView()[pos], Before();
      forall i, j | 0 <= i < j < |All()| ensures All()[i].key.user <= All()[j].key.user {
        assert Less(All()[i].key, All()[j].key);
      }
      if !JustBefore() {
        var i := b;
        while All()[i + 1].key.user < savedKey
          invariant b <= i < y && All()[i].key.user < savedKey
          decreases y - i
        {
          i := i + 1;
        }
        assert !Visible(All(), sequence, i);
      }
    }

    function Key(): (k: UserKey)
      requires Inv() && Valid()
      reads this, iter, iter.children
      ensures k == All()[TheView()[pos]].key.user
    {
      if forward then iter.Current().key.user else savedKey
    }

    function CurrentValue(): (v: Bytes)
      requires Inv() && Valid()
      reads this, iter, iter.children
      ensures v == All()[TheView()[pos]].value
    {
      if forward then iter.Current().value else savedValue
    }

    constructor (inner: MergingIterator, s: SequenceNumber)
      requires inner.Inv()
      ensures Inv() && !Valid() && iter == inner && sequence == s
    {
      iter := inner;
      sequence := s;
      savedKey := EMPTY_KEY;
      savedValue := [];
      forward := true;
      valid := false;
      pos := |View(inner.all, s)|;
    }

    /** What a forward scan from the inner cursor looks for: the next entry to yield whose user key
        is not at or before the key to skip. */
    ghost predicate Wanted(skipping: bool, skip: UserKey, i: nat) {
      Yields(All(), sequence, i) && (skipping ==> All()[i].key.user > skip)
    }

    /** At position p, the key to skip is at or before the users of all visible entries from p on,
        and a user is being skipped exactly when one of its visible entries lies below p or when it
        was to be skipped from the start. */
    ghost predicate SkipsRightly(skipping0: bool, skip0: UserKey, skipping: bool, skip: UserKey, p: nat) {
      forall i :: p <= i < |All()| && Visible(All(), sequence, i) ==>
        && (skipping ==> All()[i].key.user >= skip)
        && (skipping0 ==> All()[i].key.user >= skip0)
        && ((skipping && All()[i].key.user == skip) <==>
              (skipping0 && All()[i].key.user == skip0) || Seen(All(), sequence, p, All()[i].key.user))
    }

    method FindNextUserEntry(skipping0: bool, skip0: UserKey)
      requires iter.Inv() && iter.Valid() && forward
      requires SkipsRightly(skipping0, skip0, skipping0, skip0, iter.pos)
      modifies this`valid, this`savedKey, iter, iter.children
      ensures iter.Inv()
      ensures valid ==>
          && iter.Valid() && old(iter.pos) <= iter.pos && Wanted(skipping0, skip0, iter.pos)
          && forall i :: old(iter.pos) <= i < iter.pos ==> !Wanted(skipping0, skip0, i)
      ensures !valid ==> forall i :: old(iter.pos) <= i < |All()| ==> !Wanted(skipping0, skip0, i)
      ensures savedKey == EMPTY_KEY
    {
      hide MergingIterator.Inv, SkipsRightly, Yields;
      var skipping, skip := skipping0, skip0;
      ghost var start := iter.pos;
      iter.IsCursor();
      while true
        invariant iter.Inv() && iter.Valid() && start <= iter.pos < |All()| && Sorted(All())
        invariant SkipsRightly(skipping0, skip0, skipping, skip, iter.pos)
        invariant forall i :: start <= i < iter.pos ==> !Wanted(skipping0, skip0, i)
        decreases |All()| - iter.pos
      {
        ghost var p := iter.pos;
        var entry := iter.Current();
        SkipStep(skipping0, skip0, skipping, skip, p);
        if entry.key.sequence <= sequence {
          match entry.key.kind {
            case Deletion =>
              // Skip all upcoming entries of this key: this deletion hides them.
              skip := entry.key.user;
              skipping := true;
            case Value =>
              if skipping && entry.key.user <= skip {
                // A newer entry of its user, or a deletion, came first
              } else {
                valid := true;
                savedKey := EMPTY_KEY;
                return;
              }
          }
        }
        iter.Next();
        iter.IsCursor();
        if !iter.Valid() {
          break;
        }
      }
      savedKey := EMPTY_KEY;
      valid := false;
    }

    /** One step of the forward scan at p: either p is wanted and is not skipped, or it is not
        wanted and what is to be skipped afterwards is right at p + 1. */
    lemma SkipStep(skipping0: bool, skip0: UserKey, skipping: bool, skip: UserKey, p: nat)
      requires Sorted(All()) && p < |All()| && SkipsRightly(skipping0, skip0, skipping, skip, p)
      ensures var key := All()[p].key;
          if key.sequence <= sequence && key.kind == Deletion then
            !Wanted(skipping0, skip0, p) && SkipsRightly(skipping0, skip0, true, key.user, p + 1)
          else if key.sequence <= sequence && !(skipping && key.user <= skip) then
            Wanted(skipping0, skip0, p)
          else
            !Wanted(skipping0, skip0, p) && SkipsRightly(skipping0, skip0, skipping, skip, p + 1)
    {
      var key := All()[p].key;
      forall i | p < i < |All()|
        ensures key.user <= All()[i].key.user
        ensures Seen(All(), sequence, p + 1, All()[i].key.user) <==>
            Seen(All(), sequence, p, All()[i].key.user)
            || (Visible(All(), sequence, p) && key.user == All()[i].key.user)
      {
        assert Less(key, All()[i].key);
      }
    }

    /** No entry at or after position e shares its user with a visible entry below e. */
    ghost predicate Cut(e: nat) {
      forall i :: e <= i < |All()| && Visible(All(), sequence, i) ==>
        !Seen(All(), sequence, e, All()[i].key.user)
    }

    /** Backward scan state after looking at the positions from e up to e0: m is the lowest visible
        entry met, e0 when none was, and no entry met above m is yielded. */
    ghost predicate ScannedDown(e0: nat, e: nat, m: nat, kind: ValueType, key: UserKey, value: Bytes) {
      && e <= m <= e0 <= |All()|
      && (forall i :: e <= i < m ==> !Visible(All(), sequence, i))
      && (forall i :: m < i < e0 ==> !Yields(All(), sequence, i))
      && (m == e0 ==> kind == Deletion)
      && (m < e0 ==> Visible(All(), sequence, m) && kind == All()[m].key.kind)
      && (kind == Value ==> key == All()[m].key.user && value == All()[m].value)
    }

    /** One backward step over position p: a visible entry of another user ends the scan. */
    lemma ScanDownStep(e0: nat, p: nat, m: nat, kind: ValueType, key: UserKey, value: Bytes)
      requires Sorted(All()) && p < e0 && Cut(e0) && ScannedDown(e0, p + 1, m, kind, key, value)
      ensures var entry := All()[p];
          if entry.key.sequence > sequence then ScannedDown(e0, p, m, kind, key, value)
          else if kind == Value && entry.key.user < key then Yields(All(), sequence, m)
          else ScannedDown(e0, p, p, entry.key.kind, entry.key.user, entry.value)
    {
      var entry := All()[p];
      if m < e0 && entry.key.sequence <= sequence {
        assert Less(entry.key, All()[m].key);
        if kind == Value && entry.key.user < key {
          forall j | 0 <= j < m && Visible(All(), sequence, j)
            ensures All()[j].key.user != key
          {
            assert j <= p;
            assert j < p ==> Less(All()[j].key, All()[p].key);
          }
        } else if kind == Value {
          assert Visible(All(), sequence, p) && All()[p].key.user == key;
          assert Seen(All(), sequence, m, key);
        }
      }
    }

    /** The scan has come to the front: m is yielded if it is a value, and nothing is otherwise. */
    lemma ScanDownEnd(e0: nat, m: nat, kind: ValueType, key: UserKey, value: Bytes)
      requires ScannedDown(e0, 0, m, kind, key, value)
      ensures kind == Value ==> Yields(All(), sequence, m)
      ensures kind == Deletion ==> forall i :: 0 <= i < e0 ==> !Yields(All(), sequence, i)
    {
    }

    /** y is the last position below e0 that is yielded, saved, and the inner cursor stands before
        it with nothing visible in between. */
    ghost predicate SavedAt(e0: nat, y: nat)
      requires iter.Inv()
      reads this, iter, iter.children
    {
      && y < e0 <= |All()| && Yields(All(), sequence, y)
      && (forall i :: y < i < e0 ==> !Yields(All(), sequence, i))
      && savedKey == All()[y].key.user && savedValue == All()[y].value
      && Before() <= y && StopsEarlier() && forall i :: Before() <= i < y ==> !Visible(All(), sequence, i)
    }

    method FindPrevUserEntry(ghost e0: nat) returns (ghost y: nat)
      requires iter.Inv() && !forward
      requires Before() == e0 && Cut(e0)
      modifies this, iter, iter.children
      ensures iter.Inv() && pos == old(pos)
      ensures valid ==> !forward && SavedAt(e0, y)
      ensures !valid ==> forall i :: 0 <= i < e0 ==> !Yields(All(), sequence, i)
    {
      hide MergingIterator.Inv, Yields, Cut;
      iter.IsCursor();
      var kind := Deletion;
      y := e0;
      ghost var e := e0;
      if iter.Valid() {
        while true
          invariant iter.Inv() && iter.Valid() && Sorted(All()) && iter.pos < |All()|
          invariant iter.pos + 1 == e && pos == old(pos) && !forward
          invariant ScannedDown(e0, e, y, kind, savedKey, savedValue)
          decreases e
        {
          var entry := iter.Current();
          ScanDownStep(e0, iter.pos, y, kind, savedKey, savedValue);
          if entry.key.sequence <= sequence {
            if kind != Deletion && entry.key.user < savedKey {
              // A value was met and this entry belongs to an earlier key: stop.
              break;
            }
            y := iter.pos;
            kind := entry.key.kind;
            if kind == Deletion {
              savedKey := EMPTY_KEY;
              savedValue := [];
            } else {
              savedKey := entry.key.user;
              savedValue := entry.value;
            }
          }
          e := iter.pos;
          iter.Prev();
          iter.IsCursor();
          if !iter.Valid() {
            ScanDownEnd(e0, y, kind, savedKey, savedValue);
            break;
          }
        }
      }
      if kind == Deletion {
        valid := false;
        savedKey := EMPTY_KEY;
        savedValue := [];
        forward := true;
      } else {
        valid := true;
      }
    }

    /** A yielded position is some position of the view. */
    lemma InView(i: nat) returns (v: nat)
      requires Yields(All(), sequence, i)
      ensures v < |TheView()| && TheView()[v] == i
    {
      assert i in TheView();
      v :| 0 <= v < |TheView()| && TheView()[v] == i;
    }

    method Next()
      requires Inv() && Valid()
      modifies this, iter, iter.children
      ensures Inv() && pos == old(pos) + 1
    {
      hide MergingIterator.Inv, SkipsRightly, Yields, Seen, Cut, View;
      ghost var y := TheView()[pos];
      ghost var user := All()[y].key.user;
      iter.IsCursor();
      SkipCurrent(y, if forward then y else Before());
      if !forward {
        forward := true;
        // The inner cursor stands just before the entries of the current key: step into them.
        if !iter.Valid() {
          iter.SeekToFirst();
        } else {
          iter.Next();
        }
        iter.IsCursor();
        if !iter.Valid() {
          assert false;  // the entry of the current key still lies ahead
        }
      } else {
        savedKey := iter.Current().key.user;
      }
      assert savedKey == user;
      ghost var start := iter.pos;
      FindNextUserEntry(true, savedKey);
      iter.IsCursor();
      AfterCurrent(user, start);
      pos := pos + 1;
    }

    /** The current key may be skipped from any position at or before its entry from which no
        visible entry of an earlier key lies ahead. */
    lemma SkipCurrent(y: nat, p: nat)
      requires Sorted(All()) && Yields(All(), sequence, y) && p <= y
      requires forall i :: p <= i < y ==> !Visible(All(), sequence, i)
      ensures SkipsRightly(true, All()[y].key.user, true, All()[y].key.user, p)
    {
      forall i | p <= i < |All()| && Visible(All(), sequence, i)
        ensures All()[i].key.user >= All()[y].key.user
      {
        assert i > y ==> Less(All()[y].key, All()[i].key);
      }
      forall j | 0 <= j < p
        ensures All()[j].key.user <= All()[y].key.user
      {
        assert j < y ==> Less(All()[j].key, All()[y].key);
      }
    }

    /** The next position of the view is the first wanted one after the current key. */
    lemma AfterCurrent(user: UserKey, start: nat)
      requires iter.Inv() && pos < |TheView()| && user == All()[TheView()[pos]].key.user
      requires start <= TheView()[pos]
      requires valid ==>
          && iter.Valid() && start <= iter.pos && Wanted(true, user, iter.pos)
          && forall i :: start <= i < iter.pos ==> !Wanted(true, user, i)
      requires !valid ==> forall i :: start <= i < |All()| ==> !Wanted(true, user, i)
      ensures valid <==> pos + 1 < |TheView()|
      ensures valid ==> iter.pos == TheView()[pos + 1]
    {
      iter.IsCursor();
      if pos + 1 < |TheView()| {
        ViewAscends(All(), sequence, pos, pos + 1);
        assert Wanted(true, user, TheView()[pos + 1]);
      }
      if valid {
        var v := InView(iter.pos);
      }
    }

    /** No visible entry shares its user across a position from which nothing is visible before y. */
    lemma CutBefore(y: nat, e: nat)
      requires Sorted(All()) && Yields(All(), sequence, y) && e <= y
      requires forall i :: e <= i < y ==> !Visible(All(), sequence, i)
      ensures Cut(e)
    {
      forall i | e <= i < |All()| && Visible(All(), sequence, i)
        ensures !Seen(All(), sequence, e, All()[i].key.user)
      {
        assert i > y ==> Less(All()[y].key, All()[i].key);
        forall j | 0 <= j < e && Visible(All(), sequence, j)
          ensures All()[j].key.user < All()[y].key.user
        {
          assert j < y ==> Less(All()[j].key, All()[y].key);
        }
      }
    }

    /** Entries of the current user before its yielded entry are not visible. */
    lemma HiddenBefore(y: nat, e: nat)
      requires Sorted(All()) && Yields(All(), sequence, y) && e <= y
      requires e < y ==> All()[e].key.user == All()[y].key.user
      ensures forall i :: e <= i < y ==> !Visible(All(), sequence, i)
    {
      forall i | e <= i < y
        ensures !Visible(All(), sequence, i)
      {
        assert i > e ==> Less(All()[e].key, All()[i].key);
        assert Less(All()[i].key, All()[y].key);
      }
    }

    /** The position of the view before the current one holds the last yielded position below e. */
    lemma BeforeCurrent(e: nat, z: nat, found: bool)
      requires pos < |TheView()| && e <= TheView()[pos]
      requires forall i :: e <= i < TheView()[pos] ==> !Visible(All(), sequence, i)
      requires found ==>
          && z < e && Yields(All(), sequence, z)
          && forall i :: z < i < e ==> !Yields(All(), sequence, i)
      requires !found ==> forall i :: 0 <= i < e ==> !Yields(All(), sequence, i)
      ensures found <==> pos > 0
      ensures found ==> TheView()[pos - 1] == z
    {
      if pos > 0 {
        assert TheView()[pos - 1] < TheView()[pos] && Yields(All(), sequence, TheView()[pos - 1]);
      }
      if found {
        var v := InView(z);
      }
    }

    /** Turn around: step back from the current entry to one of an earlier user. */
    method TurnReverse(ghost y: nat) returns (found: bool)
      requires iter.Inv() && iter.Valid() && forward && iter.pos == y && Yields(All(), sequence, y)
      modifies this, iter, iter.children
      ensures iter.Inv() && pos == old(pos) && Before() <= y
      ensures forall i :: Before() <= i < y ==> !Visible(All(), sequence, i)
      ensures found ==> iter.Valid() && !forward
      ensures !found ==> !iter.Valid() && !valid
    {
      hide MergingIterator.Inv, Seen, Cut;
      iter.IsCursor();
      savedKey := iter.Current().key.user;
      while true
        invariant iter.Inv() && iter.Valid() && Sorted(All()) && iter.pos <= y < |All()|
        invariant pos == old(pos)
        invariant savedKey == All()[y].key.user == All()[iter.pos].key.user
        decreases iter.pos
      {
        ghost var p := iter.pos;
        iter.Prev();
        iter.IsCursor();
        HiddenBefore(y, p);
        if !iter.Valid() {
          valid := false;
          savedKey := EMPTY_KEY;
          savedValue := [];
          return false;
        }
        assert Less(All()[iter.pos].key, All()[p].key);
        if iter.Current().key.user < savedKey {
          break;
        }
      }
      forward := false;
      return true;
    }

    method Prev()
      requires Inv() && Valid()
      modifies this, iter, iter.children
      ensures Inv() && pos == (if old(pos) == 0 then |TheView()| else old(pos) - 1) && (valid ==> !forward)
    {
      hide MergingIterator.Inv, SkipsRightly, Yields, Seen, Cut, View;
      ghost var y := TheView()[pos];
      iter.IsCursor();
      if forward {
        var found := TurnReverse(y);
        if !found {
          BeforeCurrent(0, 0, false);
          pos := |TheView()|;
          return;
        }
      }
      ghost var e := Before();
      CutBefore(y, e);
      ghost var z := FindPrevUserEntry(e);
      iter.IsCursor();
      BeforeCurrent(e, z, valid);
      pos := if valid then pos - 1 else |TheView()|;
    }

    /** A scan from position p, below which every yielded key is before the target, finds the first
        position of the view at or after the target. */
    lemma FirstFrom(p: nat, v: nat, skip: UserKey)
      requires iter.Inv() && v <= |TheView()|
      requires forall w :: 0 <= w < v ==> TheView()[w] < p
      requires forall w :: v <= w < |TheView()| ==> TheView()[w] >= p
      requires valid ==>
          && iter.Valid() && p <= iter.pos && Wanted(false, skip, iter.pos)
          && forall i :: p <= i < iter.pos ==> !Wanted(false, skip, i)
      requires !valid ==> forall i :: p <= i < |All()| ==> !Wanted(false, skip, i)
      ensures valid <==> v < |TheView()|
      ensures valid ==> TheView()[v] == iter.pos
    {
      iter.IsCursor();
      if v < |TheView()| {
        assert Wanted(false, skip, TheView()[v]);
      }
      if valid {
        var w := InView(iter.pos);
      }
    }

    /** The number of positions of the view that lie below p. */
    ghost function CountBelow(p: nat): (v: nat)
      ensures v <= |TheView()|
      ensures forall w :: 0 <= w < v ==> TheView()[w] < p
      ensures forall w :: v <= w < |TheView()| ==> TheView()[w] >= p
    {
      CountIn(TheView(), p)
    }

    lemma EndsAreCuts(skip: UserKey)
      ensures SkipsRightly(false, skip, false, skip, 0) && Cut(|All()|)
    {
    }

    /** The last position of the view holds the last yielded position of all. */
    lemma LastOfView(z: nat, found: bool)
      requires found ==>
          && Yields(All(), sequence, z)
          && forall i :: z < i < |All()| ==> !Yields(All(), sequence, i)
      requires !found ==> forall i :: 0 <= i < |All()| ==> !Yields(All(), sequence, i)
      ensures found <==> TheView() != []
      ensures found ==> TheView()[|TheView()| - 1] == z
    {
      if TheView() != [] {
        var last := |TheView()| - 1;
        assert Yields(All(), sequence, TheView()[last]);
        if found {
          var v := InView(z);
        }
      }
    }

    method SeekToFirst()
      requires Inv()
      modifies this, iter, iter.children
      ensures Inv() && pos == 0
    {
      hide MergingIterator.Inv, SkipsRightly, Yields, Seen, Cut, View;
      forward := true;
      savedValue := [];
      iter.SeekToFirst();
      iter.IsCursor();
      ghost var skip := savedKey;
      EndsAreCuts(skip);
      if iter.Valid() {
        FindNextUserEntry(false, savedKey);
      } else {
        valid := false;
      }
      FirstFrom(0, 0, skip);
      pos := 0;
    }

    method Seek(target: UserKey)
      requires Inv()
      modifies this, iter, iter.children
      ensures Inv() && IsViewLowerBound(All(), sequence, target, pos)
    {
      hide MergingIterator.Inv, SkipsRightly, Yields, Seen, Cut, View;
      forward := true;
      savedValue := [];
      savedKey := EMPTY_KEY;
      iter.Seek(LookupKey(target, sequence));
      iter.IsCursor();
      ghost var p := iter.pos;
      SeekIsRight(target, p);
      if iter.Valid() {
        FindNextUserEntry(false, savedKey);
      } else {
        valid := false;
      }
      FirstFrom(p, CountBelow(p), EMPTY_KEY);
      pos := CountBelow(p);
    }

    /** From the lookup key of the target on, the entries to yield are those of users at or after
        the target, and nothing visible of theirs lies before it. */
    lemma SeekIsRight(target: UserKey, p: nat)
      requires Sorted(All()) && IsLowerBound(All(), LookupKey(target, sequence), p)
      ensures SkipsRightly(false, EMPTY_KEY, false, EMPTY_KEY, p)
      ensures IsViewLowerBound(All(), sequence, target, CountBelow(p))
    {
      forall i | 0 <= i < |All()| && Visible(All(), sequence, i)
        ensures i < p <==> All()[i].key.user < target
      {
        LookupKeySplits(target, sequence, All()[i].key);
      }
    }

    method SeekToLast()
      requires Inv()
      modifies this, iter, iter.children
      ensures Inv() && pos == (if TheView() == [] then 0 else |TheView()| - 1) && (valid ==> !forward)
    {
      hide MergingIterator.Inv, SkipsRightly, Yields, Seen, Cut, View;
      forward := false;
      savedValue := [];
      iter.SeekToLast();
      iter.IsCursor();
      EndsAreCuts(savedKey);
      ghost var z := FindPrevUserEntry(|All()|);
      iter.IsCursor();
      LastOfView(z, valid);
      pos := if TheView() == [] then 0 else |TheView()| - 1;
    }
  }

  /** Three users; the entry of the second is newer than the snapshot 3. */
  const THREE: seq<Entry> := [
    Entry(IKey(1.0, 1, Value), []), Entry(IKey(2.0, 5, Value), []), Entry(IKey(3.0, 1, Value), [])]

  /** At the last key, moving backwards, the inner cursor does not stand just before the entries of that key:
      the entry of the second user lies between. */
  method ReversedElsewhere() returns (it: DBIter)
    ensures fresh(it) && it.Inv() && it.Valid() && !it.forward && it.Key() == 3.0
    ensures it.iter.Valid() && it.iter.Current().key.user == 1.0 && !it.JustBefore()
  {
    hide MergingIterator.Inv;
    var child := new SortedCursor(THREE);
    OneRun(THREE);
    var inner := new MergingIterator([child], [THREE], THREE);
    it := new DBIter(inner, 3);
    it.SeekToLast();
    LastOfThree();
    it.WhereReversed();
    inner.IsCursor();
    assert THREE[1].key.user < it.savedKey == THREE[2].key.user;
  }

  lemma OneRun(run: seq<Entry>)
    requires Sorted(run)
    ensures IsUnion(run, [run])
  {
    assert [run][0] == run;
  }

  lemma LastOfThree()
    ensures Sorted(THREE) && View(THREE, 3) != [] && View(THREE, 3)[|View(THREE, 3)| - 1] == 2
  {
    assert Yields(THREE, 3, 2);
    assert 2 in View(THREE, 3);
  }

  /** In an ascending sequence, the number of elements below p. */
  ghost function CountIn(ys: seq<nat>, p: nat): (v: nat)
    requires forall v, w :: 0 <= v < w < |ys| ==> ys[v] < ys[w]
    ensures v <= |ys|
    ensures forall w :: 0 <= w < v ==> ys[w] < p
    ensures forall w :: v <= w < |ys| ==> ys[w] >= p
  {
    if ys == [] || ys[0] >= p then 0 else 1 + CountIn(ys[1..], p)
  }
}
