/** What a read of the database means: the newest entry of a user key that a snapshot can see. */
module Reads {
  import opened InternalKeys

  ghost predicate IsNewest(db: set<Entry>, user: UserKey, s: SequenceNumber, e: Entry) {
    && e in db && e.key.user == user && e.key.sequence <= s
    && forall f :: f in db && f.key.user == user && f.key.sequence <= s ==>
         f.key.sequence <= e.key.sequence
  }

  /** No two entries of a user key carry the same sequence number. */
  ghost predicate UniqueSequences(db: set<Entry>) {
    forall e, f :: e in db && f in db && e.key.user == f.key.user && e.key.sequence == f.key.sequence ==>
      e == f
  }

  /** The value a read of `user` at snapshot s returns; None when there is none or it is deleted. */
  ghost function Read(db: set<Entry>, user: UserKey, s: SequenceNumber): Option<Bytes> {
    if exists e :: IsNewest(db, user, s, e) && e.key.kind == Value then
      var e :| IsNewest(db, user, s, e) && e.key.kind == Value;
      Some(e.value)
    else
      None
  }

  lemma NewestIsUnique(db: set<Entry>, user: UserKey, s: SequenceNumber, e: Entry, f: Entry)
    requires UniqueSequences(db) && IsNewest(db, user, s, e) && IsNewest(db, user, s, f)
    ensures e == f
  {
  }

  lemma ReadOfNewest(db: set<Entry>, user: UserKey, s: SequenceNumber, e: Entry)
    requires UniqueSequences(db) && IsNewest(db, user, s, e)
    ensures Read(db, user, s) == if e.key.kind == Value then Some(e.value) else None
  {
  }

  /** Among visible entries of a user key, one is the newest. */
  lemma {:induction false} VisibleHasNewest(db: set<Entry>, user: UserKey, s: SequenceNumber, e: Entry) returns (n: Entry)
    requires e in db && e.key.user == user && e.key.sequence <= s
    ensures IsNewest(db, user, s, n)
    decreases |db|
  {
    n := e;
    var rest := db - {e};
    if exists d :: d in rest && d.key.user == user && d.key.sequence <= s {
      var d :| d in rest && d.key.user == user && d.key.sequence <= s;
      var m := VisibleHasNewest(rest, user, s, d);
      if m.key.sequence > e.key.sequence {
        n := m;
      }
    }
  }
}
