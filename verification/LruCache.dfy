/** The cache: a table of entries, each in one of two lists while it is in the cache, and reference
    counts that say when the deleter runs. */
module LruCaches {
  import opened InternalKeys
  import opened LruHandles
  import opened HandleTables

  /** The total charge of some entries. */
  ghost function Charges(s: set<LRUHandle>): nat {
    if s == {} then 0 else var e :| e in s; e.charge + Charges(s - {e})
  }

  lemma {:induction false} ChargesWithout(s: set<LRUHandle>, e: LRUHandle)
    requires e in s
    ensures Charges(s) == e.charge + Charges(s - {e})
  {
    var x :| x in s && Charges(s) == x.charge + Charges(s - {x});
    if x != e {
      ChargesWithout(s - {x}, e);
      ChargesWithout(s - {e}, x);
      assert s - {x} - {e} == s - {e} - {x};
    }
  }

  /** A list without an entry. */
  ghost function Dropped(s: seq<LRUHandle>, e: LRUHandle): seq<LRUHandle> {
    if s == [] then [] else if s[0] == e then s[1..] else [s[0]] + Dropped(s[1..], e)
  }

  lemma FirstIsOther(s: seq<LRUHandle>, i: nat)
    requires Distinct(s) && i < |s|
    ensures Distinct(s[1..]) && (i > 0 ==> s[0] != s[i])
  {
  }

  lemma {:induction false} DroppedIs(s: seq<LRUHandle>, i: nat)
    requires Distinct(s) && i < |s|
    ensures Dropped(s, s[i]) == Without(s, i)
  {
    hide Distinct;
    FirstIsOther(s, i);
    if i == 0 {
      assert Without(s, 0) == s[1..];
    } else {
      DroppedIs(s[1..], i - 1);
      assert s[1..][i - 1] == s[i];
      assert s[1..][..i - 1] == s[1..i] && s[1..][i..] == s[i + 1..];
      assert [s[0]] + s[1..i] == s[..i];
    }
  }

  // ----- The books -----

  type Counts = map<LRUHandle, nat>

  /** The entries that are in the cache are those in the lists: without other references on the
      LRU list, else on the in-use list. */
  ghost predicate InLists(cached: set<LRUHandle>, refs: Counts, lru: set<LRUHandle>, inUse: set<LRUHandle>) {
    && cached <= refs.Keys
    && (forall e :: e in lru ==> e in cached && refs[e] == 1)
    && (forall e :: e in inUse ==> e in cached && refs[e] >= 2)
    && (forall e :: e in cached ==> e in lru || e in inUse)
  }

  /** References are the handles held by clients, the cache's own, and some about to be dropped; the
      deleter has run once for the entries without references, and for no others. */
  ghost predicate Counted(all: set<LRUHandle>, cached: set<LRUHandle>, refs: Counts, deletions: Counts,
                          held: multiset<LRUHandle>, dropping: multiset<LRUHandle>) {
    && refs.Keys == deletions.Keys == all
    && (forall e :: e in held ==> e in all) && (forall e :: e in dropping ==> e in all)
    && (forall e :: e in all ==> refs[e] == held[e] + dropping[e] + if e in cached then 1 else 0)
    && (forall e :: e in all ==> deletions[e] == if refs[e] == 0 then 1 else 0)
  }

  class LRUCache {
    const lruHead: LRUHandle    // entries no client holds; next is the oldest, prev the newest
    const inUseHead: LRUHandle  // entries in use by clients
    const table: HandleTable

    var capacity: nat
    var usage: int

    ghost var lru: seq<LRUHandle>
    ghost var inUse: seq<LRUHandle>
    ghost var all: set<LRUHandle>         // every entry made so far
    ghost var cached: set<LRUHandle>      // those that are in the cache
    ghost var held: multiset<LRUHandle>   // the handles clients hold

    ghost function Refs(): Counts
      reads this`all, all`refs
    {
      map e | e in all :: e.refs
    }

    ghost function Deletions(): Counts
      reads this`all, all`deletions
    {
      map e | e in all :: e.deletions
    }

    /** Both lists are sound and apart, and the heads are no entries. */
    ghost predicate Lists()
      reads this`lru, this`inUse, this`all, lru`next, lru`prev, inUse`next, inUse`prev
    {
      && Ring(lru) && Ring(inUse) && lru[0] == lruHead && inUse[0] == inUseHead && Apart(lru, inUse)
      && lruHead !in all && inUseHead !in all
    }

    ghost predicate Marked()
      reads this`all, this`cached, all`inCache
    {
      cached <= all && forall e :: e in all ==> (e.inCache <==> e in cached)
    }

    /** Everything but the table, with some references about to be dropped. */
    ghost predicate Books(dropping: multiset<LRUHandle>)
      reads this`lru, this`inUse, this`all, this`cached, this`held, this`usage, all`inCache, all`refs, all`deletions, lru`next, lru`prev, inUse`next, inUse`prev
    {
      && Lists() && Marked() && InLists(cached, Refs(), Members(lru), Members(inUse))
      && Counted(all, cached, Refs(), Deletions(), held, dropping)
      && usage == Charges(cached)
    }

    ghost predicate Valid()
      reads this`lru, this`inUse, this`all, this`cached, this`held, this`usage, table, table.Handles()`nextHash, all`inCache, all`refs, all`deletions
      reads lru`next, lru`prev, inUse`next, inUse`prev
    {
      table.Valid() && table.Handles() == cached && Books(multiset{})
    }

    constructor ()
      ensures Valid() && cached == {} && held == multiset{} && capacity == 0 && usage == 0
      ensures all == {} && fresh(table)
    {
      capacity, usage := 0, 0;
      var a := new LRUHandle([], 0, 0, 0);
      var b := new LRUHandle([], 0, 0, 0);
      lruHead, inUseHead := a, b;
      table := new HandleTable();
      lru, inUse, all, cached, held := [a], [b], {}, {}, multiset{};
      new;
      lruHead.next := lruHead;
      lruHead.prev := lruHead;
      inUseHead.next := inUseHead;
      inUseHead.prev := inUseHead;
    }

    lemma ListFacts()
      requires Lists()
      ensures lru != [] && inUse != [] && Distinct(lru) && Distinct(inUse) && lru[0] == lruHead && inUse[0] == inUseHead
    {
    }

    lemma CachedFacts(dropping: multiset<LRUHandle>, e: LRUHandle)
      requires Books(dropping) && e in cached
      ensures e in all && e.inCache && Refs()[e] == e.refs && e != lruHead && e != inUseHead
    {
    }

    ghost function Entries(): set<LRUHandle>
      reads this`all
    {
      all + {lruHead, inUseHead}
    }

    lemma Known(dropping: multiset<LRUHandle>)
      requires Books(dropping)
      ensures cached <= all && forall e :: e in held ==> e in all
      ensures lru != [] && lru[0] == lruHead
      ensures forall k :: 0 <= k < |lru| ==> lru[k] in Entries()
      ensures forall k :: 0 <= k < |inUse| ==> inUse[k] in Entries()
    {
      forall k | 0 <= k < |lru| ensures lru[k] in Entries() {
        assert lru[k] == lruHead || lru[k] in Members(lru);
      }
      forall k | 0 <= k < |inUse| ensures inUse[k] in Entries() {
        assert inUse[k] == inUseHead || inUse[k] in Members(inUse);
      }
    }

    /** Move an entry that clients begin to use to the in-use list. */
    method StartUse(e: LRUHandle)
      requires Lists() && e in Members(lru)
      modifies this`lru, this`inUse, lru`next, lru`prev, inUse`next, inUse`prev
      ensures Lists() && lru == Dropped(old(lru), e) && inUse == old(inUse) + [e]
      ensures Members(lru) == old(Members(lru)) - {e} && Members(inUse) == old(Members(inUse)) + {e}
    {
      ListFacts();
      hide Ring, Dropped, Distinct, Without, Members, Apart;
      ghost var i := MemberAt(lru, e);
      DroppedIs(lru, i);
      LruMove(e, inUseHead, lru, i, inUse);
      lru, inUse := Without(lru, i), inUse + [e];
    }

    method SetRefs(e: LRUHandle, n: nat)
      requires e in all
      modifies e`refs
      ensures e.refs == n && Refs() == old(Refs())[e := n]
    {
      e.refs := n;
    }

    /** Take a reference for a client. */
    method Ref(e: LRUHandle)
      requires Books(multiset{}) && e in cached
      modifies this`lru, this`inUse, this`held, e`refs, lru`next, lru`prev, inUse`next, inUse`prev
      ensures Books(multiset{}) && held == old(held) + multiset{e}
      ensures lru == if old(e.refs) == 1 then Dropped(old(lru), e) else old(lru)
    {
      hide Books, Refs, Deletions, Members, Dropped;
      CachedFacts(multiset{}, e);
      if e.refs == 1 && e.inCache {
        FirstUse(e);
      } else {
        FurtherUse(e);
      }
    }

    method FirstUse(e: LRUHandle)
      requires Books(multiset{}) && e in cached && e.refs == 1
      modifies this`lru, this`inUse, this`held, e`refs, lru`next, lru`prev, inUse`next, inUse`prev
      ensures Books(multiset{}) && held == old(held) + multiset{e} && lru == Dropped(old(lru), e)
    {
      hide InLists, Counted, Lists, Marked, Members, Charges, Deletions, Dropped;
      CachedFacts(multiset{}, e);
      RefBooks(all, cached, Refs(), Deletions(), Members(lru), Members(inUse), held, e);
      StartUse(e);
      assert Refs() == old(Refs());
      SetRefs(e, e.refs + 1);
      held := held + multiset{e};
      assert Lists();
      assert Marked();
      assert Deletions() == old(Deletions());
      assert InLists(cached, Refs(), Members(lru), Members(inUse));
      assert Counted(all, cached, Refs(), Deletions(), held, multiset{});
    }

    method FurtherUse(e: LRUHandle)
      requires Books(multiset{}) && e in cached && e.refs != 1
      modifies this`held, e`refs
      ensures Books(multiset{}) && held == old(held) + multiset{e}
    {
      hide InLists, Counted, Lists, Marked, Members, Charges, Deletions;
      CachedFacts(multiset{}, e);
      RefBooks(all, cached, Refs(), Deletions(), Members(lru), Members(inUse), held, e);
      SetRefs(e, e.refs + 1);
      held := held + multiset{e};
    }

    /** Move an entry that clients have stopped using to the newest end of the LRU list. */
    method EndUse(e: LRUHandle)
      requires Lists() && e in Members(inUse)
      modifies this`lru, this`inUse, lru`next, lru`prev, inUse`next, inUse`prev
      ensures Lists() && lru == old(lru) + [e]
      ensures Members(lru) == old(Members(lru)) + {e} && Members(inUse) == old(Members(inUse)) - {e}
    {
      ListFacts();
      hide Ring, Distinct, Without, Members, Apart;
      ghost var i := MemberAt(inUse, e);
      ApartBothWays(lru, inUse);
      LruMove(e, lruHead, inUse, i, lru);
      lru, inUse := lru + [e], Without(inUse, i);
      ApartBothWays(inUse, lru);
    }

    method SetDeleted(e: LRUHandle)
      requires e in all
      modifies e`deletions
      ensures Deletions() == old(Deletions())[e := old(e.deletions) + 1]
    {
      e.deletions := e.deletions + 1;
    }

    /** Drop a reference; run the deleter if it was the last. */
    method Unref(e: LRUHandle)
      requires Books(multiset{e})
      modifies this`lru, this`inUse, e`refs, e`deletions, lru`next, lru`prev, inUse`next, inUse`prev
      ensures Books(multiset{})
      ensures lru == if e in cached && held[e] == 0 then old(lru) + [e] else old(lru)
    {
      hide InLists, Counted, Lists, Marked, Members, Charges, Refs, Deletions;
      DropFacts(e);
      UnrefBooks(all, cached, Refs(), Deletions(), Members(lru), Members(inUse), held, e);
      SetRefs(e, e.refs - 1);
      if e.refs == 0 {
        // Deallocate
        SetDeleted(e);
        assert Lists() && Marked();
      } else if e.inCache && e.refs == 1 {
        // No longer in use
        assert Marked() && Deletions() == old(Deletions());
        EndUse(e);
        assert Marked() && Deletions() == old(Deletions());
      } else {
        assert Lists() && Marked() && Deletions() == old(Deletions());
      }
    }

    /** Take an entry out of whichever list it is in. */
    method Unlink(e: LRUHandle)
      requires Lists() && (e in Members(lru) || e in Members(inUse))
      modifies this`lru, this`inUse, lru`next, lru`prev, inUse`next, inUse`prev
      ensures Lists() && lru == Dropped(old(lru), e)
      ensures Members(lru) == old(Members(lru)) - {e} && Members(inUse) == old(Members(inUse)) - {e}
    {
      hide Lists, Ring, Dropped, Members, Apart, Without;
      ghost var i, lru', inUse' := UnlinkPlan(e);
      UnlinkAt(e, e in Members(lru), i, lru', inUse');
    }

    method UnlinkAt(e: LRUHandle, ghost first: bool, ghost i: nat, ghost lru': seq<LRUHandle>, ghost inUse': seq<LRUHandle>)
      requires Lists()
      requires if first then 0 < i < |lru| && lru[i] == e && lru' == Without(lru, i) && inUse' == inUse
               else 0 < i < |inUse| && inUse[i] == e && lru' == lru && inUse' == Without(inUse, i)
      requires lru' != [] && inUse' != [] && lru'[0] == lruHead && inUse'[0] == inUseHead && Apart(lru', inUse')
      modifies this`lru, this`inUse, lru`next, lru`prev, inUse`next, inUse`prev
      ensures Lists() && lru == lru' && inUse == inUse'
    {
      hide Ring, Apart, Without;
      LruRemoveFrom(e, lru, inUse, first, i);
      lru, inUse := lru', inUse';
    }

    /** The place of an entry in its list, and the lists without it. */
    lemma UnlinkPlan(e: LRUHandle) returns (i: nat, lru': seq<LRUHandle>, inUse': seq<LRUHandle>)
      requires Lists() && (e in Members(lru) || e in Members(inUse))
      ensures if e in Members(lru) then 0 < i < |lru| && lru[i] == e && lru' == Without(lru, i) && inUse' == inUse
              else 0 < i < |inUse| && inUse[i] == e && lru' == lru && inUse' == Without(inUse, i)
      ensures lru' != [] && inUse' != [] && lru'[0] == lruHead && inUse'[0] == inUseHead && Apart(lru', inUse')
      ensures lru' == Dropped(lru, e) && Members(lru') == Members(lru) - {e} && Members(inUse') == Members(inUse) - {e}
    {
      ListFacts();
      NotInBoth(lru, inUse, e);
      hide Ring, Dropped, Distinct, Without, Members, Apart;
      ApartBothWays(lru, inUse);
      var r := if e in Members(lru) then lru else inUse;
      i := MemberAt(r, e);
      DroppedIs(r, i);
      MembersWithout(r, i);
      if e in Members(lru) {
        UnlinkedApart(lru, inUse, i);
        lru', inUse' := Without(lru, i), inUse;
      } else {
        UnlinkedApart(inUse, lru, i);
        lru', inUse' := lru, Without(inUse, i);
      }
    }

    /** Finish removing an entry that has left the table, if there is one. */
    method FinishErase(e: LRUHandle?) returns (erased: bool)
      requires Books(multiset{}) && (e != null ==> e in cached)
      modifies this`lru, this`inUse, this`cached, this`usage, Entries()`next, Entries()`prev
      modifies (if e == null then {} else {e})`inCache, (if e == null then {} else {e})`refs, (if e == null then {} else {e})`deletions
      ensures Books(multiset{}) && erased == (e != null)
      ensures if e == null then cached == old(cached) && lru == old(lru)
              else cached == old(cached) - {e} && lru == Dropped(old(lru), e)
    {
      hide Books, Dropped;
      if e != null {
        EraseEntry(e);
      }
      erased := e != null;
    }

    method EraseEntry(e: LRUHandle)
      requires Books(multiset{}) && e in cached
      modifies this`lru, this`inUse, this`cached, this`usage, Entries()`next, Entries()`prev
      modifies e`inCache, e`refs, e`deletions
      ensures Books(multiset{}) && cached == old(cached) - {e} && lru == Dropped(old(lru), e)
    {
      hide InLists, Counted, Members, Charges, Refs, Deletions, Dropped, Lists;
      Known(multiset{});
      EraseBooks(all, cached, Refs(), Deletions(), Members(lru), Members(inUse), held, e);
      ChargesWithout(cached, e);
      Unlink(e);
      assert Refs() == old(Refs()) && Deletions() == old(Deletions());
      MarkErased(e);
      usage := usage - e.charge;
      assert Lists() && Refs() == old(Refs()) && Deletions() == old(Deletions());
      Known(multiset{e});
      Unref(e);
    }

    method MarkErased(e: LRUHandle)
      requires Marked() && e in cached
      modifies this`cached, e`inCache
      ensures Marked() && cached == old(cached) - {e}
    {
      e.inCache := false;
      cached := cached - {e};
    }

    /** A new entry with one reference, for the handle that will be returned. */
    method NewEntry(key: Bytes, hash: nat, value: int, charge: nat) returns (e: LRUHandle)
      requires Books(multiset{})
      modifies this`all, this`held
      ensures fresh(e) && e.key == key && e.hash == hash && e.value == value && e.charge == charge
      ensures all == old(all) + {e} && held == old(held) + multiset{e} && !e.inCache && e.refs == 1
      ensures Books(multiset{}) && e !in lru && e !in inUse && e !in cached
    {
      hide InLists, Counted, Charges, Members, Ring, Apart;
      e := new LRUHandle(key, hash, value, charge);
      assert e !in all && e !in lru && e !in inUse;
      NewBooks(all, cached, Refs(), Deletions(), Members(lru), Members(inUse), held, e);
      all := all + {e};
      held := held + multiset{e};
      assert Refs() == old(Refs())[e := 1] && Deletions() == old(Deletions())[e := 0];
      assert Marked() && Lists();
    }

    // ----- Public operations -----

    /** The entry of a key, with a handle on it for the client. */
    method Lookup(key: Bytes, hash: nat) returns (e: LRUHandle?)
      requires Valid()
      modifies this`lru, this`inUse, this`held, Entries()`refs, Entries()`next, Entries()`prev
      ensures Valid() && cached == old(cached) && all == old(all)
      ensures e != null ==> e in cached && Same(e, key, hash) && held == old(held) + multiset{e}
      ensures e == null ==> held == old(held) && forall h :: h in cached ==> !Same(h, key, hash)
    {
      hide Books, HandleTable.Valid, HandleTable.Handles;
      Known(multiset{});
      e := table.Lookup(key, hash);
      if e != null {
        Ref(e);
      }
    }

    /** Give a handle back. */
    method Release(e: LRUHandle)
      requires Valid() && held[e] > 0
      modifies this`lru, this`inUse, this`held, Entries()`refs, Entries()`deletions, Entries()`next, Entries()`prev
      ensures Valid() && cached == old(cached) && all == old(all) && held == old(held) - multiset{e}
      ensures lru == if e in cached && held[e] == 0 then old(lru) + [e] else old(lru)
    {
      hide Books, HandleTable.Valid, HandleTable.Handles;
      Known(multiset{});
      BeginRelease(e);
      Unref(e);
    }

    /** A reference that stood for a client's handle is about to be dropped. */
    ghost method BeginRelease(e: LRUHandle)
      requires Books(multiset{}) && held[e] > 0
      modifies this`held
      ensures Books(multiset{e}) && held == old(held) - multiset{e} && e in all
    {
      hide InLists, Lists, Marked, Refs, Deletions, Charges;
      GiveBack(all, cached, Refs(), Deletions(), held, e);
      held := held - multiset{e};
    }

    /** Take the entry of a key out of the cache; clients keep their handles on it. */
    method Erase(key: Bytes, hash: nat)
      requires Valid()
      modifies this`lru, this`inUse, this`cached, this`usage, table, table.Handles()`nextHash
      modifies Entries()`inCache, Entries()`refs, Entries()`deletions, Entries()`next, Entries()`prev
      ensures Valid() && held == old(held) && all == old(all)
      ensures cached == Unlike(old(cached), key, hash)
    {
      hide Books, HandleTable.Valid, HandleTable.Handles, Unlike, UniqueKeys;
      Known(multiset{});
      KeysUnique();
      UnlikeOne(cached, key, hash);
      var found := table.Remove(key, hash);
      var erased := FinishErase(found);
    }

    lemma OldestFacts()
      requires Valid()
      ensures lru != [] && lru[0] == lruHead && lruHead.next == if |lru| > 1 then lru[1] else lruHead
      ensures |lru| > 1 ==> lru[1] in cached && lru[1] in table.Handles() && lru[1].refs == 1 && Dropped(lru, lru[1]) == [lruHead] + lru[2..]
      ensures |lru| > 1 ==> lru[1] != lruHead
      ensures Distinct(lru) && usage == Charges(cached)
    {
      if |lru| > 1 {
        assert lru[1] in Members(lru);
        DroppedIs(lru, 1);
      }
    }

    /** Take the oldest entry that no client holds out of the cache. */
    method EvictOldest()
      requires Valid() && |lru| > 1
      modifies this`lru, this`inUse, this`cached, this`usage, table, table.Handles()`nextHash
      modifies Entries()`inCache, Entries()`refs, Entries()`deletions, Entries()`next, Entries()`prev
      ensures Valid() && held == old(held) && all == old(all)
      ensures cached == old(cached) - {old(lru)[1]} && lru == [lruHead] + old(lru)[2..]
    {
      hide Books, Dropped, HandleTable.Valid, HandleTable.Handles, UniqueKeys;
      Known(multiset{});
      KeysUnique();
      OldestFacts();
      var oldest := lruHead.next;
      OnlyOne(cached, oldest);
      var removed := table.Remove(oldest.key, oldest.hash);
      var erased := FinishErase(removed);
    }

    /** Take every entry that no client holds out of the cache. */
    method Prune()
      requires Valid()
      modifies this`lru, this`inUse, this`cached, this`usage, table, table.Handles()`nextHash
      modifies Entries()`inCache, Entries()`refs, Entries()`deletions, Entries()`next, Entries()`prev
      ensures Valid() && held == old(held) && all == old(all)
      ensures lru == [lruHead] && cached == old(cached) - old(Members(lru))
    {
      hide Books, HandleTable.Valid, HandleTable.Handles, Dropped;
      OldestFacts();
      ghost var k := 0;
      OldestMembers(lru, 0);
      while lruHead.next != lruHead
        invariant Valid() && held == old(held) && all == old(all) && k < |old(lru)|
        invariant lru == [lruHead] + old(lru)[k + 1..] && cached == old(cached) - Oldest(old(lru), k)
        invariant lruHead.next == if |lru| > 1 then lru[1] else lruHead
        invariant |lru| > 1 ==> lru[1] != lruHead
        invariant table.Handles() <= old(table.Handles())
        decreases |lru|
      {
        OldestMembers(old(lru), k);
        NextInLine(lruHead, old(lru), k);
        EvictOldest();
        k := k + 1;
        OldestFacts();
      }
      OldestMembers(old(lru), k);
    }
    /** Give the cache a reference on a new entry, in the in-use list. */
    method Adopt(e: LRUHandle)
      requires Books(multiset{}) && e in all && e !in cached && e !in lru && e !in inUse && e.refs == 1 && held[e] == 1
      modifies this`inUse, this`cached, this`usage, inUse`next, inUse`prev, e`next, e`prev, e`refs, e`inCache
      ensures Books(multiset{}) && cached == old(cached) + {e} && inUse == old(inUse) + [e]
    {
      hide InLists, Counted, Charges, Members, Ring, Apart, Deletions, Refs;
      AdoptBooks(all, cached, Refs(), Deletions(), Members(lru), Members(inUse), held, e);
      ListFactsFor(e);
      SetRefs(e, e.refs + 1);
      MarkCached(e);
      LruAppend(inUseHead, e, inUse);
      inUse := inUse + [e];
      usage := usage + e.charge;
      assert Refs() == old(Refs())[e := 2] && Deletions() == old(Deletions());
      assert Marked();
      assert Ring(lru);
      ChargesWithout(cached, e);
      assert cached - {e} == old(cached);
    }

    lemma ListFactsFor(e: LRUHandle)
      requires Lists() && e !in lru && e !in inUse && e in all
      ensures Refs()[e] == e.refs
      ensures inUse != [] && Members(inUse + [e]) == Members(inUse) + {e} && Apart(lru, inUse + [e])
      ensures forall k :: 0 <= k < |lru| ==> lru[k] !in inUse && lru[k] != e
    {
      forall k | 0 <= k < |lru| ensures lru[k] !in inUse && lru[k] != e {
        assert lru[k] in lru;
      }
    }

    method MarkCached(e: LRUHandle)
      requires Marked() && e in all
      modifies this`cached, e`inCache
      ensures Marked() && cached == old(cached) + {e}
    {
      e.inCache := true;
      cached := cached + {e};
    }

    lemma KeysUnique()
      requires table.Valid() && table.Handles() == cached
      ensures UniqueKeys(cached)
    {
    }

    /** Put a new entry into the cache, in place of the one of its key. */
    method Cache(e: LRUHandle)
      requires table.Valid() && table.Handles() == cached && Books(multiset{})
      requires e in all && e !in cached && e !in lru && e !in inUse && e.refs == 1 && held[e] == 1
      modifies this`lru, this`inUse, this`cached, this`usage, table, table.Handles()`nextHash, e`nextHash
      modifies Entries()`inCache, Entries()`refs, Entries()`deletions, Entries()`next, Entries()`prev
      ensures Valid() && held == old(held) && all == old(all)
      ensures cached == Unlike(old(cached), e.key, e.hash) + {e} && lru == LineWithout(old(lru), old(cached), e.key, e.hash)
    {
      hide Books, HandleTable.Handles, HandleTable.Valid, Dropped, Unlike, LineWithout, UniqueKeys;
      Known(multiset{});
      KeysUnique();
      UnlikeOne(cached, e.key, e.hash);
      LineIs(lru, cached, e.key, e.hash);
      Adopt(e);
      Known(multiset{});
      var replaced := table.Insert(e);
      var erased := FinishErase(replaced);
    }

    /** Insert an entry and return a handle on it; then evict, oldest first, until the cache is within its
        capacity or only entries in use are left. */
    method Insert(key: Bytes, hash: nat, value: int, charge: nat) returns (e: LRUHandle)
      requires Valid()
      modifies this`lru, this`inUse, this`cached, this`usage, this`all, this`held, table, table.Handles()`nextHash
      modifies Entries()`inCache, Entries()`refs, Entries()`deletions, Entries()`next, Entries()`prev
      ensures Valid() && fresh(e) && e.key == key && e.hash == hash && e.value == value && e.charge == charge
      ensures held == old(held) + multiset{e} && all == old(all) + {e}
      ensures var base := if capacity > 0 then Unlike(old(cached), key, hash) + {e} else old(cached);
          var line := if capacity > 0 then LineWithout(old(lru), old(cached), key, hash) else old(lru);
          line != [] && EvictedDown(base, line, capacity, cached, lru)
    {
      hide Books, HandleTable.Handles, HandleTable.Valid, Dropped, EvictedDown, LineWithout;
      e := NewEntry(key, hash, value, charge);
      if capacity > 0 {
        Cache(e);
      }
      EvictDown();
    }

    /** Evict, oldest first, until the cache is within its capacity or only entries in use are left. */
    method EvictDown()
      requires Valid()
      modifies this`lru, this`inUse, this`cached, this`usage, table, table.Handles()`nextHash
      modifies Entries()`inCache, Entries()`refs, Entries()`deletions, Entries()`next, Entries()`prev
      ensures Valid() && held == old(held) && all == old(all)
      ensures old(lru) != [] && EvictedDown(old(cached), old(lru), capacity, cached, lru)
    {
      hide Books, HandleTable.Handles, HandleTable.Valid, Dropped;
      OldestFacts();
      ghost var base, line, k := cached, lru, 0;
      OldestMembers(line, 0);
      while usage > capacity && lruHead.next != lruHead
        invariant Valid() && held == old(held) && all == old(all) && k < |line|
        invariant line[0] == lruHead && lru == [lruHead] + line[k + 1..] && cached == base - Oldest(line, k)
        invariant lruHead.next == if |lru| > 1 then lru[1] else lruHead
        invariant (|lru| > 1 ==> lru[1] != lruHead) && usage == Charges(cached)
        invariant k > 0 ==> Charges(base - Oldest(line, k - 1)) > capacity
        invariant table.Handles() <= old(table.Handles())
        decreases |lru|
      {
        OldestMembers(line, k);
        NextInLine(lruHead, line, k);
        EvictOldest();
        k := k + 1;
        OldestFacts();
      }
      assert EvictedBy(base, line, capacity, cached, lru, k);
    }

    method SetCapacity(c: nat)
      requires Valid()
      modifies this`capacity
      ensures Valid() && capacity == c
    {
      hide Valid;
      capacity := c;
    }

    /** What every run keeps: the entries of the table are those of the two lists, which share none; the
        LRU list holds those that only the cache refers to; the usage is their total charge; and the
        deleter of an entry has run, once, exactly when the entry has left the cache and no client holds
        a handle on it. */
    lemma Accounts()
      requires Valid()
      ensures table.Handles() == Members(lru) + Members(inUse) && Members(lru) !! Members(inUse)
      ensures usage == Charges(table.Handles())
      ensures forall e :: e in Members(lru) ==> e.refs == 1 && held[e] == 0
      ensures forall e :: e in Members(inUse) ==> e.refs >= 2 && held[e] == e.refs - 1
      ensures forall e :: e in all ==> e.deletions == if e !in table.Handles() && held[e] == 0 then 1 else 0
    {
      hide HandleTable.Valid, Lists;
      forall e | e in all ensures Refs()[e] == e.refs && Deletions()[e] == e.deletions {
      }
    }

    /** Destroying the cache, once all handles have been given back, runs the deleters that have not run. */
    method Destroy()
      requires Valid() && inUse == [inUseHead]
      modifies all`inCache, all`refs, all`deletions
      ensures forall e :: e in all && held[e] == 0 ==> e.deletions == 1
    {
      hide HandleTable.Valid, Lists, InLists, Counted, Members, Books;
      DestroyFacts();
      var e := lruHead.next;
      ghost var i, done := 1, {};
      while e != lruHead
        invariant 1 <= i <= |lru| && e == NextOf(lru, i)
        invariant forall h :: h in all && h !in done ==> h.refs == old(h.refs) && h.deletions == old(h.deletions)
        invariant (forall j :: 1 <= j < i ==> lru[j] in done) && (forall j :: i <= j < |lru| ==> lru[j] !in done)
        invariant forall h :: h in done ==> h in all && h.deletions == 1
        invariant forall j, k :: 0 < j && k == j + 1 && k <= |lru| ==> lru[j].next == NextOf(lru, k)
        decreases |lru| - i
      {
        var next := e.next;
        done := done + {e};
        // The cache's reference, which is the only one, is dropped
        e.inCache := false;
        e.refs := e.refs - 1;
        if e.refs == 0 {
          e.deletions := e.deletions + 1;
        }
        e := next;
        i := i + 1;
      }
    }

    lemma DestroyFacts()
      requires Valid() && inUse == [inUseHead]
      ensures lru != [] && lru[0] == lruHead && Distinct(lru)
      ensures lruHead.next == NextOf(lru, 1)
      ensures forall i :: 0 < i < |lru| ==> lru[i] != lruHead && lru[i] in all && lru[i].refs == 1 && lru[i].deletions == 0
      ensures forall i, k :: 0 < i && k == i + 1 && k <= |lru| ==> lru[i].next == NextOf(lru, k)
      ensures forall e :: e in all && held[e] == 0 && (forall i :: 0 < i < |lru| ==> lru[i] != e) ==> e.deletions == 1
    {
      hide HandleTable.Valid, HandleTable.Handles, Charges;
      Accounts();
      assert Members(inUse) == {};
      assert forall i :: 0 < i < |lru| ==> lru[i] in Members(lru);
    }

    lemma DropFacts(e: LRUHandle)
      requires Books(multiset{e})
      ensures e in all && Refs()[e] == e.refs && Deletions()[e] == e.deletions && (e.inCache <==> e in cached)
    {
    }
  }

  lemma RefBooks(all: set<LRUHandle>, cached: set<LRUHandle>, refs: Counts, deletions: Counts,
                 lru: set<LRUHandle>, inUse: set<LRUHandle>, held: multiset<LRUHandle>, e: LRUHandle)
    requires InLists(cached, refs, lru, inUse) && Counted(all, cached, refs, deletions, held, multiset{}) && e in cached
    ensures e in refs && refs[e] > 0 && (refs[e] == 1 <==> e in lru)
    ensures var refs' := refs[e := refs[e] + 1];
        && Counted(all, cached, refs', deletions, held + multiset{e}, multiset{})
        && if refs[e] == 1 then InLists(cached, refs', lru - {e}, inUse + {e}) else InLists(cached, refs', lru, inUse)
  {
  }

  lemma ApartBothWays(r: seq<LRUHandle>, q: seq<LRUHandle>)
    requires Apart(r, q)
    ensures Apart(q, r)
  {
  }

  lemma UnrefBooks(all: set<LRUHandle>, cached: set<LRUHandle>, refs: Counts, deletions: Counts,
                   lru: set<LRUHandle>, inUse: set<LRUHandle>, held: multiset<LRUHandle>, e: LRUHandle)
    requires InLists(cached, refs, lru, inUse) && Counted(all, cached, refs, deletions, held, multiset{e})
    ensures e in refs && e in deletions && refs[e] > 0 && deletions[e] == 0
    ensures var refs' := refs[e := refs[e] - 1];
        && (refs'[e] == 0 ==> e !in cached)
        && (refs'[e] == 1 && e in cached <==> e in cached && held[e] == 0)
        && Counted(all, cached, refs', if refs'[e] == 0 then deletions[e := 1] else deletions, held, multiset{})
        && if refs'[e] == 1 && e in cached then
             e in inUse && InLists(cached, refs', lru + {e}, inUse - {e})
           else InLists(cached, refs', lru, inUse)
  {
    hide InLists;
    UnrefLists(cached, refs, lru, inUse, e);
  }

  lemma UnrefLists(cached: set<LRUHandle>, refs: Counts, lru: set<LRUHandle>, inUse: set<LRUHandle>, e: LRUHandle)
    requires InLists(cached, refs, lru, inUse) && e in refs && refs[e] > 0 && (e in cached ==> refs[e] > 1)
    ensures var refs' := refs[e := refs[e] - 1];
        if refs'[e] == 1 && e in cached then
          e in inUse && InLists(cached, refs', lru + {e}, inUse - {e})
        else InLists(cached, refs', lru, inUse)
  {
  }

  lemma NotInBoth(r: seq<LRUHandle>, q: seq<LRUHandle>, e: LRUHandle)
    requires Apart(r, q) && r != [] && q != [] && (e in Members(r) || e in Members(q))
    ensures e in Members(r) ==> Members(q) - {e} == Members(q)
    ensures e !in Members(r) ==> Members(r) - {e} == Members(r) && Dropped(r, e) == r
  {
    if e !in Members(r) {
      assert e in q && e !in r;
      NothingDropped(r, e);
    }
  }

  lemma {:induction false} NothingDropped(r: seq<LRUHandle>, e: LRUHandle)
    requires e !in r
    ensures Dropped(r, e) == r
  {
    if r != [] {
      NothingDropped(r[1..], e);
    }
  }

  lemma UnlinkedApart(r: seq<LRUHandle>, q: seq<LRUHandle>, i: nat)
    requires Apart(r, q) && i < |r|
    ensures Apart(Without(r, i), q) && Apart(q, Without(r, i))
  {
  }

  lemma EraseBooks(all: set<LRUHandle>, cached: set<LRUHandle>, refs: Counts, deletions: Counts,
                   lru: set<LRUHandle>, inUse: set<LRUHandle>, held: multiset<LRUHandle>, e: LRUHandle)
    requires InLists(cached, refs, lru, inUse) && Counted(all, cached, refs, deletions, held, multiset{}) && e in cached
    ensures e in all && (e in lru || e in inUse)
    ensures Counted(all, cached - {e}, refs, deletions, held, multiset{e})
    ensures InLists(cached - {e}, refs, lru - {e}, inUse - {e})
  {
  }

  lemma NewBooks(all: set<LRUHandle>, cached: set<LRUHandle>, refs: Counts, deletions: Counts,
                 lru: set<LRUHandle>, inUse: set<LRUHandle>, held: multiset<LRUHandle>, e: LRUHandle)
    requires InLists(cached, refs, lru, inUse) && Counted(all, cached, refs, deletions, held, multiset{}) && e !in all
    ensures e !in cached && InLists(cached, refs[e := 1], lru, inUse)
    ensures Counted(all + {e}, cached, refs[e := 1], deletions[e := 0], held + multiset{e}, multiset{})
  {
  }

  /** The entries of other keys. */
  ghost function Unlike(s: set<LRUHandle>, key: Bytes, hash: nat): set<LRUHandle> {
    set h | h in s && !Same(h, key, hash)
  }

  lemma UnlikeOne(s: set<LRUHandle>, key: Bytes, hash: nat)
    requires UniqueKeys(s)
    ensures forall h :: h in s && Same(h, key, hash) ==> Unlike(s, key, hash) == s - {h}
    ensures (forall h :: h in s ==> !Same(h, key, hash)) ==> Unlike(s, key, hash) == s
  {
  }

  lemma GiveBack(all: set<LRUHandle>, cached: set<LRUHandle>, refs: Counts, deletions: Counts, held: multiset<LRUHandle>, e: LRUHandle)
    requires Counted(all, cached, refs, deletions, held, multiset{}) && held[e] > 0
    ensures e in all && Counted(all, cached, refs, deletions, held - multiset{e}, multiset{e})
  {
  }

  /** The k oldest entries of a list. */
  ghost function Oldest(lru: seq<LRUHandle>, k: nat): set<LRUHandle>
    requires k < |lru|
  {
    set i | 0 < i <= k :: lru[i]
  }

  lemma OldestMembers(lru: seq<LRUHandle>, k: nat)
    requires Distinct(lru) && k < |lru|
    ensures Oldest(lru, 0) == {} && Oldest(lru, |lru| - 1) == Members(lru)
    ensures k + 1 < |lru| ==> Oldest(lru, k + 1) == Oldest(lru, k) + {lru[k + 1]}
  {
  }

  lemma AdoptBooks(all: set<LRUHandle>, cached: set<LRUHandle>, refs: Counts, deletions: Counts,
                   lru: set<LRUHandle>, inUse: set<LRUHandle>, held: multiset<LRUHandle>, e: LRUHandle)
    requires InLists(cached, refs, lru, inUse) && Counted(all, cached, refs, deletions, held, multiset{})
    requires e in all && e !in cached && held[e] == 1
    ensures InLists(cached + {e}, refs[e := 2], lru, inUse + {e})
    ensures Counted(all, cached + {e}, refs[e := 2], deletions, held, multiset{})
  {
  }

  /** The LRU list without the entry of a key. */
  ghost function LineWithout(lru: seq<LRUHandle>, cached: set<LRUHandle>, key: Bytes, hash: nat): seq<LRUHandle> {
    if exists h :: h in cached && Same(h, key, hash) then
      var h :| h in cached && Same(h, key, hash);
      Dropped(lru, h)
    else lru
  }

  lemma LineIs(lru: seq<LRUHandle>, cached: set<LRUHandle>, key: Bytes, hash: nat)
    requires UniqueKeys(cached)
    ensures forall h :: h in cached && Same(h, key, hash) ==> LineWithout(lru, cached, key, hash) == Dropped(lru, h)
    ensures (forall h :: h in cached ==> !Same(h, key, hash)) ==> LineWithout(lru, cached, key, hash) == lru
  {
  }

  /** The k oldest entries of the line have gone, each because the cache was over its capacity, and now
      the cache is within it or the line is empty. */
  ghost predicate EvictedBy(base: set<LRUHandle>, line: seq<LRUHandle>, capacity: nat, cached: set<LRUHandle>,
                            lru: seq<LRUHandle>, k: nat) {
    && k < |line| && cached == base - Oldest(line, k) && lru == [line[0]] + line[k + 1..]
    && (k > 0 ==> Charges(base - Oldest(line, k - 1)) > capacity)
    && (Charges(cached) <= capacity || k == |line| - 1)
  }

  ghost predicate EvictedDown(base: set<LRUHandle>, line: seq<LRUHandle>, capacity: nat, cached: set<LRUHandle>,
                              lru: seq<LRUHandle>) {
    exists k: nat :: EvictedBy(base, line, capacity, cached, lru, k)
  }

  lemma NextInLine(head: LRUHandle, line: seq<LRUHandle>, k: nat)
    requires k < |line|
    ensures var lru := [head] + line[k + 1..];
        k + 1 < |line| ==> |lru| > 1 && lru[1] == line[k + 1] && [head] + lru[2..] == [head] + line[k + 2..]
    ensures k + 1 == |line| ==> [head] + line[k + 1..] == [head]
  {
    var lru := [head] + line[k + 1..];
    if k + 1 < |line| {
      assert lru[2..] == line[k + 2..];
    }
  }

  lemma OnlyOne(s: set<LRUHandle>, e: LRUHandle)
    requires UniqueKeys(s) && e in s
    ensures forall h :: h in s && Same(h, e.key, e.hash) ==> h == e
  {
  }

  /** Going round: entry k of a list, or its head after the last. */
  ghost function NextOf(lru: seq<LRUHandle>, k: nat): LRUHandle
    requires k <= |lru| && lru != []
  {
    if k < |lru| then lru[k] else lru[0]
  }
}
