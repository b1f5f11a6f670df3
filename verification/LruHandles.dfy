/** Cache entries, and the circular doubly linked lists they are kept in. */
module LruHandles {
  import opened InternalKeys

  class LRUHandle {
    const key: Bytes
    const hash: nat
    const value: int
    const charge: nat

    var nextHash: LRUHandle?
    var next: LRUHandle?
    var prev: LRUHandle?
    var inCache: bool         // whether the table and a list hold it
    var refs: nat             // references, including the cache's
    ghost var deletions: nat  // how often the deleter has been run

    constructor (k: Bytes, h: nat, v: int, c: nat)
      ensures key == k && hash == h && value == v && charge == c
      ensures !inCache && refs == 1 && deletions == 0
    {
      key, hash, value, charge := k, h, v, c;
      nextHash, next, prev := null, null, null;
      inCache, refs, deletions := false, 1, 0;
    }
  }

  ghost predicate Distinct<T>(s: seq<T>) {
    forall i, j :: 0 <= i < j < |s| ==> s[i] != s[j]
  }

  /** A dummy head and the entries after it, oldest first, linked both ways in a circle. */
  ghost predicate Ring(r: seq<LRUHandle>)
    reads r`next, r`prev
  {
    && r != [] && Distinct(r)
    && (forall i, j :: 0 <= i && j == i + 1 && j < |r| ==> r[i].next == r[j] && r[j].prev == r[i])
    && r[|r| - 1].next == r[0] && r[0].prev == r[|r| - 1]
  }

  /** Put e in front of the head, where the newest entry is. */
  method LruAppend(list: LRUHandle, e: LRUHandle, ghost r: seq<LRUHandle>)
    requires Ring(r) && r[0] == list && e !in r
    modifies r`next, r`prev, e`next, e`prev
    ensures Ring(r + [e])
  {
    e.next := list;
    e.prev := list.prev;
    e.prev.next := e;
    e.next.prev := e;
  }

  /** Take entry number i out of its list. */
  method LruRemove(e: LRUHandle, ghost r: seq<LRUHandle>, ghost i: nat)
    requires Ring(r) && 0 < i < |r| && r[i] == e
    modifies r`next, r`prev
    ensures Ring(Without(r, i))
  {
    ghost var before, after := r[i - 1], if i + 1 < |r| then r[i + 1] else r[0];
    assert e.prev == before && e.next == after;
    e.next.prev := e.prev;
    e.prev.next := e.next;
    ghost var q := Without(r, i);
    assert forall k :: 0 <= k < |q| ==> q[k] == if k < i then r[k] else r[k + 1];
  }

  ghost function Without<T>(s: seq<T>, i: nat): (r: seq<T>)
    requires i < |s|
    ensures |r| == |s| - 1
  {
    s[..i] + s[i + 1..]
  }

  ghost predicate Apart(r: seq<LRUHandle>, q: seq<LRUHandle>) {
    forall e :: e in r ==> e !in q
  }

  lemma WithoutMembers(s: seq<LRUHandle>, i: nat)
    requires Distinct(s) && i < |s|
    ensures forall h :: h in Without(s, i) <==> h in s && h != s[i]
  {
    var r := Without(s, i);
    assert forall k :: 0 <= k < |r| ==> r[k] == if k < i then s[k] else s[k + 1];
    forall h | h in s && h != s[i] ensures h in r {
      var j :| 0 <= j < |s| && s[j] == h;
      assert r[if j < i then j else j - 1] == h;
    }
  }

  lemma RingFacts(r: seq<LRUHandle>)
    requires Ring(r)
    ensures r != [] && Distinct(r)
  {
  }

  /** The entries of a list, without its head. */
  ghost function Members(r: seq<LRUHandle>): set<LRUHandle> {
    if r == [] then {} else set e | e in r && e != r[0]
  }

  lemma MemberAt(r: seq<LRUHandle>, e: LRUHandle) returns (i: nat)
    requires e in Members(r)
    ensures 0 < i < |r| && r[i] == e
  {
    i :| 0 <= i < |r| && r[i] == e;
  }

  lemma MembersWithout(r: seq<LRUHandle>, i: nat)
    requires Distinct(r) && 0 < i < |r|
    ensures Members(Without(r, i)) == Members(r) - {r[i]} && Without(r, i)[0] == r[0]
    ensures forall h :: h in Without(r, i) <==> h in r && h != r[i]
  {
    WithoutMembers(r, i);
  }

  lemma MembersAppend(r: seq<LRUHandle>, e: LRUHandle)
    requires r != [] && e !in r
    ensures Members(r + [e]) == Members(r) + {e}
  {
  }

  /** Move an entry from one list to the end of another. */
  method LruMove(e: LRUHandle, to: LRUHandle, ghost r: seq<LRUHandle>, ghost i: nat, ghost q: seq<LRUHandle>)
    requires Ring(r) && Ring(q) && Apart(r, q) && 0 < i < |r| && r[i] == e && q != [] && q[0] == to
    modifies r`next, r`prev, q`next, q`prev
    ensures Ring(Without(r, i)) && Ring(q + [e]) && Apart(Without(r, i), q + [e])
    ensures Without(r, i)[0] == r[0] && Members(Without(r, i)) == Members(r) - {e} && Members(q + [e]) == Members(q) + {e}
  {
    RingFacts(r);
    MembersWithout(r, i);
    assert e in r;
    KeepsApart(r, q);
    MembersAppend(q, e);
    hide Ring, Members;
    LruRemove(e, r, i);
    LruAppend(to, e, q);
  }

  /** Take an entry out of whichever of two lists it is in. */
  method LruRemoveFrom(e: LRUHandle, ghost a: seq<LRUHandle>, ghost b: seq<LRUHandle>, ghost first: bool, ghost i: nat)
    requires Ring(a) && Ring(b) && Apart(a, b)
    requires if first then 0 < i < |a| && a[i] == e else 0 < i < |b| && b[i] == e
    modifies a`next, a`prev, b`next, b`prev
    ensures if first then Ring(Without(a, i)) && Ring(b) else Ring(a) && Ring(Without(b, i))
  {
    KeepsApart(a, b);
    hide Ring, Without, Apart;
    LruRemove(e, if first then a else b, i);
    if first {
      assert Ring(b);
    } else {
      assert Ring(a);
    }
  }

  lemma KeepsApart(r: seq<LRUHandle>, q: seq<LRUHandle>)
    requires Apart(r, q)
    ensures forall k :: 0 <= k < |q| ==> q[k] !in r
    ensures forall k :: 0 <= k < |r| ==> r[k] !in q
  {
    forall k | 0 <= k < |q| ensures q[k] !in r {
      assert q[k] in q;
    }
    forall k | 0 <= k < |r| ensures r[k] !in q {
      assert r[k] in r;
    }
  }
}
