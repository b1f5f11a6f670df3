/** Cursors over sorted entries: a positioned cursor over one sorted run, and the merging iterator
    that presents many runs as one.  Both can turn around at any valid position. */
module Cursors {
  import opened InternalKeys

  /** A cursor over one sorted run of entries, as the index iterator of a level: an index that
      equals the length of the run when the cursor is not positioned. */
  class SortedCursor {
    const entries: seq<Entry>
    var index: nat

    ghost predicate Inv()
      reads this
    {
      Sorted(entries) && index <= |entries|
    }

    predicate Valid()
      reads this
    {
      index < |entries|
    }

    constructor (es: seq<Entry>)
      requires Sorted(es)
      ensures entries == es && Inv() && !Valid()
    {
      entries := es;
      index := |es|;
    }

    function Current(): Entry
      requires Valid()
      reads this
    {
      entries[index]
    }

    method SeekToFirst()
      requires Inv()
      modifies this
      ensures Inv() && index == 0
    {
      index := 0;
    }

    method SeekToLast()
      requires Inv()
      modifies this
      ensures Inv() && index == if entries == [] then 0 else |entries| - 1
    {
      index := if entries == [] then 0 else |entries| - 1;
    }

    method Next()
      requires Inv() && Valid()
      modifies this
      ensures Inv() && index == old(index) + 1
    {
      index := index + 1;
    }

    method Prev()
      requires Inv() && Valid()
      modifies this
      ensures Inv() && index == if old(index) == 0 then |entries| else old(index) - 1
    {
      index := if index == 0 then |entries| else index - 1;
    }

    method Seek(target: IKey)
      requires Inv()
      modifies this
      ensures Inv() && IsLowerBound(entries, target, index)
    {
      index := LowerBound(entries, target);
    }
  }

  /** Binary search for the first entry at or after `target`. */
  method LowerBound(es: seq<Entry>, target: IKey) returns (right: nat)
    requires Sorted(es)
    ensures IsLowerBound(es, target, right)
  {
    var left := 0;
    right := |es|;
    while left < right
      invariant left <= right <= |es|
      invariant forall j :: 0 <= j < left ==> Less(es[j].key, target)
      invariant forall j :: right <= j < |es| ==> !Less(es[j].key, target)
    {
      var mid := (left + right) / 2;
      if Less(es[mid].key, target) {
        left := mid + 1;
      } else {
        right := mid;
      }
    }
  }

  ghost predicate Disjoint(a: seq<Entry>, b: seq<Entry>) {
    forall e :: e in a ==> e !in b
  }

  /** `all` is the sorted union of the runs, and no two runs share an entry. */
  ghost predicate IsUnion(all: seq<Entry>, runs: seq<seq<Entry>>) {
    && Sorted(all)
    && (forall i :: 0 <= i < |runs| ==> Sorted(runs[i]))
    && (forall i, e :: 0 <= i < |runs| && e in runs[i] ==> e in all)
    && (forall e :: e in all ==> exists i :: 0 <= i < |runs| && e in runs[i])
    && (forall i, j :: 0 <= i < j < |runs| ==> Disjoint(runs[i], runs[j]))
  }

  /** Merge two sorted runs. */
  ghost function Merge(a: seq<Entry>, b: seq<Entry>): (m: seq<Entry>)
    ensures forall e :: e in m <==> e in a || e in b
  {
    if a == [] then b
    else if b == [] then a
    else if Less(a[0].key, b[0].key) then [a[0]] + Merge(a[1..], b)
    else [b[0]] + Merge(a, b[1..])
  }

  ghost function MergeAll(runs: seq<seq<Entry>>): seq<Entry> {
    if runs == [] then [] else Merge(runs[0], MergeAll(runs[1..]))
  }

  /** No internal key occurs in both runs. */
  ghost predicate KeysApart(a: seq<Entry>, b: seq<Entry>) {
    forall e, f :: e in a && f in b ==> Less(e.key, f.key) || Less(f.key, e.key)
  }

  /** A sorted run without its first entry is sorted, and comes after that entry. */
  lemma TailSorted(a: seq<Entry>)
    requires a != [] && Sorted(a)
    ensures Sorted(a[1..])
    ensures forall f :: f in a[1..] ==> f in a && Less(a[0].key, f.key)
  {
  }

  /** An entry before the first of a sorted run is before all of it. */
  lemma BeforeAll(e: Entry, a: seq<Entry>)
    requires a != [] && Sorted(a) && Less(e.key, a[0].key)
    ensures forall f :: f in a ==> Less(e.key, f.key)
  {
    TailSorted(a);
  }

  lemma {:induction false} MergeSorted(a: seq<Entry>, b: seq<Entry>)
    requires Sorted(a) && Sorted(b) && KeysApart(a, b)
    ensures Sorted(Merge(a, b))
  {
    hide Sorted;
    if a != [] && b != [] {
      assert a[0] in a && b[0] in b;
      if Less(a[0].key, b[0].key) {
        TailSorted(a);
        BeforeAll(a[0], b);
        MergeSorted(a[1..], b);
        PrependSorted(a[0], Merge(a[1..], b));
      } else {
        TailSorted(b);
        BeforeAll(b[0], a);
        MergeSorted(a, b[1..]);
        PrependSorted(b[0], Merge(a, b[1..]));
      }
    }
  }

  lemma PrependSorted(e: Entry, es: seq<Entry>)
    requires Sorted(es) && forall f :: f in es ==> Less(e.key, f.key)
    ensures Sorted([e] + es)
  {
    assert forall j :: 0 <= j < |es| ==> es[j] in es;
  }

  /** Sorted runs that share no internal key have a sorted union. */
  lemma {:induction false} UnionExists(runs: seq<seq<Entry>>)
    requires forall i :: 0 <= i < |runs| ==> Sorted(runs[i])
    requires forall i, j :: 0 <= i < j < |runs| ==> KeysApart(runs[i], runs[j])
    ensures IsUnion(MergeAll(runs), runs)
  {
    if runs != [] {
      UnionExists(runs[1..]);
      forall e, f | e in runs[0] && f in MergeAll(runs[1..])
        ensures Less(e.key, f.key) || Less(f.key, e.key)
      {
        var j :| 0 <= j < |runs[1..]| && f in runs[1..][j];
        assert KeysApart(runs[0], runs[j + 1]);
      }
      MergeSorted(runs[0], MergeAll(runs[1..]));
      forall i, e | 0 <= i < |runs| && e in runs[i]
        ensures e in MergeAll(runs)
      {
        assert i > 0 ==> runs[i] == runs[1..][i - 1];
      }
      forall e | e in MergeAll(runs)
        ensures exists i :: 0 <= i < |runs| && e in runs[i]
      {
        if e !in runs[0] {
          var j :| 0 <= j < |runs[1..]| && e in runs[1..][j];
          assert e in runs[j + 1];
        }
      }
    }
    forall i, j | 0 <= i < j < |runs|
      ensures Disjoint(runs[i], runs[j])
    {
      assert KeysApart(runs[i], runs[j]);
    }
  }

  /** A run stands at its first entry at or after position p of the union. */
  ghost predicate AlignedForward(all: seq<Entry>, p: nat, run: seq<Entry>, q: nat) {
    && p <= |all| && q <= |run|
    && (q < |run| ==> p < |all|)
    && (forall j :: 0 <= j < q && p < |all| ==> Less(run[j].key, all[p].key))
    && (forall j :: q <= j < |run| && p < |all| ==> !Less(run[j].key, all[p].key))
  }

  /** A run stands at its last entry at or before position p of the union, p == -1 being the
      position before the first entry; a run without such an entry is not positioned. */
  ghost predicate AlignedReverse(all: seq<Entry>, p: int, run: seq<Entry>, q: nat) {
    && -1 <= p < |all| && q <= |run|
    && (q < |run| ==>
          && p >= 0 && !Less(all[p].key, run[q].key)
          && (forall j :: q < j < |run| ==> Less(all[p].key, run[j].key)))
    && (q == |run| ==> forall j :: 0 <= j < |run| && p >= 0 ==> Less(all[p].key, run[j].key))
  }

  lemma EqualKeysSameEntry(all: seq<Entry>, m: nat, e: Entry)
    requires Sorted(all) && m < |all| && e in all
    requires !Less(e.key, all[m].key) && !Less(all[m].key, e.key)
    ensures e == all[m]
  {
    var j :| 0 <= j < |all| && all[j] == e;
  }

  /** The run that holds all[p] stands at it when the run is aligned at p, in either direction. */
  lemma OwnerStandsAt(all: seq<Entry>, p: nat, run: seq<Entry>, q: nat)
    requires Sorted(all) && Sorted(run) && p < |all| && all[p] in run
    requires AlignedForward(all, p, run, q) || AlignedReverse(all, p, run, q)
    requires forall e :: e in run ==> e in all
    ensures q < |run| && run[q] == all[p]
  {
    var j :| 0 <= j < |run| && run[j] == all[p];
    EqualKeysSameEntry(all, p, run[q]);
  }

  /** An entry of the union at or after all[p] other than all[p] itself is at or after all[p + 1]. */
  lemma NotAtOrBelow(all: seq<Entry>, p: nat, e: Entry)
    requires Sorted(all) && p < |all| && e in all && e != all[p] && !Less(e.key, all[p].key)
    ensures p + 1 < |all| && !Less(e.key, all[p + 1].key)
  {
    var m :| 0 <= m < |all| && all[m] == e;
    assert m > p;
    assert m > p + 1 ==> Less(all[p + 1].key, all[m].key);
  }

  /** A run aligned at p that is not the one holding all[p] is aligned at p + 1 as it stands. */
  lemma OthersStayForward(all: seq<Entry>, p: nat, run: seq<Entry>, q: nat)
    requires Sorted(all) && p < |all| && all[p] !in run
    requires forall e :: e in run ==> e in all
    requires AlignedForward(all, p, run, q)
    ensures AlignedForward(all, p + 1, run, q)
  {
    forall j | 0 <= j < q && p + 1 < |all|
      ensures Less(run[j].key, all[p + 1].key)
    {
      assert Less(all[p].key, all[p + 1].key);
    }
    forall j | q <= j < |run|
      ensures p + 1 < |all| && !Less(run[j].key, all[p + 1].key)
    {
      NotAtOrBelow(all, p, run[j]);
    }
    assert q < |run| ==> !Less(run[q].key, all[p + 1].key);
  }

  /** The run holding all[p], having stood at it, is aligned at p + 1 after one step. */
  lemma OwnerStepsForward(all: seq<Entry>, p: nat, run: seq<Entry>, q: nat)
    requires Sorted(all) && Sorted(run) && p < |all| && q < |run| && run[q] == all[p]
    requires forall e :: e in run ==> e in all
    ensures AlignedForward(all, p + 1, run, q + 1)
  {
    forall j | 0 <= j < q + 1 && p + 1 < |all|
      ensures Less(run[j].key, all[p + 1].key)
    {
      assert Less(all[p].key, all[p + 1].key);
      assert j < q ==> Less(run[j].key, run[q].key);
    }
    forall j | q + 1 <= j < |run|
      ensures p + 1 < |all| && !Less(run[j].key, all[p + 1].key)
    {
      assert Less(run[q].key, run[j].key);
      NotAtOrBelow(all, p, run[j]);
    }
    assert q + 1 < |run| ==> !Less(run[q + 1].key, all[p + 1].key);
  }

  lemma OthersStayReverse(all: seq<Entry>, p: nat, run: seq<Entry>, q: nat)
    requires Sorted(all) && p < |all| && all[p] !in run
    requires forall e :: e in run ==> e in all
    requires AlignedReverse(all, p, run, q)
    ensures AlignedReverse(all, p - 1, run, q)
  {
    forall j | 0 <= j < |run|
      ensures q < |run| && j == q ==> p >= 1 && !Less(all[p - 1].key, run[j].key)
      ensures (q == |run| || j > q) && p >= 1 ==> Less(all[p - 1].key, run[j].key)
    {
      assert run[j] in all;
      var m :| 0 <= m < |all| && all[m] == run[j];
    }
  }

  lemma OwnerStepsReverse(all: seq<Entry>, p: nat, run: seq<Entry>, q: nat)
    requires Sorted(all) && Sorted(run) && p < |all| && q < |run| && run[q] == all[p]
    requires forall e :: e in run ==> e in all
    ensures AlignedReverse(all, p - 1, run, if q == 0 then |run| else q - 1)
  {
    if q > 0 {
      assert run[q - 1] in all && Less(run[q - 1].key, run[q].key);
      var m :| 0 <= m < |all| && all[m] == run[q - 1];
      assert m < p;
    }
    forall j | q <= j < |run| && p >= 1
      ensures Less(all[p - 1].key, run[j].key)
    {
      assert Less(all[p - 1].key, all[p].key);
    }
  }

  /** Seeking a run and the union to the same key aligns them; stepping the run back from there
      aligns it in reverse. */
  lemma SeekAligns(all: seq<Entry>, target: IKey, p: nat, run: seq<Entry>, q: nat)
    requires Sorted(all) && IsLowerBound(all, target, p) && IsLowerBound(run, target, q)
    requires forall e :: e in run ==> e in all
    ensures AlignedForward(all, p, run, q)
  {
    forall j | q <= j < |run|
      ensures p < |all| && !Less(run[j].key, all[p].key)
    {
      assert run[j] in all;
      var m :| 0 <= m < |all| && all[m] == run[j];
      assert p <= m;
      assert p < m ==> Less(all[p].key, all[m].key);
    }
    assert q < |run| ==> !Less(run[q].key, all[p].key);
  }

  /** One step back from the first entry at or after all[p] aligns another run in reverse. */
  lemma StepBackAligns(all: seq<Entry>, p: nat, run: seq<Entry>, q: nat)
    requires Sorted(all) && Sorted(run) && p < |all| && IsLowerBound(run, all[p].key, q)
    requires all[p] !in run && forall e :: e in run ==> e in all
    ensures AlignedReverse(all, p, run, if q == 0 then |run| else q - 1)
  {
    forall j | q <= j < |run|
      ensures Less(all[p].key, run[j].key)
    {
      assert run[j] in all;
      if !Less(all[p].key, run[j].key) {
        EqualKeysSameEntry(all, p, run[j]);
      }
    }
  }

  /** The first entries of a run and of the union align, and so do the last ones. */
  lemma EndsAlign(all: seq<Entry>, run: seq<Entry>)
    requires Sorted(all) && Sorted(run)
    requires forall e :: e in run ==> e in all
    ensures AlignedForward(all, 0, run, 0)
    ensures AlignedReverse(all, |all| - 1, run, if run == [] then 0 else |run| - 1)
  {
    assert run != [] ==> run[0] in all;
    forall j | 0 <= j < |run|
      ensures |all| > 0 && !Less(run[j].key, all[0].key) && !Less(all[|all| - 1].key, run[j].key)
    {
      assert run[j] in all;
      var m :| 0 <= m < |all| && all[m] == run[j];
    }
  }

  /** Put a child at its last entry before `key`. */
  method SeekBefore(child: SortedCursor, ghost all: seq<Entry>, ghost p: nat, key: IKey)
    requires child.Inv() && Sorted(all) && p < |all| && key == all[p].key && all[p] !in child.entries
    requires forall e :: e in child.entries ==> e in all
    modifies child
    ensures child.Inv() && AlignedReverse(all, p, child.entries, child.index)
  {
    child.Seek(key);
    StepBackAligns(all, p, child.entries, child.index);
    if child.Valid() {
      // The child is at its first entry at or after key: one step back puts it before key.
      child.Prev();
    } else {
      // The child has no entry at or after key.
      child.SeekToLast();
    }
  }

  /** The merging iterator: a cursor over the sorted union of its children. */
  class MergingIterator {
    const children: seq<SortedCursor>
    var current: int      // index of the child that supplies the current entry, -1 when there is none
    var forward: bool
    ghost const all: seq<Entry>       // the sorted union of the children
    ghost const runs: seq<seq<Entry>> // the entries of each child
    ghost var pos: nat                // position in `all`, |all| when not positioned

    ghost predicate ChildrenOk()
      reads children
    {
      && |runs| == |children|
      && (forall i, j :: 0 <= i < j < |children| ==> children[i] != children[j])
      && (forall i :: 0 <= i < |children| ==> children[i].Inv() && children[i].entries == runs[i])
      && IsUnion(all, runs)
    }

    ghost predicate AllForward(p: nat)
      requires ChildrenOk()
      reads children
    {
      forall i :: 0 <= i < |children| ==> AlignedForward(all, p, runs[i], children[i].index)
    }

    ghost predicate AllReverse(p: int)
      requires ChildrenOk()
      reads children
    {
      forall i :: 0 <= i < |children| ==> AlignedReverse(all, p, runs[i], children[i].index)
    }

    /** In forward mode every child stands at its first entry at or after the current one, in
        reverse mode at its last entry at or before it; the current child is positioned. */
    ghost predicate Inv()
      reads this, children
    {
      && ChildrenOk()
      && pos <= |all|
      && (current == -1 <==> pos == |all|)
      && (current != -1 ==>
            && 0 <= current < |children|
            && children[current].Valid()
            && children[current].Current() == all[pos]
            && if forward then AllForward(pos) else AllReverse(pos))
    }

    predicate Valid()
      reads this
    {
      current != -1
    }

    /** What a client needs of the invariant: a position in a sorted sequence. */
    lemma IsCursor()
      requires Inv()
      ensures Sorted(all) && pos <= |all| && (Valid() <==> pos < |all|)
    {
    }

    function Current(): (e: Entry)
      requires Inv() && Valid()
      reads this, children
      ensures e == all[pos]
    {
      children[current].Current()
    }

    constructor (cs: seq<SortedCursor>, ghost rs: seq<seq<Entry>>, ghost union: seq<Entry>)
      requires forall i, j :: 0 <= i < j < |cs| ==> cs[i] != cs[j]
      requires |rs| == |cs| && IsUnion(union, rs)
      requires forall i :: 0 <= i < |cs| ==> cs[i].Inv() && cs[i].entries == rs[i]
      ensures Inv() && !Valid() && children == cs && all == union && runs == rs
    {
      children := cs;
      current := -1;
      forward := true;
      all := union;
      runs := rs;
      pos := |union|;
    }

    method FindSmallest(ghost p: nat)
      requires ChildrenOk() && AllForward(p) && p <= |all| && forward
      modifies this
      ensures Inv() && pos == p && forward
    {
      var smallest := -1;
      for i := 0 to |children|
        invariant -1 <= smallest < i
        invariant smallest == -1 ==> forall j :: 0 <= j < i ==> !children[j].Valid()
        invariant smallest != -1 ==>
            && children[smallest].Valid()
            && forall j :: 0 <= j < i && children[j].Valid() ==>
                !Less(children[j].Current().key, children[smallest].Current().key)
      {
        var child := children[i];
        if child.Valid() {
          if smallest == -1 {
            smallest := i;
          } else if Less(child.Current().key, children[smallest].Current().key) {
            smallest := i;
          }
        }
      }
      if p < |all| {
        assert all[p] in all;
        ghost var i :| 0 <= i < |runs| && all[p] in runs[i];
        OwnerStandsAt(all, p, runs[i], children[i].index);
        assert children[smallest].Current() in runs[smallest];
        EqualKeysSameEntry(all, p, children[smallest].Current());
      } else {
        assert smallest == -1;
      }
      current := smallest;
      pos := p;
    }

    method FindLargest(ghost p: int)
      requires ChildrenOk() && AllReverse(p) && -1 <= p < |all| && !forward
      modifies this
      ensures Inv() && pos == (if p == -1 then |all| else p) && !forward
    {
      var largest := -1;
      var i := |children| - 1;
      while i >= 0
        invariant -1 <= i < |children|
        invariant largest == -1 || i < largest < |children|
        invariant largest == -1 ==> forall j :: i < j < |children| ==> !children[j].Valid()
        invariant largest != -1 ==>
            && children[largest].Valid()
            && forall j :: i < j < |children| && children[j].Valid() ==>
                !Less(children[largest].Current().key, children[j].Current().key)
      {
        var child := children[i];
        if child.Valid() {
          if largest == -1 {
            largest := i;
          } else if Less(children[largest].Current().key, child.Current().key) {
            largest := i;
          }
        }
        i := i - 1;
      }
      if p >= 0 {
        assert all[p] in all;
        ghost var c :| 0 <= c < |runs| && all[p] in runs[c];
        OwnerStandsAt(all, p, runs[c], children[c].index);
        assert children[largest].Current() in runs[largest];
        EqualKeysSameEntry(all, p, children[largest].Current());
      } else {
        assert largest == -1;
      }
      current := largest;
      pos := if p == -1 then |all| else p;
    }

    method SeekToFirst()
      requires Inv()
      modifies this, children
      ensures Inv() && pos == 0
    {
      for i := 0 to |children|
        invariant ChildrenOk()
        invariant forall j :: 0 <= j < i ==> AlignedForward(all, 0, runs[j], children[j].index)
      {
        children[i].SeekToFirst();
        EndsAlign(all, runs[i]);
      }
      forward := true;
      FindSmallest(0);
    }

    method SeekToLast()
      requires Inv()
      modifies this, children
      ensures Inv() && pos == if all == [] then 0 else |all| - 1
    {
      for i := 0 to |children|
        invariant ChildrenOk()
        invariant forall j :: 0 <= j < i ==> AlignedReverse(all, |all| - 1, runs[j], children[j].index)
      {
        children[i].SeekToLast();
        EndsAlign(all, runs[i]);
      }
      forward := false;
      FindLargest(|all| - 1);
    }

    method Seek(target: IKey)
      requires Inv()
      modifies this, children
      ensures Inv() && IsLowerBound(all, target, pos)
    {
      ghost var p := LowerBoundOf(all, target);
      for i := 0 to |children|
        invariant ChildrenOk()
        invariant forall j :: 0 <= j < i ==> AlignedForward(all, p, runs[j], children[j].index)
      {
        children[i].Seek(target);
        SeekAligns(all, target, p, runs[i], children[i].index);
      }
      forward := true;
      FindSmallest(p);
    }

    method Next()
      requires Inv() && Valid()
      modifies this, children
      ensures Inv() && pos == old(pos) + 1
    {
      hide IsUnion, AlignedForward, AlignedReverse, Sorted;
      if !forward {
        TurnForward();
      }
      ghost var p := pos;
      RunOk(current);
      OwnerStepsForward(all, p, runs[current], children[current].index);
      children[current].Next();
      forall i | 0 <= i < |children| && i != current
        ensures AlignedForward(all, p + 1, runs[i], children[i].index)
      {
        RunOk(i);
        NotShared(i, current, all[p]);
        OthersStayForward(all, p, runs[i], children[i].index);
      }
      FindSmallest(p + 1);
    }

    method Prev()
      requires Inv() && Valid()
      modifies this, children
      ensures Inv() && pos == if old(pos) == 0 then |all| else old(pos) - 1
    {
      hide IsUnion, AlignedForward, AlignedReverse, Sorted;
      if forward {
        TurnReverse();
      }
      ghost var p: int := pos;
      RunOk(current);
      OwnerStepsReverse(all, p, runs[current], children[current].index);
      children[current].Prev();
      forall i | 0 <= i < |children| && i != current
        ensures AlignedReverse(all, p - 1, runs[i], children[i].index)
      {
        RunOk(i);
        NotShared(i, current, all[p]);
        OthersStayReverse(all, p, runs[i], children[i].index);
      }
      FindLargest(p - 1);
    }

    lemma RunOk(i: nat)
      requires ChildrenOk() && i < |runs|
      ensures Sorted(all) && Sorted(runs[i]) && forall e :: e in runs[i] ==> e in all
    {
    }

    lemma NotShared(i: nat, j: nat, e: Entry)
      requires ChildrenOk() && i < |runs| && j < |runs| && i != j && e in runs[j]
      ensures e !in runs[i]
    {
      assert Disjoint(runs[if i < j then i else j], runs[if i < j then j else i]);
    }

    /** Next after a reverse step: put every other child at its first entry after the current one. */
    method TurnForward()
      requires Inv() && Valid() && !forward
      modifies this, children
      ensures Inv() && Valid() && forward && pos == old(pos)
    {
      var key := Current().key;
      assert IsLowerBound(all, key, pos);
      for i := 0 to |children|
        invariant ChildrenOk()
        invariant pos == old(pos) && current == old(current) && IsLowerBound(all, key, pos)
        invariant 0 <= current < |children| && children[current].index == old(children[current].index)
        invariant forall j :: 0 <= j < i && j != current ==>
            AlignedForward(all, pos, runs[j], children[j].index)
      {
        if i != current {
          children[i].Seek(key);
          SeekAligns(all, key, pos, runs[i], children[i].index);
          NotShared(i, current, all[pos]);
          if children[i].Valid() && children[i].Current().key == key {
            assert children[i].Current() in runs[i];
            EqualKeysSameEntry(all, pos, children[i].Current());
            assert false;  // keys are unique, so no child needs the extra step
          }
        }
      }
      forward := true;
      CurrentAligned(children[current].index);
    }

    /** Prev after a forward step: put every other child at its last entry before the current one. */
    method TurnReverse()
      requires Inv() && Valid() && forward
      modifies this, children
      ensures Inv() && Valid() && !forward && pos == old(pos)
    {
      var key := Current().key;
      assert IsLowerBound(all, key, pos);
      for i := 0 to |children|
        invariant ChildrenOk()
        invariant pos == old(pos) && current == old(current) && IsLowerBound(all, key, pos)
        invariant 0 <= current < |children| && children[current].index == old(children[current].index)
        invariant forall j :: 0 <= j < i && j != current ==>
            AlignedReverse(all, pos, runs[j], children[j].index)
      {
        if i != current {
          NotShared(i, current, all[pos]);
          SeekBefore(children[i], all, pos, key);
        }
      }
      forward := false;
      CurrentAligned(children[current].index);
    }

    /** The run that stands exactly at position pos is aligned there in both directions. */
    lemma CurrentAligned(q: nat)
      requires ChildrenOk() && 0 <= current < |runs| && q < |runs[current]| && pos < |all|
      requires runs[current][q] == all[pos]
      ensures AlignedForward(all, pos, runs[current], q) && AlignedReverse(all, pos, runs[current], q)
    {
      var run := runs[current];
      forall j | 0 <= j < |run|
        ensures j < q ==> Less(run[j].key, run[q].key)
        ensures j > q ==> Less(run[q].key, run[j].key)
      {
      }
    }
  }
}
