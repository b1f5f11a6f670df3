/** The two-level iterator: an index cursor picks a block, a data cursor walks inside it, and
    together they are one cursor over the concatenation of the blocks. */
module TwoLevel {
  import opened InternalKeys
  import opened Cursors

  ghost function Concat(blocks: seq<seq<Entry>>): seq<Entry> {
    if blocks == [] then [] else blocks[0] + Concat(blocks[1..])
  }

  /** Where block i starts in the concatenation. */
  ghost function Offset(blocks: seq<seq<Entry>>, i: nat): nat
    requires i <= |blocks|
  {
    if i == 0 then 0 else |blocks[0]| + Offset(blocks[1..], i - 1)
  }

  lemma {:induction false} OffsetStep(blocks: seq<seq<Entry>>, i: nat)
    requires i < |blocks|
    ensures Offset(blocks, i + 1) == Offset(blocks, i) + |blocks[i]|
  {
    if i > 0 {
      OffsetStep(blocks[1..], i - 1);
    }
  }

  lemma {:induction false} OffsetEnd(blocks: seq<seq<Entry>>)
    ensures Offset(blocks, |blocks|) == |Concat(blocks)|
  {
    if blocks != [] {
      OffsetEnd(blocks[1..]);
    }
  }

  lemma {:induction false} ConcatAt(blocks: seq<seq<Entry>>, i: nat, j: nat)
    requires i < |blocks| && j < |blocks[i]|
    ensures Offset(blocks, i) + j < |Concat(blocks)|
    ensures Concat(blocks)[Offset(blocks, i) + j] == blocks[i][j]
  {
    if i > 0 {
      ConcatAt(blocks[1..], i - 1, j);
    }
  }

  /** Every position of the concatenation lies in a block. */
  lemma {:induction false} Locate(blocks: seq<seq<Entry>>, p: nat) returns (i: nat, j: nat)
    requires p < |Concat(blocks)|
    ensures i < |blocks| && j < |blocks[i]| && p == Offset(blocks, i) + j
  {
    if p < |blocks[0]| {
      i, j := 0, p;
    } else {
      i, j := Locate(blocks[1..], p - |blocks[0]|);
      i := i + 1;
    }
  }

  lemma {:induction false} OffsetsAscend(blocks: seq<seq<Entry>>, i: nat, k: nat)
    requires i <= k <= |blocks|
    ensures Offset(blocks, i) <= Offset(blocks, k)
  {
    if i < k {
      OffsetsAscend(blocks, i, k - 1);
      OffsetStep(blocks, k - 1);
    }
  }

  /** Each index key is at or after the last entry of its block and before the first of the next,
      and no two index entries carry the same block handle. */
  ghost predicate IndexFits(index: seq<Entry>, blocks: seq<seq<Entry>>) {
    && |index| == |blocks| && Sorted(index)
    && (forall i, j :: 0 <= i < |blocks| && 0 <= j < |blocks[i]| ==> !Less(index[i].key, blocks[i][j].key))
    && (forall i, j :: 0 < i < |blocks| && 0 <= j < |blocks[i]| ==> Less(index[i - 1].key, blocks[i][j].key))
    && (forall i, k :: 0 <= i < k < |index| ==> index[i].value != index[k].value)
  }

  class TwoLevelIterator {
    const index: SortedCursor
    const blocks: seq<seq<Entry>>  // what the block function returns for each index entry
    var data: SortedCursor?
    var dataHandle: Bytes          // the handle `data` was made from
    ghost var pos: nat             // position in the concatenation of the blocks

    ghost function All(): seq<Entry> {
      Concat(blocks)
    }

    /** The data cursor, when there is one, walks the block the index cursor stands at. */
    ghost predicate InSync()
      reads this, index, data
    {
      && index.Inv() && IndexFits(index.entries, blocks)
      && (forall i :: 0 <= i < |blocks| ==> Sorted(blocks[i]))
      && Sorted(All())
      && (data != null ==>
            && data != index && data.Inv() && index.Valid()
            && data.entries == blocks[index.index]
            && dataHandle == index.entries[index.index].value)
    }

    ghost predicate Inv()
      reads this, index, data
    {
      && InSync()
      && if data == null then pos == |All()|
         else data.Valid() && pos == Offset(blocks, index.index) + data.index && pos < |All()|
    }

    predicate Valid()
      reads this, data
    {
      data != null && data.Valid()
    }

    function Current(): (e: Entry)
      requires Inv() && Valid()
      reads this, index, data
      ensures pos < |All()| && e == All()[pos]
    {
      ConcatAt(blocks, index.index, data.index);
      data.Current()
    }

    constructor (indexCursor: SortedCursor, bs: seq<seq<Entry>>)
      requires indexCursor.Inv() && IndexFits(indexCursor.entries, bs)
      requires (forall i :: 0 <= i < |bs| ==> Sorted(bs[i])) && Sorted(Concat(bs))
      ensures Inv() && !Valid() && index == indexCursor && blocks == bs
    {
      index := indexCursor;
      blocks := bs;
      data := null;
      dataHandle := [];
      pos := |Concat(bs)|;
    }

    /** Make the data cursor walk the block the index cursor stands at; a cursor already made from
        the same handle is kept where it is. */
    method InitDataBlock()
      requires index.Inv() && IndexFits(index.entries, blocks)
      requires (forall i :: 0 <= i < |blocks| ==> Sorted(blocks[i])) && Sorted(All())
      requires data != null ==> data != index && data.Inv()
      requires data != null ==>
          exists i :: 0 <= i < |blocks| && data.entries == blocks[i] && dataHandle == index.entries[i].value
      modifies this
      ensures InSync() && pos == old(pos)
      ensures data != null <==> index.Valid()
      ensures data != null ==> dataHandle == index.Current().value
      ensures data != null ==>
          if old(data) != null && index.Current().value == old(dataHandle) then data == old(data) else fresh(data) && !data.Valid()
    {
      if !index.Valid() {
        data := null;
      } else {
        var handle := index.Current().value;
        if data != null && handle == dataHandle {
          // The data cursor is already the one for this block.
        } else {
          data := new SortedCursor(blocks[index.index]);
          dataHandle := handle;
        }
      }
    }

    /** From a data cursor that may have run off the end of its block, go on to the next entry. */
    method SkipEmptyDataBlocksForward(ghost p: nat)
      requires InSync()
      requires if data == null then !index.Valid() && p == |All()|
          else p == Offset(blocks, index.index) + data.index
      modifies this, index, data
      ensures Inv() && pos == p
      ensures data == null || data == old(data) || fresh(data)
    {
      while data == null || !data.Valid()
        invariant InSync()
        invariant if data == null then !index.Valid() && p == |All()|
            else p == Offset(blocks, index.index) + data.index
        invariant data == null || data == old(data) || fresh(data)
        decreases |blocks| - index.index, data != null
      {
        if !index.Valid() {
          data := null;
          pos := p;
          return;
        }
        OffsetStep(blocks, index.index);
        index.Next();
        if !index.Valid() {
          OffsetEnd(blocks);
        }
        InitDataBlock();
        if data != null {
          data.SeekToFirst();
        }
      }
      pos := p;
      ConcatAt(blocks, index.index, data.index);
    }

    /** From a data cursor that may have run off the front of its block, go back to the previous
        entry; p is the position before the one the caller came from. */
    method SkipEmptyDataBlocksBackward(ghost p: int)
      requires InSync() && -1 <= p
      requires if data == null then !index.Valid() && p == -1
          else if data.Valid() then p == Offset(blocks, index.index) + data.index
          else p == Offset(blocks, index.index) - 1
      modifies this, index, data
      ensures Inv() && pos == if p == -1 then |All()| else p
      ensures data == null || data == old(data) || fresh(data)
    {
      while data == null || !data.Valid()
        invariant InSync()
        invariant if data == null then !index.Valid() && p == -1
            else if data.Valid() then p == Offset(blocks, index.index) + data.index
            else p == Offset(blocks, index.index) - 1
        invariant data == null || data == old(data) || fresh(data)
        decreases if index.Valid() then index.index + 1 else 0, data != null
      {
        if !index.Valid() {
          data := null;
          pos := |All()|;
          return;
        }
        ghost var i := index.index;
        index.Prev();
        if index.Valid() {
          OffsetStep(blocks, index.index);
        }
        InitDataBlock();
        if data != null {
          data.SeekToLast();
        }
      }
      pos := p;
      ConcatAt(blocks, index.index, data.index);
    }

    method SeekToFirst()
      requires Inv()
      modifies this, index, data
      ensures Inv() && pos == 0
      ensures data == null || data == old(data) || fresh(data)
    {
      index.SeekToFirst();
      InitDataBlock();
      if data != null {
        data.SeekToFirst();
      } else {
        OffsetEnd(blocks);
      }
      SkipEmptyDataBlocksForward(0);
    }

    method SeekToLast()
      requires Inv()
      modifies this, index, data
      ensures Inv() && pos == if All() == [] then 0 else |All()| - 1
      ensures data == null || data == old(data) || fresh(data)
    {
      index.SeekToLast();
      InitDataBlock();
      OffsetEnd(blocks);
      if data != null {
        OffsetStep(blocks, index.index);
        data.SeekToLast();
      }
      SkipEmptyDataBlocksBackward(|All()| - 1);
    }

    method Next()
      requires Inv() && Valid()
      modifies this, index, data
      ensures Inv() && pos == old(pos) + 1
      ensures data == null || data == old(data) || fresh(data)
    {
      data.Next();
      SkipEmptyDataBlocksForward(pos + 1);
    }

    method Prev()
      requires Inv() && Valid()
      modifies this, index, data
      ensures Inv() && pos == if old(pos) == 0 then |All()| else old(pos) - 1
      ensures data == null || data == old(data) || fresh(data)
    {
      data.Prev();
      SkipEmptyDataBlocksBackward(pos - 1);
    }

    method Seek(target: IKey)
      requires Inv()
      modifies this, index, data
      ensures Inv() && IsLowerBound(All(), target, pos)
      ensures data == null || data == old(data) || fresh(data)
    {
      index.Seek(target);
      InitDataBlock();
      ghost var p;
      if data != null {
        data.Seek(target);
        p := Offset(blocks, index.index) + data.index;
        LowerBoundInBlock(index.entries, blocks, target, index.index, data.index);
      } else {
        p := |All()|;
        LowerBoundPastEnd(index.entries, blocks, target);
      }
      SkipEmptyDataBlocksForward(p);
    }
  }

  /** Seeking in the first block whose index key is at or after the target finds the first entry of
      the whole concatenation at or after it. */
  lemma LowerBoundInBlock(index: seq<Entry>, blocks: seq<seq<Entry>>, target: IKey, i: nat, j: nat)
    requires IndexFits(index, blocks) && IsLowerBound(index, target, i) && i < |blocks|
    requires IsLowerBound(blocks[i], target, j)
    ensures IsLowerBound(Concat(blocks), target, Offset(blocks, i) + j)
  {
    var all, p := Concat(blocks), Offset(blocks, i) + j;
    OffsetStep(blocks, i);
    OffsetsAscend(blocks, i + 1, |blocks|);
    OffsetEnd(blocks);
    forall q | 0 <= q < |all|
      ensures q < p <==> Less(all[q].key, target)
    {
      BlockOfPosition(index, blocks, target, i, j, q);
    }
  }

  lemma BlockOfPosition(index: seq<Entry>, blocks: seq<seq<Entry>>, target: IKey, i: nat, j: nat, q: nat)
    requires IndexFits(index, blocks) && IsLowerBound(index, target, i) && i < |blocks|
    requires IsLowerBound(blocks[i], target, j) && q < |Concat(blocks)|
    ensures q < Offset(blocks, i) + j <==> Less(Concat(blocks)[q].key, target)
  {
    var k, l := Locate(blocks, q);
    ConcatAt(blocks, k, l);
    OffsetStep(blocks, k);
    OffsetStep(blocks, i);
    if k < i {
      OffsetsAscend(blocks, k + 1, i);
      assert Less(index[k].key, target) && !Less(index[k].key, blocks[k][l].key);
    } else if k > i {
      OffsetsAscend(blocks, i + 1, k);
      assert !Less(index[k - 1].key, target) && Less(index[k - 1].key, blocks[k][l].key);
    }
  }

  lemma LowerBoundPastEnd(index: seq<Entry>, blocks: seq<seq<Entry>>, target: IKey)
    requires IndexFits(index, blocks) && IsLowerBound(index, target, |index|)
    ensures IsLowerBound(Concat(blocks), target, |Concat(blocks)|)
  {
    forall q | 0 <= q < |Concat(blocks)|
      ensures Less(Concat(blocks)[q].key, target)
    {
      var i, j := Locate(blocks, q);
      ConcatAt(blocks, i, j);
      assert Less(index[i].key, target);
    }
  }
}
