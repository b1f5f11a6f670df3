/** Group commit: writers queue up, the front one writes a batch for itself and some of those behind it,
    and releases the lock while it does.  Each method is what one thread does while it holds the lock, or
    one call it makes after releasing it; the methods may be called in any order that their guards allow,
    so what the invariant says holds in every interleaving. */
module WriteQueues {
  import opened InternalKeys

  datatype Op = Op(kind: ValueType, key: Bytes, value: Bytes)

  /** What became of a call of Write: the first sequence number of its batch and its log record, if it
      returned OK. */
  datatype Outcome = Pending | Failed | Acknowledged(first: nat, record: nat)

  /** A call of Write; a null batch asks for the memtable to be compacted.  A writer is active when it has
      stopped waiting, without having been told that it is done. */
  datatype Writer = Writer(batch: Option<seq<Op>>, sync: bool, active: bool, outcome: Outcome)

  /** A record of the log: a batch with its first sequence number. */
  datatype Record = Record(first: nat, ops: seq<Op>)

  datatype MemEntry = MemEntry(sequence: nat, op: Op)

  /** How far the front writer has come with a batch, the lock released. */
  datatype Progress =
    | ToLog
    | ToSync(record: nat)
    | ToInsert(record: nat)
    | Inserted(record: nat)
    | Broken(syncError: bool)

  datatype Stage =
    | Idle
    | MakingRoom(force: bool)  // force: a new memtable is still to be started
    | Writing(n: nat, updates: seq<Op>, usesTmp: bool, progress: Progress)

  /** The operations of a batch. */
  function Ops(w: Writer): seq<Op> {
    if w.batch.Some? then w.batch.value else []
  }

  /** The operations of some writers, one batch after the other. */
  function Batched(ws: seq<Writer>): seq<Op> {
    if ws == [] then [] else Batched(ws[..|ws| - 1]) + Ops(ws[|ws| - 1])
  }

  /** Operations with consecutive sequence numbers. */
  function Numbered(first: nat, ops: seq<Op>): (es: seq<MemEntry>)
    ensures |es| == |ops|
    ensures forall i :: 0 <= i < |ops| ==> es[i] == MemEntry(first + i, ops[i])
  {
    seq(|ops|, i requires 0 <= i < |ops| => MemEntry(first + i, ops[i]))
  }

  /** The acknowledged batches, in the order of the queue, with their sequence numbers. */
  function Applied(ws: seq<Writer>): seq<MemEntry> {
    if ws == [] then []
    else
      var w := ws[|ws| - 1];
      Applied(ws[..|ws| - 1]) + if w.outcome.Acknowledged? then Numbered(w.outcome.first, Ops(w)) else []
  }

  /** Sequence numbers grow along the queue, and stay below a bound. */
  ghost predicate InSequence(ws: seq<Writer>, bound: nat) {
    && (forall i, j :: 0 <= i < j < |ws| && ws[i].outcome.Acknowledged? && ws[j].outcome.Acknowledged? ==>
          ws[i].outcome.first + |Ops(ws[i])| <= ws[j].outcome.first)
    && (forall i :: 0 <= i < |ws| && ws[i].outcome.Acknowledged? ==> 0 < ws[i].outcome.first && ws[i].outcome.first + |Ops(ws[i])| <= bound)
  }

  /** A batch lies in a record of the log under its own sequence numbers. */
  ghost predicate InRecord(r: Record, first: nat, ops: seq<Op>) {
    && r.first <= first && first - r.first + |ops| <= |r.ops|
    && r.ops[first - r.first..first - r.first + |ops|] == ops
  }

  /** Every acknowledged batch is in the log, and in its synced part if its writer asked for that. */
  ghost predicate Logged(ws: seq<Writer>, log: seq<Record>, synced: nat) {
    forall i :: 0 <= i < |ws| && ws[i].outcome.Acknowledged? && ws[i].batch.Some? ==>
      && ws[i].outcome.record < |log|
      && InRecord(log[ws[i].outcome.record], ws[i].outcome.first, Ops(ws[i]))
      && (ws[i].sync ==> ws[i].outcome.record < synced)
  }

  /** The size of the batches of some writers. */
  function GroupSize(ws: seq<Writer>, byteSize: seq<Op> -> nat): nat {
    if ws == [] then 0
    else
      var w := ws[|ws| - 1];
      GroupSize(ws[..|ws| - 1], byteSize) + if w.batch.Some? then byteSize(w.batch.value) else 0
  }

  /** How large a group may grow around a leader: a small write must not be slowed down too much. */
  function MaxSize(size: nat): nat {
    if size <= 131072 then size + 131072 else 1048576
  }

  /** A group of some writers may not take in the next one. */
  ghost predicate Refused(group: seq<Writer>, next: Writer, byteSize: seq<Op> -> nat)
    requires group != [] && group[0].batch.Some?
  {
    || (next.sync && !group[0].sync)
    || (next.batch.Some? &&
        GroupSize(group, byteSize) + byteSize(next.batch.value) > MaxSize(byteSize(group[0].batch.value)))
  }

  /** The writer j places behind the front of a queue may join all those before it. */
  ghost predicate Joins(ws: seq<Writer>, head: nat, j: nat, byteSize: seq<Op> -> nat) {
    0 < j && head + j < |ws| && ws[head].batch.Some? && !Refused(ws[head..head + j], ws[head + j], byteSize)
  }

  ghost predicate AllJoin(ws: seq<Writer>, head: nat, n: nat, byteSize: seq<Op> -> nat) {
    forall j :: 0 < j < n ==> Joins(ws, head, j, byteSize)
  }

  /** The operations of a group, and the size of its batches. */
  ghost predicate Gathered(ws: seq<Writer>, head: nat, n: nat, byteSize: seq<Op> -> nat, updates: seq<Op>, size: nat) {
    && head + n <= |ws|
    && updates == Batched(ws[head..head + n]) && size == GroupSize(ws[head..head + n], byteSize)
  }

  /** A group holds a batch besides that of its leader. */
  ghost predicate HasMore(ws: seq<Writer>, head: int, n: nat) {
    exists t :: head < t < head + n && 0 <= t < |ws| && ws[t].batch.Some?
  }

  /** The group is the longest that the rules allow among the writers that were waiting. */
  ghost predicate LongestGroup(ws: seq<Writer>, head: nat, n: nat, waiting: nat, byteSize: seq<Op> -> nat) {
    && 0 < n <= waiting && head + waiting <= |ws| && ws[head].batch.Some?
    && AllJoin(ws, head, n, byteSize) && (n < waiting ==> !Joins(ws, head, n, byteSize))
  }

  /** The writers for whom a new memtable was started because they asked for one: of those that were
      acknowledged without a batch, exactly the ones that led. */
  ghost predicate RoomFor(ws: seq<Writer>, forced: set<nat>) {
    && (forall t :: t in forced ==> t < |ws| && ws[t].active && ws[t].batch.None?)
    && (forall t :: 0 <= t < |ws| && ws[t].active && ws[t].batch.None? && ws[t].outcome.Acknowledged? ==> t in forced)
  }

  /** The queue holds the last writers, in order, and they are those whose outcome is pending. */
  ghost predicate InQueue(writers: seq<Writer>, queue: seq<nat>) {
    && |queue| <= |writers|
    && (forall k :: 0 <= k < |queue| ==> queue[k] == |writers| - |queue| + k)
    && (forall t :: 0 <= t < |writers| ==> (writers[t].outcome.Pending? <==> t >= |writers| - |queue|))
  }

  lemma PopKeeps(writers: seq<Writer>, queue: seq<nat>, outcome: Outcome)
    requires InQueue(writers, queue) && queue != [] && !outcome.Pending?
    ensures queue[0] == |writers| - |queue| < |writers|
    ensures InQueue(writers[queue[0] := writers[queue[0]].(outcome := outcome)], queue[1..])
  {
  }

  /** The n writers from `head` on were told the same status, and nothing else was changed. */
  ghost predicate Told(was: seq<Writer>, now: seq<Writer>, head: int, n: nat, ok: bool) {
    && |now| == |was| && 0 <= head && head + n <= |was|
    && (forall t :: 0 <= t < |was| && !(head <= t < head + n) ==> now[t] == was[t])
    && (forall t :: head <= t < head + n ==>
          && now[t] == was[t].(outcome := now[t].outcome)
          && (now[t].outcome.Acknowledged? <==> ok) && !now[t].outcome.Pending?)
  }

  class WriteQueue {
    const byteSize: seq<Op> -> nat

    var writers: seq<Writer>  // every call of Write so far, in the order they joined the queue
    var queue: seq<nat>       // those that wait, front first
    var tmpBatch: seq<Op>
    var lastSequence: nat
    var log: seq<Record>
    var mem: seq<MemEntry>    // what went into memtables, one memtable after the other
    var switches: seq<nat>    // where in it each new memtable began
    var bgError: bool
    var stage: Stage
    ghost var synced: nat     // how many records of the log are known to be on disk
    ghost var waiting: nat    // how many writers waited when the group was built
    ghost var forced: set<nat>  // the writers at whose request a new memtable was started
    ghost var failures: nat   // how many syncs failed, and errors the compaction thread hit

    ghost function Head(): int
      reads this`writers, this`queue
    {
      |writers| - |queue|
    }

    ghost predicate Queued()
      reads this`writers, this`queue
    {
      InQueue(writers, queue)
    }

    /** The batch being written is that of the first n writers in the queue. */
    ghost predicate StageOk()
      requires Queued()
      reads this`writers, this`queue, this`stage, this`tmpBatch, this`log, this`lastSequence, this`synced, this`waiting
    {
      match stage
      case Idle => tmpBatch == []
      case MakingRoom(_) => queue != [] && tmpBatch == []
      case Writing(n, updates, usesTmp, progress) =>
        && 0 < n <= |queue| && writers[Head()].batch.Some?
        && waiting <= |queue| && LongestGroup(writers, Head(), n, waiting, byteSize)
        && updates == Batched(writers[Head()..Head() + n])
        && (forall t :: Head() <= t < Head() + n && writers[t].sync ==> writers[Head()].sync)
        && (if usesTmp then tmpBatch == updates else tmpBatch == [])
        && (match progress
            case ToLog => true
            case ToSync(r) => r < |log| && log[r] == Record(lastSequence + 1, updates) && writers[Head()].sync
            case ToInsert(r) => Durable(r, updates)
            case Inserted(r) => Durable(r, updates)
            case Broken(_) => true)
    }

    /** At most one writer is active at a time: the one at the front. */
    ghost predicate OneActive()
      requires Queued()
      reads this`writers, this`queue, this`stage
    {
      && (forall t :: Head() <= t < |writers| && writers[t].active ==> t == Head() && stage != Idle)
      && (stage != Idle ==> queue != [] && writers[Head()].active)
    }

    ghost predicate Durable(r: nat, updates: seq<Op>)
      requires Queued() && queue != []
      reads this`writers, this`queue, this`log, this`lastSequence, this`synced
    {
      r < |log| && log[r] == Record(lastSequence + 1, updates) && (writers[Head()].sync ==> r < synced)
    }

    /** The writer at the front gets room only after the new memtable it asked for. */
    ghost predicate RoomOk()
      requires Queued()
      reads this`writers, this`queue, this`stage, this`forced
    {
      && RoomFor(writers, forced)
      && (stage.MakingRoom? && !stage.force && queue != [] && writers[Head()].batch.None? ==> Head() in forced)
    }

    /** A background error is one of those, and each is one, once the group whose sync failed is finished. */
    ghost predicate ErrorOk()
      reads this`stage, this`bgError, this`failures
    {
      failures > 0 <==> bgError || (stage.Writing? && stage.progress == Broken(true))
    }

    ghost predicate Inv()
      reads this`writers, this`queue, this`stage, this`tmpBatch, this`log, this`lastSequence, this`synced, this`mem
      reads this`waiting, this`forced, this`bgError, this`failures
    {
      && Queued() && StageOk() && OneActive() && RoomOk() && ErrorOk() && synced <= |log|
      && InSequence(writers[..Head()], lastSequence + 1)
      && Logged(writers[..Head()], log, synced)
      && mem == Applied(writers[..Head()]) + Unfinished()
    }

    /** What is in the memtable but not acknowledged yet. */
    ghost function Unfinished(): seq<MemEntry>
      reads this`stage, this`lastSequence
    {
      if stage.Writing? && stage.progress.Inserted? then Numbered(lastSequence + 1, stage.updates) else []
    }

    constructor (size: seq<Op> -> nat)
      ensures Inv() && writers == [] && queue == [] && stage == Idle && lastSequence == 0 && switches == [] && !bgError
      ensures byteSize == size && forced == {} && failures == 0
    {
      byteSize := size;
      switches, waiting, forced, failures := [], 0, {}, 0;
      writers, queue, tmpBatch, lastSequence, log, mem, bgError, stage, synced := [], [], [], 0, [], [], false, Idle, 0;
    }

    /** Join the queue. */
    method Enqueue(batch: Option<seq<Op>>, sync: bool) returns (ticket: nat)
      requires Inv()
      modifies this`writers, this`queue
      ensures Inv() && ticket == |old(writers)|
      ensures writers == old(writers) + [Writer(batch, sync, false, Pending)] && queue == old(queue) + [ticket]
    {
      hide Applied, InSequence, Logged, Batched, Numbered, LongestGroup;
      ticket := |writers|;
      ghost var head, was := Head(), writers;
      writers := writers + [Writer(batch, sync, false, Pending)];
      queue := queue + [ticket];
      assert Head() == head && writers[..head] == was[..head];
      assert forall t :: 0 <= t < |was| ==> writers[t] == was[t];
      assert Queued();
      if stage.Writing? {
        assert writers[head..head + stage.n] == was[head..head + stage.n];
        StillLongest(was, writers, head, stage.n, waiting, byteSize);
      }
    }

    /** A writer that waits finds itself at the front of the queue, and starts to make room.  No other
        writer is active then. */
    method Lead(t: nat)
      requires Inv() && t < |writers| && queue != [] && queue[0] == t && !writers[t].active
      modifies this`stage, this`writers
      ensures old(stage) == Idle && forall u :: 0 <= u < |writers| && writers[u].active && writers[u].outcome.Pending? ==> u == t
      ensures Inv() && stage == MakingRoom(writers[t].batch.None?) && writers == old(writers)[t := old(writers[t]).(active := true)]
    {
      hide Applied, InSequence, Logged, Batched, Numbered;
      ghost var head, was := Head(), writers;
      stage := MakingRoom(writers[t].batch.None?);
      writers := writers[t := writers[t].(active := true)];
      assert writers[..head] == was[..head];
    }

    /** Start a new memtable while making room: because it was asked for, or because the old one is full. */
    method SwitchMemTable()
      requires Inv() && stage.MakingRoom? && !bgError
      modifies this`switches, this`stage, this`forced
      ensures Inv() && stage == MakingRoom(false) && switches == old(switches) + [|mem|]
      ensures forced == if writers[queue[0]].batch.None? then old(forced) + {queue[0]} else old(forced)
    {
      hide Applied, InSequence, Logged, Batched, Numbered;
      QueueAt(0);
      switches := switches + [|mem|];
      if writers[queue[0]].batch.None? {
        forced := forced + {queue[0]};
      }
      stage := MakingRoom(false);
    }

    /** Collect the batches of the front writer and of those behind it, as far as the rules let a group
        grow.  Only when there is more than one batch is the temporary batch used. */
    method BuildBatchGroup() returns (n: nat, updates: seq<Op>, usesTmp: bool)
      requires Queued() && queue != [] && tmpBatch == [] && writers[Head()].batch.Some?
      modifies this`tmpBatch
      ensures 0 < n <= |queue| && updates == Batched(writers[Head()..Head() + n])
      ensures if usesTmp then tmpBatch == updates else tmpBatch == []
      ensures forall t :: Head() <= t < Head() + n && writers[t].sync ==> writers[Head()].sync
      ensures n > 1 && usesTmp ==>
          GroupSize(writers[Head()..Head() + n], byteSize) <= MaxSize(byteSize(writers[Head()].batch.value))
      ensures LongestGroup(writers, Head(), n, |queue|, byteSize)
      ensures usesTmp <==> HasMore(writers, Head(), n)
    {
      hide Batched, GroupSize, InQueue, Queued, AllJoin, Joins, HasMore, Refused, Gathered;
      QueueAt(0);
      var first := writers[queue[0]];
      ghost var head, ws := Head(), writers;
      updates, usesTmp := first.batch.value, false;
      var size: nat := byteSize(first.batch.value);
      var maxSize := 1048576;
      if size <= 131072 {
        maxSize := size + 131072;
      }
      assert maxSize == MaxSize(size);
      OneGathered(ws, head, byteSize);
      ghost var total := size;
      n := 1;
      OneIsFine(ws, head, byteSize);
      NoMoreThanOne(ws, head);
      while n < |queue|
        invariant 0 < n <= |queue| && head == Head() && ws == writers
        invariant updates == (if usesTmp then tmpBatch else first.batch.value) && (!usesTmp ==> tmpBatch == [])
        invariant total == size && Gathered(ws, head, n, byteSize, updates, total)
        invariant forall t :: head <= t < head + n && ws[t].sync ==> first.sync
        invariant usesTmp ==> size <= maxSize
        invariant usesTmp <==> HasMore(ws, head, n)
        invariant AllJoin(ws, head, n, byteSize)
      {
        QueueAt(n);
        var w := writers[queue[n]];
        GatherOneMore(ws, head, n, byteSize, updates, size);
        OneMoreJoins(ws, head, n, byteSize, updates, size);
        HasMoreStep(ws, head, n);
        if w.sync && !first.sync {
          break;
        }
        if w.batch.Some? {
          size := size + byteSize(w.batch.value);
          if size > maxSize {
            break;
          }
          if !usesTmp {
            // The caller's own batch stays as it is
            usesTmp := true;
            tmpBatch := tmpBatch + first.batch.value;
          }
          tmpBatch := tmpBatch + w.batch.value;
          updates := tmpBatch;
        }
        n, total := n + 1, size;
      }
      ThoseGathered(ws, head, n, byteSize, updates, total);
    }

    /** The front writer has made room, or could not.  With a batch it goes on to write one for a group;
        otherwise it is finished. */
    method RoomMade(status: bool)
      requires Inv() && stage.MakingRoom? && (bgError || stage.force ==> !status)
      modifies this`writers, this`queue, this`tmpBatch, this`stage, this`waiting
      ensures Inv() && |writers| == |old(writers)| && 0 <= old(Head()) < |writers|
      ensures old(writers[Head()]).batch.Some? && status ==>
          && stage.Writing? && stage.progress == ToLog && writers == old(writers) && queue == old(queue)
          && waiting == |queue| && LongestGroup(writers, Head(), stage.n, |queue|, byteSize)
      ensures !(old(writers[Head()]).batch.Some? && status) ==>
          && stage == Idle && queue == old(queue)[1..]
          && writers[old(Head())].outcome == if status then Acknowledged(lastSequence + 1, 0) else Failed
    {
      hide Applied, InSequence, Logged, Batched, Numbered, GroupSize, Refused, LongestGroup, RoomFor;
      if status && writers[queue[0]].batch.Some? {
        var n, updates, usesTmp := BuildBatchGroup();
        stage := Writing(n, updates, usesTmp, ToLog);
        waiting := |queue|;
      } else {
        FinishAlone(status);
      }
    }

    /** Finish the front writer alone: it has no batch, or there is no room. */
    method FinishAlone(status: bool)
      requires Inv() && stage.MakingRoom? && (stage.force ==> !status) && (writers[Head()].batch.Some? ==> !status)
      modifies this`writers, this`queue, this`stage
      ensures Inv() && stage == Idle && |writers| == |old(writers)| && queue == old(queue)[1..] && 0 <= old(Head()) < |writers|
      ensures writers[old(Head())].outcome == if status then Acknowledged(lastSequence + 1, 0) else Failed
    {
      hide Applied, InSequence, Logged, Batched, Numbered, RoomFor, LongestGroup;
      ghost var head, base, w := Head(), lastSequence + 1, writers[Head()];
      ghost var group := writers[head..head + 1];
      assert group == [w];
      OneAlone(w);
      EmptyBatch(group);
      NothingNumbered(base);
      FinishKeeps(writers, head, 1, status, base, 0, log, synced);
      ghost var after := writers[..head] + Settled(group, status, base, 0);
      stage := Idle;
      PopGroup(1, status, lastSequence + 1, 0);
      assert writers[..head + 1][head] == after[head];
      assert mem == Applied(writers[..head + 1]) + [];
    }

    lemma QueueAt(k: nat)
      requires Queued() && k < |queue|
      ensures queue[k] == Head() + k < |writers| && Head() + |queue| == |writers|
    {
    }

    lemma QueueFits()
      requires Queued()
      ensures |queue| <= |writers|
    {
    }

    /** Take the first n writers off the queue and tell them the status of the group. */
    method PopGroup(n: nat, ok: bool, base: nat, record: nat)
      requires Queued() && 0 < n <= |queue| && NoneBehind() && RoomFor(writers, forced)
      requires ok ==> writers[Head()].batch.Some? || Head() in forced
      modifies this`writers, this`queue
      ensures Queued() && queue == old(queue)[n..] && |writers| == |old(writers)| && Head() == old(Head()) + n
      ensures Told(old(writers), writers, old(Head()), n, ok) && NoneActive() && RoomFor(writers, forced)
      ensures writers[..Head()] == old(writers)[..old(Head())]
          + Settled(old(writers)[old(Head())..old(Head()) + n], ok, base, record)
    {
      hide Queued, Settled, Told, RoomFor;
      QueueFits();
      ghost var was, head := writers, Head();
      PopEach(n, ok, base, record);
      Parted(was, writers, head, n, ok, base, record);
      ToldRoom(was, writers, head, n, ok, forced);
    }

    /** Nobody who waits is active, or nobody but the one at the front. */
    ghost predicate NoneActive()
      reads this`writers, this`queue
    {
      forall t :: Head() <= t < |writers| && 0 <= t ==> !writers[t].active
    }

    ghost predicate NoneBehind()
      reads this`writers, this`queue
    {
      forall t :: Head() < t < |writers| && 0 <= t ==> !writers[t].active
    }

    method PopEach(n: nat, ok: bool, base: nat, record: nat)
      requires Queued() && 0 < n <= |queue|
      modifies this`writers, this`queue
      ensures Queued() && queue == old(queue)[n..] && |writers| == |old(writers)| && Head() == old(Head()) + n
      ensures writers == old(writers)[..old(Head())] + Settled(old(writers)[old(Head())..old(Head()) + n], ok, base, record)
          + old(writers)[old(Head()) + n..]
    {
      hide Batched, InQueue;
      QueueFits();
      ghost var was, head := writers, Head();
      ghost var group := was[head..head + n];
      ghost var settled := Settled(group, ok, base, record);
      var first, k := base, 0;
      EmptyBatch(group);
      while k < n
        invariant 0 <= k <= n && Queued() && queue == old(queue)[k..] && |writers| == |was|
        invariant writers == was[..head] + settled[..k] + was[head + k..]
        invariant first == base + |Batched(group[..k])|
      {
        var ready := queue[0];
        var outcome := if ok then Acknowledged(first, record) else Failed;
        PopKeeps(writers, queue, outcome);
        SettleOne(was, head, n, settled, k);
        BatchStep(group, k);
        queue := queue[1..];
        writers := writers[ready := writers[ready].(outcome := outcome)];
        first := first + |Ops(writers[ready])|;
        k := k + 1;
      }
      assert settled[..n] == settled;
    }

    /** Add the batch to the log.  After a failure the record may be there all the same. */
    method AddRecord(ok: bool, landed: bool)
      requires Inv() && stage.Writing? && stage.progress == ToLog
      modifies this`log, this`stage
      ensures Inv() && stage.Writing? && stage == old(stage).(progress := stage.progress)
      ensures stage.progress == if !ok then Broken(false) else if writers[queue[0]].sync then ToSync(|old(log)|) else ToInsert(|old(log)|)
      ensures ok ==> log == old(log) + [Record(lastSequence + 1, stage.updates)]
      ensures !ok ==> log == if landed then old(log) + [Record(lastSequence + 1, stage.updates)] else old(log)
    {
      hide Applied, InSequence, Batched, Numbered, RoomFor, LongestGroup;
      if ok || landed {
        log := log + [Record(lastSequence + 1, stage.updates)];
      }
      LoggedMore(writers[..Head()], old(log), log, synced, synced);
      var r := |log| - 1;
      stage := stage.(progress := if !ok then Broken(false) else if writers[queue[0]].sync then ToSync(r) else ToInsert(r));
    }

    /** Sync the log, as the front writer asked for. */
    method SyncLog(ok: bool)
      requires Inv() && stage.Writing? && stage.progress.ToSync?
      modifies this`synced, this`stage, this`failures
      ensures Inv() && stage == old(stage).(progress := if ok then ToInsert(old(stage.progress.record)) else Broken(true))
      ensures (ok ==> synced == |log|) && failures == if ok then old(failures) else old(failures) + 1
    {
      hide Applied, InSequence, Batched, Numbered, RoomFor, LongestGroup;
      var r := stage.progress.record;
      if ok {
        LoggedMore(writers[..Head()], log, log, synced, |log|);
        synced := |log|;
        stage := stage.(progress := ToInsert(r));
      } else {
        stage := stage.(progress := Broken(true));
        failures := failures + 1;
      }
    }

    /** Insert the batch into the memtable, one operation after the other. */
    method InsertInto()
      requires Inv() && stage.Writing? && stage.progress.ToInsert?
      modifies this`mem, this`stage
      ensures Inv() && stage == old(stage).(progress := Inserted(old(stage.progress.record)))
      ensures mem == old(mem) + Numbered(lastSequence + 1, stage.updates)
    {
      hide Applied, InSequence, Logged, Batched, RoomFor, LongestGroup;
      var updates, sequence := stage.updates, lastSequence + 1;
      ghost var was, all := mem, Numbered(lastSequence + 1, updates);
      for i := 0 to |updates|
        invariant mem == was + all[..i] && sequence == lastSequence + 1 + i && stage == old(stage)
      {
        mem := mem + [MemEntry(sequence, updates[i])];
        sequence := sequence + 1;
      }
      assert all[..|updates|] == all;
      stage := stage.(progress := Inserted(stage.progress.record));
    }

    /** Take the lock again and finish the group. */
    method Complete()
      requires Inv() && stage.Writing? && (stage.progress.Inserted? || stage.progress.Broken?)
      modifies this`writers, this`queue, this`tmpBatch, this`lastSequence, this`bgError, this`stage
      ensures Inv() && stage == Idle && tmpBatch == [] && queue == old(queue)[old(stage.n)..]
      ensures lastSequence == old(lastSequence) + |old(stage.updates)|
      ensures Told(old(writers), writers, old(Head()), old(stage.n), old(stage.progress).Inserted?)
      ensures bgError == (old(bgError) || old(stage.progress) == Broken(true))
    {
      hide Applied, InSequence, Logged, Batched, Numbered, Settled, RoomFor, LongestGroup, Told;
      var n, ok := stage.n, stage.progress.Inserted?;
      var record := if ok then stage.progress.record else 0;
      var base := lastSequence + 1;
      GroupFinished(n, ok, record);
      if stage.progress == Broken(true) {
        // Nobody knows whether the record is in the log: no more writes
        bgError := true;
      }
      if stage.usesTmp {
        tmpBatch := [];
      }
      lastSequence := lastSequence + |stage.updates|;
      stage := Idle;
      PopGroup(n, ok, base, record);
      assert mem == Applied(writers[..Head()]) + [];
    }

    /** All that is left to do for a group, undisturbed. */
    method WriteGroup(added: bool, landed: bool, flushed: bool)
      requires Inv() && stage.Writing? && stage.progress == ToLog
      modifies this`writers, this`queue, this`tmpBatch, this`lastSequence, this`bgError, this`stage, this`log, this`synced, this`mem
      modifies this`failures
      ensures Inv() && stage == Idle && 0 < old(stage.n) <= |old(queue)| && queue == old(queue)[old(stage.n)..]
      ensures 0 <= old(Head()) < |old(writers)|
      ensures Told(old(writers), writers, old(Head()), old(stage.n), added && (flushed || !old(writers)[old(Head())].sync))
      ensures bgError == (old(bgError) || (added && !flushed && old(writers)[old(Head())].sync))
      ensures lastSequence == old(lastSequence) + |old(stage.updates)|
    {
      hide Applied, InSequence, Logged, Batched, Numbered, RoomFor, LongestGroup, Told;
      QueueAt(0);
      AddRecord(added, landed);
      if stage.progress.ToSync? {
        SyncLog(flushed);
      }
      if stage.progress.ToInsert? {
        InsertInto();
      }
      Complete();
    }

    lemma GroupFinished(n: nat, ok: bool, record: nat)
      requires Inv() && stage.Writing? && (stage.progress.Inserted? || stage.progress.Broken?)
      requires n == stage.n && ok == stage.progress.Inserted? && record == if ok then stage.progress.record else 0
      ensures Queued() && 0 < n <= |queue|
      ensures var after := writers[..Head()] + Settled(writers[Head()..Head() + n], ok, lastSequence + 1, record);
          && InSequence(after, lastSequence + |stage.updates| + 1)
          && Logged(after, log, synced) && mem == Applied(after)
    {
      hide Applied, InSequence, Logged, Batched, Numbered, Settled;
      var base := lastSequence + 1;
      var after := writers[..Head()] + Settled(writers[Head()..Head() + n], ok, base, record);
      FinishKeeps(writers, Head(), n, ok, base, record, log, synced);
      InSequenceMore(after, base, base + |stage.updates|);
      assert Applied(writers[..Head()]) + [] == Applied(writers[..Head()]);
    }

    lemma OthersWait()
      requires Inv()
      ensures Queued() && NoneBehind()
    {
      hide Applied, InSequence, Logged, Batched, Numbered, RoomFor, LongestGroup;
    }

    /** Once a group is built, whoever is k places behind its leader is in it if and only if nobody up to
        and including that one was refused.  The rules ask only for the batches and for sync, so a writer
        without a batch is taken in like any other. */
    lemma InTheGroup(k: nat)
      requires Inv() && stage.Writing? && 0 < k < waiting
      ensures Head() + waiting <= |writers|
      ensures k < stage.n <==> forall j :: 0 < j <= k ==> Joins(writers, Head(), j, byteSize)
    {
      hide Applied, InSequence, Logged, Batched, Numbered, RoomFor, Joins;
      var n := stage.n;
      if k >= n {
        assert !Joins(writers, Head(), n, byteSize);
      }
    }

    /** Of the writers without a batch that were told OK, those that led had a new memtable started for
        them, and those that joined the group of another had not. */
    lemma RoomOnlyForLeaders(t: nat)
      requires Inv() && t < Head() && writers[t].outcome.Acknowledged? && writers[t].batch.None?
      ensures t in forced <==> writers[t].active
    {
      hide Applied, InSequence, Logged, Batched, Numbered, LongestGroup;
    }

    /** An acknowledged batch is in the memtable once, in one piece, under its own sequence numbers: at
        place p, where nothing else has one of them, and before the batches acknowledged behind it. */
    lemma AppliedOnce(t: nat) returns (p: nat)
      requires Inv() && t < Head() && writers[t].outcome.Acknowledged?
      ensures var first, n := writers[t].outcome.first, |Ops(writers[t])|;
          && p + n <= |mem| && mem[p..p + n] == Numbered(first, Ops(writers[t]))
          && (forall i :: 0 <= i < |mem| && first <= mem[i].sequence < first + n ==> p <= i < p + n)
          && (forall u, i | t < u < Head() && writers[u].outcome.Acknowledged? && n > 0 && 0 <= i < |mem| ::
                writers[u].outcome.first <= mem[i].sequence < writers[u].outcome.first + |Ops(writers[u])| ==> p + n <= i)
    {
      hide Applied, Logged, Batched, RoomFor, LongestGroup;
      var ws := writers[..Head()];
      SequencesAscend();
      AppliedInOrder(ws, t);
      p := |Applied(ws[..t])|;
      assert forall u :: 0 <= u < Head() ==> ws[u] == writers[u];
      SliceOfBoth(Applied(ws), Unfinished(), p, p + |Ops(ws[t])|);
      PlacedByNumber(mem, p, writers[t].outcome.first, Ops(writers[t]));
    }

    /** Sequence numbers strictly increase through the memtables, with those of the group that is being
        inserted. */
    lemma SequencesAscend()
      requires Inv()
      ensures forall i, j :: 0 <= i < j < |mem| ==> mem[i].sequence < mem[j].sequence
      ensures forall i :: 0 <= i < |mem| ==> mem[i].sequence <= lastSequence + |Unfinished()|
    {
      hide Applied, Logged, Batched, RoomFor, LongestGroup;
      SequencesGrow(writers[..Head()], lastSequence + 1);
    }

    /** The compaction thread hits an error. */
    method BackgroundError()
      requires Inv()
      modifies this`bgError, this`failures
      ensures Inv() && bgError && failures == old(failures) + 1
    {
      hide Applied, InSequence, Logged, Batched, Numbered, RoomFor, LongestGroup;
      bgError := true;
      failures := failures + 1;
    }
  }

  lemma OneGathered(ws: seq<Writer>, head: nat, byteSize: seq<Op> -> nat)
    requires head < |ws| && ws[head].batch.Some?
    ensures Gathered(ws, head, 1, byteSize, ws[head].batch.value, byteSize(ws[head].batch.value))
  {
    assert ws[head..head + 1][..0] == [];
  }

  lemma ThoseGathered(ws: seq<Writer>, head: nat, n: nat, byteSize: seq<Op> -> nat, updates: seq<Op>, size: nat)
    requires Gathered(ws, head, n, byteSize, updates, size)
    ensures head + n <= |ws| && updates == Batched(ws[head..head + n]) && size == GroupSize(ws[head..head + n], byteSize)
  {
  }

  lemma NoMoreThanOne(ws: seq<Writer>, head: nat)
    ensures !HasMore(ws, head, 1)
  {
  }

  lemma HasMoreStep(ws: seq<Writer>, head: nat, n: nat)
    requires 0 < n && head + n < |ws|
    ensures HasMore(ws, head, n + 1) <==> HasMore(ws, head, n) || ws[head + n].batch.Some?
  {
    if ws[head + n].batch.Some? {
      assert HasMore(ws, head, n + 1);
    }
  }

  lemma OneIsFine(ws: seq<Writer>, head: nat, byteSize: seq<Op> -> nat)
    ensures AllJoin(ws, head, 1, byteSize)
  {
  }

  lemma OneMoreJoins(ws: seq<Writer>, head: nat, n: nat, byteSize: seq<Op> -> nat, updates: seq<Op>, size: nat)
    requires 0 < n && head + n < |ws| && ws[head].batch.Some? && AllJoin(ws, head, n, byteSize)
    requires Gathered(ws, head, n, byteSize, updates, size)
    ensures var w := ws[head + n];
        && (w.sync && !ws[head].sync ==> !Joins(ws, head, n, byteSize))
        && (!w.sync || ws[head].sync ==>
              (Joins(ws, head, n, byteSize) <==>
                 w.batch.Some? ==>
                 size + byteSize(w.batch.value) <= MaxSize(byteSize(ws[head].batch.value))))
    ensures Joins(ws, head, n, byteSize) ==> AllJoin(ws, head, n + 1, byteSize)
  {
    hide GroupSize, MaxSize;
    assert ws[head..head + n][0] == ws[head];
  }

  lemma GatherOneMore(ws: seq<Writer>, head: nat, n: nat, byteSize: seq<Op> -> nat, updates: seq<Op>, size: nat)
    requires Gathered(ws, head, n, byteSize, updates, size) && head + n < |ws|
    ensures var w := ws[head + n];
        Gathered(ws, head, n + 1, byteSize, updates + Ops(w), size + if w.batch.Some? then byteSize(w.batch.value) else 0)
    ensures updates + [] == updates && [] + updates == updates
  {
    assert ws[head..head + n + 1][..n] == ws[head..head + n];
  }

  lemma StillLongest(ws: seq<Writer>, ws': seq<Writer>, head: nat, n: nat, waiting: nat, byteSize: seq<Op> -> nat)
    requires ws <= ws' && LongestGroup(ws, head, n, waiting, byteSize)
    ensures LongestGroup(ws', head, n, waiting, byteSize)
  {
    forall j | 0 < j < waiting ensures Joins(ws', head, j, byteSize) == Joins(ws, head, j, byteSize) {
      assert ws'[head..head + j] == ws[head..head + j] && ws'[head + j] == ws[head + j];
    }
  }

  lemma ToldRoom(was: seq<Writer>, now: seq<Writer>, head: nat, n: nat, ok: bool, forced: set<nat>)
    requires 0 < n && Told(was, now, head, n, ok) && RoomFor(was, forced)
    requires forall t :: head < t < |was| ==> !was[t].active
    requires ok ==> was[head].batch.Some? || head in forced
    ensures RoomFor(now, forced) && forall t :: head + n <= t < |now| ==> !now[t].active
  {
  }

  /** What the writers of a group are told. */
  function Settled(group: seq<Writer>, ok: bool, base: nat, record: nat): (r: seq<Writer>)
    ensures |r| == |group|
    ensures forall k :: 0 <= k < |group| ==> r[k] == group[k].(outcome := SettledAt(group, ok, base, record, k))
  {
    seq(|group|, k requires 0 <= k < |group| => group[k].(outcome := SettledAt(group, ok, base, record, k)))
  }

  function SettledAt(group: seq<Writer>, ok: bool, base: nat, record: nat, k: nat): Outcome
    requires k < |group|
  {
    if ok then Acknowledged(base + |Batched(group[..k])|, record) else Failed
  }

  /** One more writer of a group is told. */
  lemma SettleOne(was: seq<Writer>, head: nat, n: nat, settled: seq<Writer>, k: nat)
    requires head + n <= |was| && |settled| == n && k < n
    ensures var now := was[..head] + settled[..k] + was[head + k..];
        && |now| == |was| && now[head + k] == was[head + k]
        && now[head + k := settled[k]] == was[..head] + settled[..k + 1] + was[head + k + 1..]
  {
    var now := was[..head] + settled[..k] + was[head + k..];
    var next := was[..head] + settled[..k + 1] + was[head + k + 1..];
    forall i | 0 <= i < |was| ensures now[head + k := settled[k]][i] == next[i] {
    }
  }

  lemma EmptyBatch(group: seq<Writer>)
    ensures Batched(group[..0]) == []
  {
  }

  lemma BatchStep(group: seq<Writer>, k: nat)
    requires k < |group|
    ensures Batched(group[..k + 1]) == Batched(group[..k]) + Ops(group[k])
  {
    assert group[..k + 1][..k] == group[..k];
  }

  lemma OneAlone(w: Writer)
    ensures Batched([w]) == Ops(w)
  {
    assert [w][..0] == [];
  }

  lemma LoggedMore(ws: seq<Writer>, log: seq<Record>, log': seq<Record>, synced: nat, synced': nat)
    requires Logged(ws, log, synced) && log <= log' && synced <= synced'
    ensures Logged(ws, log', synced')
  {
  }

  /** When a group is finished, its batches follow those acknowledged before, or leave no trace. */
  lemma {:induction false} FinishKeeps(writers: seq<Writer>, head: nat, n: nat, ok: bool, base: nat, record: nat, log: seq<Record>, synced: nat)
    requires head + n <= |writers| && base > 0
    requires InSequence(writers[..head], base) && Logged(writers[..head], log, synced)
    requires forall t :: head <= t < head + n ==> writers[t].outcome.Pending?
    requires ok ==> forall t :: head <= t < head + n && writers[t].batch.Some? ==>
        && record < |log| && log[record] == Record(base, Batched(writers[head..head + n]))
        && (writers[t].sync ==> record < synced)
    ensures var group := writers[head..head + n];
        var after := writers[..head] + Settled(group, ok, base, record);
        && InSequence(after, if ok then base + |Batched(group)| else base)
        && Logged(after, log, synced)
        && Applied(after) == Applied(writers[..head]) + if ok then Numbered(base, Batched(group)) else []
  {
    hide InSequence, Logged, Applied, Batched, Settled, Numbered;
    var pre, group := writers[..head], writers[head..head + n];
    assert forall k :: 0 <= k < n ==> group[k] == writers[head + k];
    SettledInSequence(pre, group, ok, base, record);
    SettledLogged(pre, group, ok, base, record, log, synced);
    SettledApplied(pre, group, ok, base, record, n);
    assert group[..n] == group;
    var settled := Settled(group, ok, base, record);
    assert settled[..n] == settled;
  }

  lemma {:induction false} SettledInSequence(pre: seq<Writer>, group: seq<Writer>, ok: bool, base: nat, record: nat)
    requires InSequence(pre, base) && base > 0
    ensures InSequence(pre + Settled(group, ok, base, record), if ok then base + |Batched(group)| else base)
  {
    hide Batched;
    var settled := Settled(group, ok, base, record);
    var after := pre + settled;
    assert forall k :: 0 <= k < |group| ==> after[|pre| + k] == settled[k];
    forall i, j | 0 <= i < j < |after| && after[i].outcome.Acknowledged? && after[j].outcome.Acknowledged?
      ensures after[i].outcome.first + |Ops(after[i])| <= after[j].outcome.first
    {
      if j >= |pre| {
        assert ok;
        if i >= |pre| {
          BatchedGrows(group, i - |pre|, j - |pre|);
        }
      }
    }
    forall i | 0 <= i < |after| && after[i].outcome.Acknowledged?
      ensures after[i].outcome.first + |Ops(after[i])| <= if ok then base + |Batched(group)| else base
    {
      if i >= |pre| {
        assert ok;
        BatchedGrows(group, i - |pre|, |group|);
      }
    }
  }

  lemma {:induction false} BatchedGrows(group: seq<Writer>, i: nat, j: nat)
    requires i < j <= |group|
    ensures |Batched(group[..i])| + |Ops(group[i])| <= |Batched(group[..j])|
    ensures |Batched(group[..j])| <= |Batched(group)|
    decreases j
  {
    hide Batched;
    assert group[..|group|] == group;
    BatchStep(group, j - 1);
    if i < j - 1 {
      BatchedGrows(group, i, j - 1);
    }
    PrefixBatched(group, j);
  }

  lemma {:induction false} PrefixBatched(group: seq<Writer>, j: nat)
    requires j <= |group|
    ensures Batched(group[..j]) <= Batched(group)
    decreases |group| - j
  {
    if j < |group| {
      BatchStep(group, j);
      PrefixBatched(group, j + 1);
    } else {
      assert group[..j] == group;
    }
  }

  lemma {:induction false} SettledLogged(pre: seq<Writer>, group: seq<Writer>, ok: bool, base: nat, record: nat, log: seq<Record>, synced: nat)
    requires Logged(pre, log, synced)
    requires forall k :: 0 <= k < |group| ==> group[k].outcome.Pending?
    requires ok ==> forall k :: 0 <= k < |group| && group[k].batch.Some? ==>
        record < |log| && log[record] == Record(base, Batched(group)) && (group[k].sync ==> record < synced)
    ensures Logged(pre + Settled(group, ok, base, record), log, synced)
  {
    hide Batched, InRecord;
    var settled := Settled(group, ok, base, record);
    var after := pre + settled;
    forall i | |pre| <= i < |after| && after[i].outcome.Acknowledged? && after[i].batch.Some?
      ensures InRecord(log[record], after[i].outcome.first, Ops(after[i]))
    {
      assert after[i] == settled[i - |pre|];
      PartOfBatch(group, i - |pre|, base);
    }
  }

  lemma PartOfBatch(group: seq<Writer>, k: nat, base: nat)
    requires k < |group|
    ensures InRecord(Record(base, Batched(group)), base + |Batched(group[..k])|, Ops(group[k]))
  {
    hide Batched;
    BatchStep(group, k);
    PrefixBatched(group, k + 1);
    var o := |Batched(group[..k])|;
    var upTo := Batched(group[..k + 1]);
    assert upTo[o..] == Ops(group[k]);
    assert Batched(group)[o..o + |Ops(group[k])|] == upTo[o..];
  }

  lemma {:induction false} SettledApplied(pre: seq<Writer>, group: seq<Writer>, ok: bool, base: nat, record: nat, k: nat)
    requires k <= |group|
    ensures Applied(pre + Settled(group, ok, base, record)[..k]) ==
        Applied(pre) + if ok then Numbered(base, Batched(group[..k])) else []
  {
    hide Batched, Numbered, Applied;
    var settled := Settled(group, ok, base, record);
    if k == 0 {
      EmptyBatch(group);
      NothingNumbered(base);
      assert pre + settled[..0] == pre;
      assert Applied(pre) + [] == Applied(pre);
    } else {
      SettledApplied(pre, group, ok, base, record, k - 1);
      AppliedOneMore(pre, settled, k - 1);
      if ok {
        NumberedStep(base, group, k - 1);
        Associate(Applied(pre), Numbered(base, Batched(group[..k - 1])), Numbered(base + |Batched(group[..k - 1])|, Ops(group[k - 1])));
      }
    }
  }

  lemma AppliedOneMore(pre: seq<Writer>, settled: seq<Writer>, k: nat)
    requires k < |settled|
    ensures settled[k].outcome.Acknowledged? ==>
        Applied(pre + settled[..k + 1]) == Applied(pre + settled[..k]) + Numbered(settled[k].outcome.first, Ops(settled[k]))
    ensures !settled[k].outcome.Acknowledged? ==> Applied(pre + settled[..k + 1]) == Applied(pre + settled[..k])
  {
    hide Numbered;
    var after := pre + settled[..k + 1];
    assert after[..|after| - 1] == pre + settled[..k] && after[|after| - 1] == settled[k];
    assert Applied(pre + settled[..k]) + [] == Applied(pre + settled[..k]);
  }

  lemma NumberedStep(base: nat, group: seq<Writer>, k: nat)
    requires k < |group|
    ensures var before := Batched(group[..k]);
        Numbered(base, Batched(group[..k + 1])) == Numbered(base, before) + Numbered(base + |before|, Ops(group[k]))
  {
    hide Batched, Numbered;
    BatchStep(group, k);
    NumberedMore(base, Batched(group[..k]), Ops(group[k]));
  }

  lemma Associate<T>(a: seq<T>, b: seq<T>, c: seq<T>)
    ensures a + b + c == a + (b + c)
  {
  }

  lemma NothingNumbered(base: nat)
    ensures Numbered(base, []) == []
  {
  }

  lemma NumberedMore(base: nat, a: seq<Op>, b: seq<Op>)
    ensures Numbered(base, a + b) == Numbered(base, a) + Numbered(base + |a|, b)
  {
  }

  lemma InSequenceMore(ws: seq<Writer>, bound: nat, bound': nat)
    ensures InSequence(ws, bound) && bound <= bound' ==> InSequence(ws, bound')
  {
  }

  /** The writers after a group has been told: those of the group were told the same, the others nothing. */
  lemma Parted(was: seq<Writer>, now: seq<Writer>, head: nat, n: nat, ok: bool, base: nat, record: nat)
    requires head + n <= |was|
    requires now == was[..head] + Settled(was[head..head + n], ok, base, record) + was[head + n..]
    ensures Told(was, now, head, n, ok) && now[..head + n] == was[..head] + Settled(was[head..head + n], ok, base, record)
  {
    hide Batched;
    var settled := Settled(was[head..head + n], ok, base, record);
    forall t | head <= t < head + n ensures now[t] == settled[t - head] && was[t] == was[head..head + n][t - head] {
    }
  }

  // ----- A writer without a batch -----

  /** What becomes of the writer k places behind a leader with a batch, one that has none itself: with the
      leader's group it is finished if and only if nobody up to and including it is refused, and otherwise
      it waits on.  In neither case is a new memtable started for it. */
  method GroupWithoutRoom(q: WriteQueue, k: nat, added: bool, landed: bool, flushed: bool)
    requires q.Inv() && q.stage == MakingRoom(false) && !q.bgError && q.writers[q.Head()].batch.Some?
    requires 0 < k < |q.queue| && q.writers[q.Head() + k].batch.None?
    modifies q
    ensures q.Inv() && q.stage == Idle && |q.writers| == |old(q.writers)|
    ensures var head, t := old(q.Head()), old(q.Head()) + k;
        && (t < q.Head() <==> forall j :: 0 < j <= k ==> Joins(old(q.writers), head, j, q.byteSize))
        && q.writers[t] == old(q.writers)[t].(outcome := q.writers[t].outcome)
        && (t >= q.Head() ==> q.writers[t].outcome.Pending?)
        && (t < q.Head() ==>
              (q.writers[t].outcome.Acknowledged? <==> added && (flushed || !old(q.writers)[head].sync)))
        && !q.writers[t].active && t !in q.forced
    ensures q.switches == old(q.switches) && q.bgError == (added && !flushed && old(q.writers)[old(q.Head())].sync)
  {
    hide Applied, InSequence, Logged, Batched, Numbered, Settled, LongestGroup, GroupSize, Refused, Joins, Told, RoomFor;
    ghost var head, was := q.Head(), q.writers;
    q.OthersWait();
    q.RoomMade(true);
    q.InTheGroup(k);
    ghost var n := q.stage.n;
    ghost var ok := added && (flushed || !was[head].sync);
    q.WriteGroup(added, landed, flushed);
    ToldOne(was, q.writers, head, n, ok, head + k, q.forced);
  }

  lemma ToldOne(was: seq<Writer>, now: seq<Writer>, head: nat, n: nat, ok: bool, t: nat, forced: set<nat>)
    requires head <= t < |was| && Told(was, now, head, n, ok) && !was[t].active && RoomFor(now, forced)
    ensures |now| == |was| && !now[t].active && t !in forced
    ensures now[t] == was[t].(outcome := now[t].outcome)
    ensures if t < head + n then now[t].outcome.Acknowledged? <==> ok else now[t] == was[t]
  {
  }

  /** A writer without a batch asks for a new memtable.  Behind a writer that has one it is told OK all the
      same, though none was started. */
  method JoinedWithoutRoom(op: Op, size: seq<Op> -> nat) returns (q: WriteQueue)
    ensures fresh(q) && q.Inv() && |q.writers| == 2 && q.writers[1].batch.None? && q.queue == []
    ensures q.writers[1].outcome.Acknowledged? && !q.writers[1].active
    ensures 1 !in q.forced && q.switches == []
  {
    hide Applied, InSequence, Logged, Batched, Numbered, Settled, LongestGroup, GroupSize;
    q := new WriteQueue(size);
    var first := q.Enqueue(Some([op]), false);
    var second := q.Enqueue(None, false);
    q.Lead(first);
    GroupWithoutRoom(q, 1, true, true, true);
  }

  /** Two writes, one after the other: both are told OK, and there is no background error. */
  method TwoWrites(a: Op, b: Op, sync: bool, size: seq<Op> -> nat) returns (q: WriteQueue)
    ensures fresh(q) && q.Inv() && q.queue == [] && |q.writers| == 2 && !q.bgError
    ensures q.writers[0].outcome.Acknowledged? && q.writers[1].outcome.Acknowledged?
    ensures q.lastSequence == 2
  {
    hide Applied, InSequence, Logged, Numbered, Settled, LongestGroup, GroupSize, RoomFor;
    q := new WriteQueue(size);
    WriteAlone(q, [a], sync);
    WriteAlone(q, [b], sync);
  }

  /** A write that meets no other, with nothing going wrong. */
  method WriteAlone(q: WriteQueue, ops: seq<Op>, sync: bool)
    requires q.Inv() && q.queue == [] && q.stage == Idle && !q.bgError
    modifies q
    ensures q.Inv() && q.queue == [] && q.stage == Idle && !q.bgError && |q.writers| == |old(q.writers)| + 1
    ensures q.writers[..|old(q.writers)|] == old(q.writers) && q.writers[|old(q.writers)|].outcome.Acknowledged?
    ensures q.lastSequence == old(q.lastSequence) + |ops|
  {
    hide Applied, InSequence, Logged, Numbered, Settled, GroupSize, RoomFor, Batched;
    var t := q.Enqueue(Some(ops), sync);
    q.Lead(t);
    q.RoomMade(true);
    assert q.writers[t..t + 1] == [q.writers[t]];
    OneAlone(q.writers[t]);
    q.WriteGroup(true, true, true);
  }

  // ----- What follows for every run -----

  /** An acknowledged batch is in the memtable once, in one piece, under consecutive sequence numbers, after
      all batches that were acknowledged before it in the queue and before all that were later. */
  lemma {:induction false} AppliedInOrder(ws: seq<Writer>, t: nat)
    requires t < |ws| && ws[t].outcome.Acknowledged?
    ensures var p, n := |Applied(ws[..t])|, |Ops(ws[t])|;
        && p + n <= |Applied(ws)|
        && Applied(ws)[..p] == Applied(ws[..t])
        && Applied(ws)[p..p + n] == Numbered(ws[t].outcome.first, Ops(ws[t]))
    ensures |Applied(ws[..t + 1])| == |Applied(ws[..t])| + |Ops(ws[t])|
  {
    AppliedPrefix(ws, t + 1);
    assert ws[..t + 1][..t] == ws[..t];
    var before := Applied(ws[..t + 1]);
    assert before == Applied(ws[..t]) + Numbered(ws[t].outcome.first, Ops(ws[t]));
    assert Applied(ws)[..|before|] == before;
  }

  lemma SliceOfBoth<T>(a: seq<T>, b: seq<T>, from: nat, to: nat)
    requires from <= to <= |a|
    ensures (a + b)[from..to] == a[from..to]
  {
  }

  /** In a memtable that ascends, only the places of some operations have their sequence numbers. */
  lemma PlacedByNumber(mem: seq<MemEntry>, p: nat, first: nat, ops: seq<Op>)
    requires p + |ops| <= |mem| && mem[p..p + |ops|] == Numbered(first, ops)
    requires forall i, j :: 0 <= i < j < |mem| ==> mem[i].sequence < mem[j].sequence
    ensures forall i :: 0 <= i < |mem| && first <= mem[i].sequence < first + |ops| ==> p <= i < p + |ops|
    ensures ops != [] ==> forall i :: 0 <= i < |mem| && first + |ops| <= mem[i].sequence ==> p + |ops| <= i
  {
    if ops != [] {
      var last := p + |ops| - 1;
      assert mem[p] == mem[p..p + |ops|][0] && mem[last] == mem[p..p + |ops|][last - p];
    }
  }

  lemma {:induction false} AppliedPrefix(ws: seq<Writer>, t: nat)
    requires t <= |ws|
    ensures Applied(ws[..t]) <= Applied(ws)
    decreases |ws| - t
  {
    if t < |ws| {
      AppliedPrefix(ws, t + 1);
      assert ws[..t + 1][..t] == ws[..t];
    } else {
      assert ws[..t] == ws;
    }
  }

  /** Sequence numbers in the memtable grow, so no two operations share one. */
  lemma {:induction false} SequencesGrow(ws: seq<Writer>, bound: nat)
    requires InSequence(ws, bound)
    ensures forall i, j :: 0 <= i < j < |Applied(ws)| ==> Applied(ws)[i].sequence < Applied(ws)[j].sequence
    ensures forall i :: 0 <= i < |Applied(ws)| ==> Applied(ws)[i].sequence < bound
    decreases |ws|
  {
    if ws != [] {
      var n := |ws| - 1;
      var w := ws[n];
      if w.outcome.Acknowledged? {
        BoundedBefore(ws, n);
        SequencesGrow(ws[..n], w.outcome.first);
      } else {
        BoundedBefore(ws, n);
        SequencesGrow(ws[..n], bound);
      }
    }
  }

  lemma BoundedBefore(ws: seq<Writer>, n: nat)
    requires n + 1 == |ws|
    ensures forall bound: nat :: InSequence(ws, bound) ==> InSequence(ws[..n], bound)
    ensures forall bound: nat :: InSequence(ws, bound) && ws[n].outcome.Acknowledged? ==> InSequence(ws[..n], ws[n].outcome.first)
  {
  }
}
